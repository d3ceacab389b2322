/** A cipher that hides nothing: the identity in OFB mode, with all vectors drawn zero.  What is read of every packet
    is known, so that whole runs can be followed, and no packet ever reads as a tag by chance. */
module InTheClear {
  import opened Bytes
  import opened BlockCipher
  import opened PacketCodec
  import opened PacketLaws
  import opened Duplex
  import opened Lossy
  import opened EncBuf
  import opened Recovery

  function Identity(): (c: Cipher)
    ensures c.Valid() && c.mode.OFB? && c.bs == 16 && c.ulong == 8
  {
    Cipher(OFB, 16, 8, (b: bytes) => b, (b: bytes) => b)
  }

  function Zeros(n: nat): (r: bytes)
    ensures |r| == n && forall i :: 0 <= i < n ==> r[i] == 0
  {
    seq(n, _ => 0)
  }

  lemma {:induction false} XorBitsZero(a: nat, n: nat)
    requires a < Pow2(n)
    ensures XorBits(a, 0, n) == a
  {
    if n > 0 {
      XorBitsZero(a / 2, n - 1);
    }
  }

  lemma XorZeros(b: bytes)
    ensures Xor(b, Zeros(|b|)) == b
  {
    assert Pow2(8) == 256;
    forall i | 0 <= i < |b| ensures Xor(b, Zeros(|b|))[i] == b[i] {
      XorBitsZero(b[i], 8);
    }
  }

  /** Everything is sent in the clear, and the register stays zero. */
  lemma {:induction false} StreamInTheClear(pt: bytes)
    requires Whole(Identity(), pt)
    ensures Encrypt(Identity(), OFB, Zeros(16), pt) == (pt, Zeros(16))
    ensures Decrypt(Identity(), OFB, Zeros(16), pt) == (pt, Zeros(16))
    decreases |pt|
  {
    if pt != [] {
      XorZeros(pt[..16]);
      StreamInTheClear(pt[16..]);
      assert pt[..16] + pt[16..] == pt;
    }
  }

  lemma {:induction false} HeaderInTheClear(pt: bytes)
    requires Whole(Identity(), pt)
    ensures EcbEncrypt(Identity(), pt) == pt && EcbDecrypt(Identity(), pt) == pt
    decreases |pt|
  {
    if pt != [] {
      HeaderInTheClear(pt[16..]);
      assert pt[..16] + pt[16..] == pt;
    }
  }

  function ClearHeader(): (r: bytes)
    ensures |r| == 32 && r[..4] == IVEC && r[4..20] == Zeros(16)
  {
    IVEC + Zeros(16) + Zeros(12)
  }

  predicate Clear(x: Context) {
    x.Unkeyed? || x == Keyed(Zeros(16))
  }

  predicate ClearHeld(e: State) {
    match e.source
    case Memory => e.held == Zeros(|e.held|) && (e.held == [] || |e.held| >= 32)
    case Header => |e.held| >= 32 && e.held[..32] == ClearHeader()
    case Stream(reg) => reg == Zeros(16) && |e.held| >= 32 && (e.held[..4] == SEQNO || e.held[..4] == RSYN)
  }

  ghost predicate Plain(e: State) {
    Valid(Identity(), e) && Clear(e.encCtx) && Clear(e.decCtx) && ClearHeld(e)
  }

  function ZeroDraw(x: bytes): (d: Draw)
    ensures ValidDraw(Identity(), x, d)
  {
    Draw(Zeros(16), Zeros(12), Zeros(15), Zeros(|x| + 32))
  }

  /** A packet of a plain sender. */
  ghost predicate Simple(p: Packet) {
    Plain(p.before) && p.payload != [] && p.draw == ZeroDraw(p.payload)
  }

  /** What it starts with. */
  function Start4(e: State): bytes
    requires e.source.Stream? ==> |e.held| >= 4
  {
    if e.enc.Init? then IVEC
    else if e.encCtx.Keyed? then (if e.enc.ReqInit? then RSYN else SEQNO)
    else
      match e.source
      case Memory => Zeros(4)
      case Header => IVEC
      case Stream(reg) => e.held[..4]
  }

  lemma ReqOrSequence(e: State)
    requires Plain(e) && !e.enc.Init?
    ensures e.enc.ReqInit? || e.enc.Sequence?
  {
  }

  lemma HeaderPacket(p: Packet)
    requires Simple(p) && p.before.enc.Init?
    ensures Genuine(Identity(), p) && Plain(After(Identity(), p))
    ensures Wire(Identity(), p)[..32] == ClearHeader()
  {
    hide Encrypt, Body;
    var c, e, d := Identity(), p.before, p.draw;
    var e2, tag := SendInBand(SendMsg(c, e, d).0).0, SendInBand(SendMsg(c, e, d).0).1;
    var pt := Body(c, tag, e2.seqNum, p.payload, d);
    HeaderInTheClear(ClearHeader());
    StreamInTheClear(pt);
    EncodeKeepsValid(c, e, p.payload, d);
    var wire := EncodePacket(c, e, p.payload, d).1;
    assert wire == ClearHeader() + pt;
    assert Overwritten(e.held, wire)[..32] == wire[..32] == ClearHeader();
  }

  lemma StreamPacket(p: Packet)
    requires Simple(p) && !p.before.enc.Init? && p.before.encCtx.Keyed?
    ensures Genuine(Identity(), p) && Plain(After(Identity(), p))
    ensures Wire(Identity(), p)[..4] == Start4(p.before)
  {
    hide Encrypt, Body;
    var c, e, d := Identity(), p.before, p.draw;
    ReqOrSequence(e);
    var (e2, tag) := SendInBand(e);
    var pt := Body(c, tag, e2.seqNum, p.payload, d);
    StreamInTheClear(pt);
    BodyStart(c, tag, e2.seqNum, p.payload, d);
    EncodeKeepsValid(c, e, p.payload, d);
    var wire := EncodePacket(c, e, p.payload, d).1;
    assert wire == [] + pt == pt;
    assert Overwritten(e.held, wire)[..4] == wire[..4];
  }

  lemma MutePacket(p: Packet)
    requires Simple(p) && Mute(p.before)
    ensures Genuine(Identity(), p) && Plain(After(Identity(), p)) && Mute(After(Identity(), p))
    ensures After(Identity(), p).source == p.before.source
    ensures |p.before.held| >= 32 ==> Wire(Identity(), p)[..32] == p.before.held[..32]
    ensures Wire(Identity(), p)[..4] == Start4(p.before)
  {
    var c, e, d := Identity(), p.before, p.draw;
    MuteKeeps(c, e, p.payload, d);
    EncodeKeepsValid(c, e, p.payload, d);
    MuteHeld(e, p.payload);
    hide EncodePacket;
    var wire, held := Wire(c, p), After(c, p).held;
    assert wire[..4] == wire[..32][..4] && (|e.held| >= 32 ==> e.held[..4] == e.held[..32][..4]);
    assert held[..4] == held[..32][..4];
  }

  lemma MuteHeld(e: State, x: bytes)
    requires Plain(e) && Mute(e) && x != []
    ensures var (e', wire) := EncodePacket(Identity(), e, x, ZeroDraw(x));
      && e'.encCtx == e.encCtx && e'.decCtx == e.decCtx
      && (e.source.Memory? ==> wire == Zeros(|wire|) && e'.held == Zeros(|e'.held|))
  {
    hide Body;
    var wire := EncodePacket(Identity(), e, x, ZeroDraw(x)).1;
    assert wire == [] + (e.held + Zeros(|x| + 32))[..|wire|] == (e.held + Zeros(|x| + 32))[..|wire|];
  }

  /** What a packet of a plain sender starts with, a whole header if it starts with "ivec"; and the sender stays plain. */
  lemma PacketStart(p: Packet)
    requires Simple(p)
    ensures Genuine(Identity(), p) && Plain(After(Identity(), p))
    ensures Wire(Identity(), p)[..4] == Start4(p.before)
    ensures Wire(Identity(), p)[..4] == IVEC ==> Wire(Identity(), p)[..32] == ClearHeader()
  {
    hide EncodePacket;
    TagsDiffer();
    var wire := EncodePacket(Identity(), p.before, p.payload, p.draw).1;
    if p.before.enc.Init? {
      HeaderPacket(p);
      assert wire[..4] == wire[..32][..4];
    } else if p.before.encCtx.Keyed? {
      StreamPacket(p);
    } else {
      MutePacket(p);
    }
  }

  lemma TagsDiffer()
    ensures IVEC != SEQNO && IVEC != RSYN && SEQNO != RSYN
    ensures Zeros(4) != IVEC && Zeros(4) != SEQNO && Zeros(4) != RSYN
  {
    assert IVEC[0] == 0x69 && SEQNO[0] == 0x73 && RSYN[0] == 0x72 && Zeros(4)[0] == 0;
  }

  /** What a plain receiver reads of a packet. */
  lemma ClearText(f: State, wire: bytes)
    requires Plain(f) && WellSized(Identity(), wire)
    ensures f.dec.Init? ==> EcbDecrypt(Identity(), wire[..32]) == wire[..32] && wire[..32][..4] == wire[..4]
    ensures f.dec.Sequence? ==> Decrypt(Identity(), OFB, f.decCtx.reg, wire) == (wire, Zeros(16))
    ensures Decrypt(Identity(), OFB, Zeros(16), wire[32..]) == (wire[32..], Zeros(16))
  {
    HeaderInTheClear(wire[..32]);
    StreamInTheClear(wire);
    StreamInTheClear(wire[32..]);
  }

  lemma ReceiveClear(f: State, o: Seen, t0: int, t1: int)
    requires Plain(f) && PossiblySeen(Identity(), o) && o.reg == Zeros(16)
    requires f.dec.Init? && o.head[..4] == IVEC ==> o.head == ClearHeader()
    ensures Plain(Receive(Identity(), f, o, t0, t1))
  {
    ReceiveTransitions(Identity(), f, o, t0, t1);
  }

  lemma SeenClear(f: State, wire: bytes)
    requires Plain(f) && WellSized(Identity(), wire) && (wire[..4] == IVEC ==> wire[..32] == ClearHeader())
    ensures var o := SeenIn(Identity(), f, wire);
      o.reg == Zeros(16) && (f.dec.Init? ==> o.head == wire[..32])
  {
    ClearText(f, wire);
    assert wire[0..] == wire && NoRegister(Identity()) == Zeros(16);
    hide Encrypt, Decrypt, EcbDecrypt, Gibberish;
  }

  /** A plain receiver sees through every packet that contains no header but the clear one, and stays plain. */
  lemma ClearDecode(f: State, wire: bytes, t0: int, t1: int)
    requires Plain(f) && WellSized(Identity(), wire) && (wire[..4] == IVEC ==> wire[..32] == ClearHeader())
    ensures Plain(DecodePacket(Identity(), f, wire, t0, t1).0)
    ensures f.dec.Init? && wire[..4] != IVEC ==> DecodePacket(Identity(), f, wire, t0, t1) == (Gibberish(f, t0, t1), [])
    ensures f.dec.Init? ==> EcbDecrypt(Identity(), wire[..32])[..4] == wire[..4]
    ensures f.dec.Sequence? ==> Decrypt(Identity(), OFB, f.decCtx.reg, wire).0[..4] == wire[..4]
  {
    ClearText(f, wire);
    SeenClear(f, wire);
    DecodeIsReceive(Identity(), f, wire, t0, t1);
    assert wire[..32][..4] == wire[..4];
    ReceiveClear(f, SeenIn(Identity(), f, wire), t0, t1);
    WaitingDecode(f, wire, t0, t1);
    hide *;
  }

  lemma WaitingDecode(f: State, wire: bytes, t0: int, t1: int)
    requires Plain(f) && WellSized(Identity(), wire)
    ensures f.dec.Init? && wire[..4] != IVEC ==> DecodePacket(Identity(), f, wire, t0, t1) == (Gibberish(f, t0, t1), [])
  {
    ClearText(f, wire);
    hide Encrypt, Decrypt, EcbDecrypt, Gibberish, Unpad;
  }

  /** Between plain ends nothing reads as a tag by chance. */
  lemma SimpleIsHonest(f: State, p: Packet)
    requires Simple(p) && Plain(f)
    ensures Genuine(Identity(), p) && NoFalseTag(Identity(), f, p)
  {
    hide EncodePacket, DecodePacket, Decrypt, EcbDecrypt, Encrypt;
    PacketStart(p);
    ClearDecode(f, Wire(Identity(), p), 0, 0);
    TagsDiffer();
  }

  /* ---------- runs ---------- */

  ghost predicate PlainWorld(w: World) {
    && Plain(w.a) && Plain(w.b)
    && (forall p :: p in w.ab ==> Simple(p))
    && (forall p :: p in w.ba ==> Simple(p))
    && (forall p :: p in w.sentA ==> Simple(p))
    && (forall p :: p in w.sentB ==> Simple(p))
  }

  predicate SimpleMove(m: Move) {
    m.step.Send? ==> m.step.payload != [] && m.step.draw == ZeroDraw(m.step.payload)
  }

  lemma PlainIsValid(w: World)
    requires PlainWorld(w)
    ensures ValidWorld(Identity(), w)
  {
  }

  lemma ForwardIsPlain(w: World, step: Step)
    requires PlainWorld(w) && SimpleMove(Move(true, step))
    ensures ValidWorld(Identity(), w) && PlainWorld(Forward(Identity(), w, step))
  {
    hide EncodePacket, DecodePacket, ClearHeld, Clear;
    PlainIsValid(w);
    match step {
      case Send(payload, draw) => PacketStart(Packet(w.a, payload, draw));
      case Deliver(t0, t1) =>
        if w.ab != [] {
          PacketStart(w.ab[0]);
          ClearDecode(w.b, Wire(Identity(), w.ab[0]), t0, t1);
        }
      case Lose(i) =>
    }
  }

  /** Every move keeps a plain world plain, and satisfies the assumption about chance. */
  lemma MoveIsPlain(w: World, m: Move)
    requires PlainWorld(w) && SimpleMove(m)
    ensures ValidWorld(Identity(), w) && PlainWorld(Apply(Identity(), w, m))
    ensures NoFalseTags(Identity(), Delivered(Identity(), w, m))
  {
    hide Forward, Plain;
    PlainIsValid(w);
    var v := if m.fromA then w else Swap(w);
    ForwardIsPlain(v, m.step);
    if m.step.Deliver? && v.ab != [] {
      SimpleIsHonest(v.b, v.ab[0]);
    }
  }

  lemma {:induction false} RunIsPlain(w: World, moves: seq<Move>)
    requires PlainWorld(w) && forall m :: m in moves ==> SimpleMove(m)
    ensures ValidWorld(Identity(), w) && (forall m :: m in moves ==> Sensible(Identity(), m.step))
    ensures PlainWorld(Run(Identity(), w, moves)) && NoFalseTags(Identity(), Deliveries(Identity(), w, moves))
    decreases |moves|
  {
    hide Apply, Delivered, Deliveries, Run, NoFalseTags, Plain;
    PlainIsValid(w);
    if moves == [] {
      NoMoves(w);
    } else {
      MoveIsPlain(w, moves[0]);
      var w' := Apply(Identity(), w, moves[0]);
      RunIsPlain(w', moves[1..]);
      FirstDeliveries(Identity(), w, moves);
      SplitAssumptions(Identity(), Delivered(Identity(), w, moves[0]), Deliveries(Identity(), w', moves[1..]));
    }
  }

  lemma NoMoves(w: World)
    requires ValidWorld(Identity(), w)
    ensures Run(Identity(), w, []) == w && Deliveries(Identity(), w, []) == []
    ensures NoFalseTags(Identity(), Deliveries(Identity(), w, []))
  {
  }
}
