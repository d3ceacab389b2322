/** What enc_buf holds, which is what goes out under a cleaned-up context: when a receiver takes it for a header or
    reads the control block in it. */
module EncBuf {
  import opened Bytes
  import opened BlockCipher
  import opened PacketCodec
  import opened PacketLaws
  import opened Duplex
  import opened Lossy

  /** The first two blocks of enc_buf read "ivec". */
  predicate HoldsHeader(c: Cipher, e: State)
    requires c.Valid()
  {
    |e.held| >= 2 * c.bs && EcbDecrypt(c, e.held[..2 * c.bs])[..4] == IVEC
  }

  /** The first block of enc_buf is a control block under register reg. */
  predicate HoldsControl(c: Cipher, e: State, reg: bytes)
    requires c.Valid() && |reg| == c.bs
  {
    |e.held| >= 2 * c.bs &&
    var tag := Decrypt(c, c.mode, reg, e.held[..c.bs]).0[..4];
    tag == SEQNO || tag == RSYN
  }

  /** `source` tells the truth about `held`. */
  predicate Remembers(c: Cipher, e: State)
    requires c.Valid()
  {
    c.mode.ECB? ||
    match e.source
    case Memory => e.held == [] || |e.held| >= 2 * c.bs
    case Header => HoldsHeader(c, e)
    case Stream(reg) => |reg| == c.bs && HoldsControl(c, e, reg)
  }

  /* ---------- the first block of a stream ---------- */

  lemma DecryptFirst(c: Cipher, mode: Mode, reg: bytes, ct: bytes)
    requires c.Valid() && |reg| == c.bs && Whole(c, ct) && ct != []
    ensures Decrypt(c, mode, reg, ct).0[..c.bs] == DecryptBlock(c, mode, reg, ct[..c.bs]).0
    ensures Decrypt(c, mode, reg, ct[..c.bs]).0 == DecryptBlock(c, mode, reg, ct[..c.bs]).0
  {
    var b := ct[..c.bs];
    assert b[..c.bs] == b && b[c.bs..] == [];
  }

  lemma {:induction false} XorBitsSwap(a: nat, b: nat, n: nat)
    ensures XorBits(a, b, n) == XorBits(b, a, n)
  {
    if n > 0 {
      XorBitsSwap(a / 2, b / 2, n - 1);
    }
  }

  lemma XorCancel(a: bytes, r1: bytes, r2: bytes)
    requires |a| == |r1| == |r2| && Xor(a, r1) == Xor(a, r2)
    ensures r1 == r2
  {
    forall i | 0 <= i < |a| ensures r1[i] == r2[i] {
      assert Xor(a, r1)[i] == Xor(a, r2)[i];
      XorBitsSwap(a[i], r1[i], 8);
      XorBitsSwap(a[i], r2[i], 8);
      XorByteTwice(r1[i], a[i]);
      XorByteTwice(r2[i], a[i]);
    }
  }

  /** In a chaining mode a block reads the same under two registers only if they are equal. */
  lemma SameBlock(c: Cipher, mode: Mode, r1: bytes, r2: bytes, b: bytes)
    requires c.Valid() && !mode.ECB? && |r1| == |r2| == |b| == c.bs
    ensures DecryptBlock(c, mode, r1, b).0 == DecryptBlock(c, mode, r2, b).0 <==> r1 == r2
  {
    if DecryptBlock(c, mode, r1, b).0 == DecryptBlock(c, mode, r2, b).0 {
      hide Xor;
      match mode {
        case CBC => XorCancel(c.D(b), r1, r2);
        case CFB => XorCancel(b, c.E(r1), c.E(r2)); assert c.D(c.E(r1)) == c.D(c.E(r2));
        case OFB => XorCancel(b, c.E(r1), c.E(r2)); assert c.D(c.E(r1)) == c.D(c.E(r2));
      }
    }
  }

  lemma BodyStart(c: Cipher, tag: bytes, n: nat, payload: bytes, d: Draw)
    requires c.Valid() && !c.mode.ECB? && |d.pad| == c.bs - 1 && |tag| == 4
    ensures |Body(c, tag, n, payload, d)| >= 2 * c.bs && Body(c, tag, n, payload, d)[..4] == tag
  {
    var control := ControlBlock(c, tag, n);
    assert (control + (Carried(c, payload) + Padding(c, |payload|, d)))[..4] == control[..4];
  }

  /* ---------- the source is remembered ---------- */

  lemma HeaderRemembered(c: Cipher, e: State, payload: bytes, d: Draw)
    requires Valid(c, e) && ValidDraw(c, payload, d) && e.enc.Init?
    ensures Remembers(c, EncodePacket(c, e, payload, d).0)
  {
    hide Encrypt, Decrypt, Body, EncryptUpdate;
    var ht := IVEC + d.iv + d.tail;
    RoundTrip(c, ECB, NoRegister(c), ht);
    var (e', wire) := EncodePacket(c, e, payload, d);
    assert wire[..2 * c.bs] == EcbEncrypt(c, ht) == e'.held[..2 * c.bs];
    assert ht[..4] == IVEC;
  }

  lemma StreamRemembered(c: Cipher, e: State, payload: bytes, d: Draw)
    requires Valid(c, e) && ValidDraw(c, payload, d) && !c.mode.ECB? && !e.enc.Init? && e.encCtx.Keyed?
    ensures Remembers(c, EncodePacket(c, e, payload, d).0)
  {
    hide Encrypt, Decrypt, Body;
    var (e2, tag) := SendInBand(e);
    var pt := Body(c, tag, e2.seqNum, payload, d);
    var (e', wire) := EncodePacket(c, e, payload, d);
    RoundTrip(c, c.mode, e.encCtx.reg, pt);
    BodyStart(c, tag, e2.seqNum, payload, d);
    assert wire == [] + Encrypt(c, c.mode, e.encCtx.reg, pt).0 == Encrypt(c, c.mode, e.encCtx.reg, pt).0;
    DecryptFirst(c, c.mode, e.encCtx.reg, wire);
    assert e'.held[..c.bs] == wire[..c.bs];
    assert pt[..c.bs][..4] == pt[..4];
  }

  lemma MuteKeeps(c: Cipher, e: State, payload: bytes, d: Draw)
    requires Valid(c, e) && ValidDraw(c, payload, d) && !c.mode.ECB? && Mute(e)
    ensures var (e', wire) := EncodePacket(c, e, payload, d);
      && |wire| >= 2 * c.bs && wire == (e.held + d.stale)[..|wire|]
      && e'.source == e.source && |e'.held| >= 2 * c.bs
      && (|e.held| >= 2 * c.bs ==> e'.held[..2 * c.bs] == e.held[..2 * c.bs] == wire[..2 * c.bs])
  {
    hide Body;
    var (e', wire) := EncodePacket(c, e, payload, d);
    assert wire == [] + (e.held + d.stale)[..|wire|] == (e.held + d.stale)[..|wire|];
  }

  lemma EncodeRemembers(c: Cipher, e: State, payload: bytes, d: Draw)
    requires Valid(c, e) && ValidDraw(c, payload, d) && Remembers(c, e)
    ensures Remembers(c, EncodePacket(c, e, payload, d).0)
  {
    hide EncodePacket, Decrypt, EcbDecrypt;
    if c.mode.ECB? {
    } else if e.enc.Init? {
      HeaderRemembered(c, e, payload, d);
    } else if e.encCtx.Keyed? {
      StreamRemembered(c, e, payload, d);
    } else {
      MuteKeeps(c, e, payload, d);
      var e' := EncodePacket(c, e, payload, d).0;
      assert e'.held[..c.bs] == e'.held[..2 * c.bs][..c.bs];
      assert |e.held| >= 2 * c.bs ==> e.held[..c.bs] == e.held[..2 * c.bs][..c.bs];
    }
  }

  /** Decoding does not touch enc_buf. */
  lemma DecodeKeepsHeld(c: Cipher, f: State, wire: bytes, t0: int, t1: int)
    requires Valid(c, f) && WellSized(c, wire)
    ensures var f' := DecodePacket(c, f, wire, t0, t1).0; f'.held == f.held && f'.source == f.source
  {
    hide Decrypt, EcbDecrypt, Unpad;
  }

  ghost predicate AllRemember(c: Cipher, w: World) {
    && ValidWorld(c, w) && Remembers(c, w.a) && Remembers(c, w.b)
    && (forall p :: p in w.ab ==> Remembers(c, p.before))
    && (forall p :: p in w.ba ==> Remembers(c, p.before))
  }

  lemma ForwardRemembers(c: Cipher, w: World, step: Step)
    requires AllRemember(c, w) && Sensible(c, step)
    ensures AllRemember(c, Forward(c, w, step))
  {
    hide EncodePacket, DecodePacket, HoldsHeader, HoldsControl;
    match step {
      case Send(payload, draw) => EncodeRemembers(c, w.a, payload, draw);
      case Deliver(t0, t1) =>
        if w.ab != [] {
          DecodeKeepsHeld(c, w.b, Wire(c, w.ab[0]), t0, t1);
          hide Valid;
          StillRemembers(c, w.b, Forward(c, w, step).b);
        }
      case Lose(i) =>
    }
  }

  lemma StillRemembers(c: Cipher, f: State, f': State)
    requires c.Valid() && Remembers(c, f) && f'.held == f.held && f'.source == f.source
    ensures Remembers(c, f')
  {
  }

  lemma MoveRemembers(c: Cipher, w: World, m: Move)
    requires AllRemember(c, w) && Sensible(c, m.step)
    ensures AllRemember(c, Apply(c, w, m))
    ensures forall x :: x in Delivered(c, w, m) ==> Remembers(c, x.packet.before)
  {
    hide Forward, Remembers;
    ForwardRemembers(c, if m.fromA then w else Swap(w), m.step);
  }

  /** In every run every sender remembers. */
  lemma {:induction false} RunRemembers(c: Cipher, w: World, moves: seq<Move>)
    requires AllRemember(c, w) && forall m :: m in moves ==> Sensible(c, m.step)
    ensures AllRemember(c, Run(c, w, moves))
    ensures forall x :: x in Deliveries(c, w, moves) ==> Remembers(c, x.packet.before)
    decreases |moves|
  {
    if moves != [] {
      hide Apply, Remembers, Run, Deliveries, Delivered;
      FirstDeliveries(c, w, moves);
      MoveRemembers(c, w, moves[0]);
      RunRemembers(c, Apply(c, w, moves[0]), moves[1..]);
    }
  }

  /* ---------- when a receiver takes what is held ---------- */

  /** A waiting receiver takes the packet for one with a header exactly if the first two blocks of the sender's
      enc_buf read "ivec". */
  lemma WaitingTakes(c: Cipher, f: State, p: Packet, t0: int, t1: int)
    requires Valid(c, f) && Genuine(c, p) && !c.mode.ECB? && f.dec.Init?
    requires Mute(p.before) && |p.before.held| >= 2 * c.bs
    ensures RecvMsg(c, f, Wire(c, p), t0, t1).0.dec.Sequence? <==> HoldsHeader(c, p.before)
  {
    MuteKeeps(c, p.before, p.payload, p.draw);
    hide EncodePacket, EcbDecrypt;
  }

  /** A receiver in SEQUENCE reads the control block that is held, and so a tag, exactly if its register is the one
      the packet that is held was encrypted from. */
  lemma StreamIsRead(c: Cipher, f: State, p: Packet)
    requires Valid(c, f) && Genuine(c, p) && !c.mode.ECB? && f.dec.Sequence?
    requires Mute(p.before) && p.before.source.Stream? && Remembers(c, p.before)
    ensures var (read, sent) := (Decrypt(c, c.mode, f.decCtx.reg, Wire(c, p)).0[..c.bs],
                                 Decrypt(c, c.mode, p.before.source.reg, p.before.held[..c.bs]).0);
      read == sent <==> f.decCtx == Keyed(p.before.source.reg)
    ensures f.decCtx == Keyed(p.before.source.reg) ==> !Untagged(c, f, p)
  {
    var wire, held, r0 := Wire(c, p), p.before.held, p.before.source.reg;
    MuteKeeps(c, p.before, p.payload, p.draw);
    hide EncodePacket, Decrypt, DecryptBlock;
    assert wire[..c.bs] == wire[..2 * c.bs][..c.bs] == held[..2 * c.bs][..c.bs] == held[..c.bs];
    DecryptFirst(c, c.mode, f.decCtx.reg, wire);
    DecryptFirst(c, c.mode, r0, held[..2 * c.bs]);
    SameBlock(c, c.mode, f.decCtx.reg, r0, wire[..c.bs]);
    var pt := Decrypt(c, c.mode, f.decCtx.reg, wire).0;
    assert pt[..c.bs][..4] == pt[..4];
  }

  /** So a replay is always taken, and the assumptions of the lossy channel say no more than that a packet out of
      step does not read as a header or a tag. */
  lemma UntaggedExactly(c: Cipher, f: State, p: Packet)
    requires Valid(c, f) && Genuine(c, p) && !c.mode.ECB? && Remembers(c, p.before) && !InStep(c, p.before, f)
    ensures Untagged(c, f, p) <==> NoFalseTag(c, f, p) && !Replays(p.before, f)
  {
    if Replays(p.before, f) {
      if f.dec.Init? {
        WaitingTakes(c, f, p, 0, 0);
      } else {
        StreamIsRead(c, f, p);
      }
    }
  }

  /** And a packet with the bytes of an earlier one, at a receiver that was in step with that, hands over what the
      earlier one carried. */
  lemma ReplayDelivers(c: Cipher, f: State, p: Packet, first: Packet, t0: int, t1: int)
    requires Valid(c, f) && Genuine(c, p) && Genuine(c, first)
    requires Wire(c, p) == Wire(c, first) && InStep(c, first.before, f)
    ensures DecodePacket(c, f, Wire(c, p), t0, t1)
      == (Understood(f, first.before.enc, After(c, first).encCtx), Carried(c, first.payload))
  {
    hide EncodePacket, DecodePacket;
    ReadInStep(c, first.before, f, first.payload, first.draw, t0, t1);
  }
}
