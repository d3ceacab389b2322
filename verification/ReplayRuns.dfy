/** Runs in which enc_buf is sent again under a cleaned-up context: a packet that is delivered twice, and two ends
    that never recover although nothing is lost any more.  No packet reads as a tag by chance in them. */
module ReplayRuns {
  import opened Bytes
  import opened BlockCipher
  import opened PacketCodec
  import opened PacketLaws
  import opened Duplex
  import opened Lossy
  import opened EncBuf
  import opened Recovery
  import opened InTheClear
  import opened Clockwork

  /* ---------- runs in pieces ---------- */

  ghost predicate Leads(w: World, moves: seq<Move>, w': World) {
    && PlainWorld(w) && PlainWorld(w') && ValidWorld(Identity(), w)
    && (forall m :: m in moves ==> SimpleMove(m) && Sensible(Identity(), m.step))
    && Run(Identity(), w, moves) == w'
  }

  lemma LeadsOne(w: World, m: Move)
    requires PlainWorld(w) && SimpleMove(m)
    ensures ValidWorld(Identity(), w) && Sensible(Identity(), m.step)
    ensures Leads(w, [m], Apply(Identity(), w, m))
  {
    hide Plain, Apply;
    MoveIsPlain(w, m);
    RunIsPlain(w, [m]);
    assert [m][1..] == [];
  }

  lemma {:induction false} LeadsOn(w: World, moves: seq<Move>, w1: World, more: seq<Move>, w2: World)
    requires Leads(w, moves, w1) && Leads(w1, more, w2)
    ensures Leads(w, moves + more, w2)
    decreases |moves|
  {
    hide PlainWorld, Apply, Sensible, SimpleMove;
    if moves == [] {
      assert moves + more == more;
    } else {
      var rest := moves[1..];
      assert (moves + more)[1..] == rest + more;
      FirstLeads(w, moves, w1);
      LeadsOn(Apply(Identity(), w, moves[0]), rest, w1, more, w2);
    }
  }

  lemma FirstLeads(w: World, moves: seq<Move>, w': World)
    requires Leads(w, moves, w') && moves != []
    ensures Leads(Apply(Identity(), w, moves[0]), moves[1..], w')
  {
    hide Plain, Apply;
    MoveIsPlain(w, moves[0]);
    PlainIsValid(Apply(Identity(), w, moves[0]));
  }

  function Mirrored(moves: seq<Move>): (r: seq<Move>)
    ensures |r| == |moves|
  {
    seq(|moves|, i requires 0 <= i < |moves| => MirrorMove(moves[i]))
  }

  function MirrorMove(m: Move): Move {
    Move(!m.fromA, m.step)
  }

  lemma MirrorApply(w: World, m: Move)
    requires PlainWorld(w) && SimpleMove(m)
    ensures ValidWorld(Identity(), w) && ValidWorld(Identity(), Swap(w)) && Sensible(Identity(), m.step)
    ensures PlainWorld(Swap(w)) && SimpleMove(MirrorMove(m))
    ensures Apply(Identity(), Swap(w), MirrorMove(m)) == Swap(Apply(Identity(), w, m))
  {
    hide Forward, Plain;
    PlainIsValid(w);
    SwapIsPlain(w);
    PlainIsValid(Swap(w));
    assert Swap(Swap(w)) == w;
  }

  /** A run with the ends exchanged. */
  lemma {:induction false} MirrorLeads(w: World, moves: seq<Move>, w': World)
    requires Leads(w, moves, w')
    ensures Leads(Swap(w), Mirrored(moves), Swap(w'))
    decreases |moves|
  {
    hide *;
    if moves == [] {
      MirrorNothing(w, w');
    } else {
      var m, v := moves[0], Swap(w);
      FirstLeads(w, moves, w');
      FirstIsSimple(w, moves, w');
      MirrorApply(w, m);
      LeadsOne(v, MirrorMove(m));
      MirrorLeads(Apply(Identity(), w, m), moves[1..], w');
      LeadsOn(v, [MirrorMove(m)], Apply(Identity(), v, MirrorMove(m)), Mirrored(moves[1..]), Swap(w'));
      MirroredParts(moves);
    }
  }

  lemma MirrorNothing(w: World, w': World)
    requires Leads(w, [], w')
    ensures Leads(Swap(w), Mirrored([]), Swap(w'))
  {
    hide Plain;
    SwapIsPlain(w);
    PlainIsValid(Swap(w));
  }

  lemma FirstIsSimple(w: World, moves: seq<Move>, w': World)
    requires Leads(w, moves, w') && moves != []
    ensures PlainWorld(w) && SimpleMove(moves[0])
  {
    hide Plain, Run;
  }

  lemma MirroredParts(moves: seq<Move>)
    requires moves != []
    ensures [MirrorMove(moves[0])] + Mirrored(moves[1..]) == Mirrored(moves)
  {
  }

  /* ---------- single moves ---------- */

  function SendMove(x: bytes): Move {
    Move(true, Send(x, ZeroDraw(x)))
  }

  lemma AfterSend(w: World, x: bytes)
    requires PlainWorld(w) && x != []
    ensures var p := Packet(w.a, x, ZeroDraw(x));
      && Simple(p) && Genuine(Identity(), p)
      && Leads(w, [SendMove(x)], w.(a := After(Identity(), p), ab := w.ab + [p], sentA := w.sentA + [p]))
      && After(Identity(), p).enc.Sequence? && After(Identity(), p).dec == w.a.dec
      && After(Identity(), p).gibberish == w.a.gibberish
      && (w.a.enc.Init? || w.a.encCtx.Keyed? ==> After(Identity(), p).encCtx.Keyed?)
      && After(Identity(), p).source == SourceAfter(w.a)
  {
    hide EncodePacket;
    var p := Packet(w.a, x, ZeroDraw(x));
    PlainIsValid(w);
    PacketStart(p);
    EncodeKeepsValid(Identity(), w.a, x, ZeroDraw(x));
    if w.a.enc.Init? || w.a.encCtx.Keyed? {
      SenderIsKeyed(Identity(), p);
    }
    SourceOfPacket(p);
    LeadsOne(w, SendMove(x));
  }

  lemma SourceOfPacket(p: Packet)
    requires Genuine(Identity(), p)
    ensures After(Identity(), p).source == SourceAfter(p.before)
  {
    hide Body, EncryptUpdate;
  }

  lemma AfterLoss(w: World, i: nat)
    requires PlainWorld(w) && i < |w.ab|
    ensures Leads(w, [Move(true, Lose(i))], w.(ab := w.ab[..i] + w.ab[i + 1..]))
  {
    hide Plain;
    PlainIsValid(w);
    LeadsOne(w, Move(true, Lose(i)));
  }

  /** A packet with no header. */
  predicate Streamed(p: Packet) {
    p.before.encCtx.Keyed? && !p.before.enc.Init?
  }

  /** A waiting end counts such a packet as gibberish. */
  lemma AfterGibberish(w: World, t: int)
    requires PlainWorld(w) && w.a.dec.Init? && w.ba != [] && Streamed(w.ba[0])
    ensures Leads(w, [Move(false, Deliver(t, t))], w.(a := Gibberish(w.a, t, t), ba := w.ba[1..]))
  {
    hide EncodePacket, DecodePacket, Gibberish;
    PlainIsValid(w);
    var p := w.ba[0];
    PacketStart(p);
    TagsDiffer();
    NotAHeader(p);
    ClearDecode(w.a, Wire(Identity(), p), t, t);
    assert w.gotA + [] == w.gotA;
    LeadsOne(w, Move(false, Deliver(t, t)));
  }

  lemma NotAHeader(p: Packet)
    requires Simple(p) && Streamed(p)
    ensures Start4(p.before) != IVEC
  {
    TagsDiffer();
  }

  /* ---------- five packets under way ---------- */

  /** a's first packet, with the header, is lost; n more are under way. */
  lemma {:induction false} Fill(w: World, n: nat) returns (moves: seq<Move>, w': World)
    requires PlainWorld(w) && w.ab == [] && w.a.enc.Init?
    ensures Leads(w, moves, w')
    ensures w' == w.(a := w'.a, ab := w'.ab, sentA := w'.sentA)
    ensures |w'.ab| == n && forall p :: p in w'.ab ==> Streamed(p)
    ensures w'.a.enc.Sequence? && w'.a.encCtx.Keyed? && w'.a.dec == w.a.dec && w'.a.gibberish == w.a.gibberish
    decreases n
  {
    hide PlainWorld, After, SourceAfter, Leads;
    if n == 0 {
      var p := Packet(w.a, [1], ZeroDraw([1]));
      AfterSend(w, [1]);
      var w1 := w.(a := After(Identity(), p), ab := w.ab + [p], sentA := w.sentA + [p]);
      LeadsIsPlain(w, [SendMove([1])], w1);
      AfterLoss(w1, 0);
      w' := w1.(ab := w1.ab[..0] + w1.ab[1..]);
      moves := [SendMove([1])] + [Move(true, Lose(0))];
      LeadsOn(w, [SendMove([1])], w1, [Move(true, Lose(0))], w');
    } else {
      var most, w1 := Fill(w, n - 1);
      LeadsIsPlain(w, most, w1);
      var p := Packet(w1.a, [1], ZeroDraw([1]));
      AfterSend(w1, [1]);
      w' := w1.(a := After(Identity(), p), ab := w1.ab + [p], sentA := w1.sentA + [p]);
      moves := most + [SendMove([1])];
      LeadsOn(w, most, w1, [SendMove([1])], w');
    }
  }

  lemma LeadsIsSimple(w: World, moves: seq<Move>, w': World)
    requires Leads(w, moves, w')
    ensures ValidWorld(Identity(), w) && forall m :: m in moves ==> Sensible(Identity(), m.step)
    ensures NoFalseTags(Identity(), Deliveries(Identity(), w, moves))
  {
    hide PlainWorld, Run, Sensible, Deliveries, NoFalseTags;
    RunIsPlain(w, moves);
  }

  lemma LeadsRuns(w: World, moves: seq<Move>, w': World)
    requires Leads(w, moves, w')
    ensures ValidWorld(Identity(), w) && (forall m :: m in moves ==> Sensible(Identity(), m.step))
    ensures Run(Identity(), w, moves) == w'
  {
  }

  lemma LeadsIsPlain(w: World, moves: seq<Move>, w': World)
    requires Leads(w, moves, w')
    ensures PlainWorld(w')
  {
  }

  /* ---------- an end that has nothing to send but an old header ---------- */

  ghost predicate Stuck(e: State) {
    Plain(e) && Mute(e) && e.source.Header?
  }

  /** Two packets of gibberish, a new header that is lost, and three more packets of gibberish. */
  lemma BecomesStuck(w: World) returns (moves: seq<Move>, w': World)
    requires PlainWorld(w) && w.a.dec.Init? && w.a.gibberish == 0 && |w.ba| == 5 && forall p :: p in w.ba ==> Streamed(p)
    ensures Leads(w, moves, w')
    ensures w' == w.(a := w'.a, ba := [], sentA := w'.sentA)
    ensures w'.a.enc.ReqInit? && w'.a.encCtx.Unkeyed? && w'.a.dec.Init? && w'.a.source.Header?
  {
    hide PlainWorld, After, Leads;
    var read := (t: int) => [Move(false, Deliver(t, t))];
    AfterGibberish(w, 0);
    var w1 := w.(a := Gibberish(w.a, 0, 0), ba := w.ba[1..]);
    LeadsIsPlain(w, read(0), w1);
    AfterGibberish(w1, 2);
    var w2 := w1.(a := Gibberish(w1.a, 2, 2), ba := w1.ba[1..]);
    LeadsIsPlain(w1, read(2), w2);
    assert w2.a.enc.Init? && w2.a.gibberish == 0 && w2.a.dec.Init?;
    var p := Packet(w2.a, [1], ZeroDraw([1]));
    AfterSend(w2, [1]);
    var w3 := w2.(a := After(Identity(), p), ab := w2.ab + [p], sentA := w2.sentA + [p]);
    LeadsIsPlain(w2, [SendMove([1])], w3);
    AfterLoss(w3, |w.ab|);
    var lose := [Move(true, Lose(|w.ab|))];
    var w4 := w3.(ab := w3.ab[..|w.ab|] + w3.ab[|w.ab| + 1..]);
    assert w4.ab == w.ab;
    LeadsIsPlain(w3, lose, w4);
    AfterGibberish(w4, 4);
    var w5 := w4.(a := Gibberish(w4.a, 4, 4), ba := w4.ba[1..]);
    LeadsIsPlain(w4, read(4), w5);
    AfterGibberish(w5, 6);
    var w6 := w5.(a := Gibberish(w5.a, 6, 6), ba := w5.ba[1..]);
    LeadsIsPlain(w5, read(6), w6);
    AfterGibberish(w6, 6);
    w' := w6.(a := Gibberish(w6.a, 6, 6), ba := w6.ba[1..]);
    hide Gibberish, Streamed;
    LeadsOn(w, read(0), w1, read(2), w2);
    LeadsOn(w, read(0) + read(2), w2, [SendMove([1])], w3);
    LeadsOn(w, read(0) + read(2) + [SendMove([1])], w3, lose, w4);
    var head := read(0) + read(2) + [SendMove([1])] + lose;
    LeadsOn(w, head, w4, read(4), w5);
    LeadsOn(w, head + read(4), w5, read(6), w6);
    LeadsOn(w, head + read(4) + read(6), w6, read(6), w');
    moves := head + read(4) + read(6) + read(6);
  }

  /** Both ends come to that, and nothing is under way. */
  lemma BothStuck() returns (moves: seq<Move>, w: World)
    ensures Leads(Start(Identity(), 0, 0), moves, w)
    ensures w.ab == [] && w.ba == [] && Stuck(w.a) && Stuck(w.b)
    ensures w.a.enc.ReqInit? && w.b.enc.ReqInit? && w.a.dec.Init? && w.b.dec.Init?
  {
    hide PlainWorld, Leads;
    var w0 := Start(Identity(), 0, 0);
    StartIsPlain();
    var m1, w1 := Fill(w0, 5);
    LeadsIsPlain(w0, m1, w1);
    SwapIsPlain(w1);
    var m2, v2 := Fill(Swap(w1), 5);
    MirrorLeads(Swap(w1), m2, v2);
    var w2 := Swap(v2);
    assert Swap(Swap(w1)) == w1;
    LeadsIsPlain(w1, Mirrored(m2), w2);
    var m3, w3 := BecomesStuck(w2);
    LeadsIsPlain(w2, m3, w3);
    SwapIsPlain(w3);
    var m4, v4 := BecomesStuck(Swap(w3));
    MirrorLeads(Swap(w3), m4, v4);
    w := Swap(v4);
    assert Swap(Swap(w3)) == w3;
    LeadsIsPlain(w3, Mirrored(m4), w);
    LeadsOn(w0, m1, w1, Mirrored(m2), w2);
    LeadsOn(w0, m1 + Mirrored(m2), w2, m3, w3);
    LeadsOn(w0, m1 + Mirrored(m2) + m3, w3, Mirrored(m4), w);
    moves := m1 + Mirrored(m2) + m3 + Mirrored(m4);
    EndsArePlain(w);
  }

  lemma StartIsPlain()
    ensures var w := Start(Identity(), 0, 0);
      PlainWorld(w) && w.a.enc.Init? && w.b.enc.Init? && w.a.dec.Init? && w.b.dec.Init?
      && w.a.gibberish == 0 && w.b.gibberish == 0
  {
  }

  lemma SwapIsPlain(w: World)
    requires PlainWorld(w)
    ensures PlainWorld(Swap(w))
  {
  }

  lemma EndsArePlain(w: World)
    requires PlainWorld(w)
    ensures Plain(w.a) && Plain(w.b)
  {
  }

  /* ---------- the livelock ---------- */

  /** A ping between stuck ends leaves them stuck: a waiting end takes the old header and any other is thrown out of
      step by it, but nobody counts gibberish and nobody is asked for anything. */
  lemma PassKeepsStuck(a: State, b: State, t0: int, t1: int)
    requires Stuck(a) && Stuck(b)
    ensures Honest(Identity(), a, b, Ping(t0, t1))
    ensures var (a', b') := Pass(Identity(), a, b, Ping(t0, t1)); Stuck(a') && Stuck(b')
  {
    hide EncodePacket, DecodePacket, NoFalseTag, ClearHeld;
    var p := Packet(a, [1], ZeroDraw([1]));
    PingIsHonest(a, b, t0, t1);
    PacketStart(p);
    MutePacket(p);
    HeaderOnly(p);
    OldHeader(b, Wire(Identity(), p), t0, t1);
    DecodeKeepsHeld(Identity(), b, Wire(Identity(), p), t0, t1);
  }

  /** One byte and its padding are no longer than a header. */
  lemma HeaderOnly(p: Packet)
    requires Simple(p) && Mute(p.before) && p.before.source.Header? && p.payload == [1]
    ensures Genuine(Identity(), p) && Wire(Identity(), p) == ClearHeader()
  {
    MutePacket(p);
    MuteLength(p);
    hide EncodePacket;
    assert Wire(Identity(), p)[..32] == Wire(Identity(), p);
  }

  lemma MuteLength(p: Packet)
    requires Genuine(Identity(), p) && Mute(p.before)
    ensures |Wire(Identity(), p)| == 16 + |p.payload| + PadLength(Identity(), |p.payload|)
  {
    hide PadLength;
    BodyLength(p.before.enc.ReqInit?, p.before.seqNum, p.payload, p.draw);
  }

  lemma BodyLength(request: bool, n: nat, x: bytes, d: Draw)
    requires |d.pad| == 15
    ensures |Body(Identity(), if request then RSYN else SEQNO, n, x, d)| == 16 + |x| + PadLength(Identity(), |x|)
  {
  }

  /** What an old header does to a receiver. */
  lemma OldHeader(f: State, wire: bytes, t0: int, t1: int)
    requires Plain(f) && Mute(f) && wire == ClearHeader()
    ensures Mute(DecodePacket(Identity(), f, wire, t0, t1).0)
  {
    ClearText(f, wire);
    TagsDiffer();
    assert wire[..32] == wire && wire[0..] == wire;
    hide Encrypt, Decrypt, EcbDecrypt, Unpad, Gibberish;
  }

  lemma {:induction false} StuckForever(a: State, b: State, n: nat, t: int)
    requires Stuck(a) && Stuck(b)
    ensures Valid(Identity(), a) && Valid(Identity(), b) && HonestRun(Identity(), a, b, PingPongs(n, t, 0))
    ensures var (a', b') := SwappedAll(Identity(), a, b, PingPongs(n, t, 0)); Stuck(a') && Stuck(b')
    decreases n
  {
    hide Pass, Honest, Stuck, HonestRun, SwappedAll;
    StuckIsPlain(a);
    StuckIsPlain(b);
    if n == 0 {
      NoExchange(Identity(), a, b);
    } else {
      var xs := PingPongs(n, t, 0);
      PassKeepsStuck(a, b, t, t);
      var (a1, b1) := Pass(Identity(), a, b, Ping(t, t));
      PassKeepsStuck(b1, a1, t, t);
      FirstExchange(Identity(), a, b, xs);
      var (a', b') := Swapped(Identity(), a, b, xs[0]);
      StuckForever(a', b', n - 1, t);
      PingPongsAreHonest(a, b, n, t, 0);
    }
  }

  lemma StuckIsPlain(e: State)
    requires Stuck(e)
    ensures Plain(e) && Valid(Identity(), e) && Mute(e)
  {
  }

  /** A cleaned-up context is in step with nobody. */
  lemma StuckIsNotRecovered(a: State, b: State)
    requires Stuck(a) && Stuck(b)
    ensures !Recovered(Identity(), a, b)
  {
  }

  lemma StuckIsNotClean(a: State, b: State)
    requires Stuck(a)
    ensures !Clean(a, b)
  {
  }

  /** From the start there is a run after which, though nothing is lost any more, every call is brief and the ends
      send in turn, they have not recovered after any number of exchanges. */
  lemma Livelock() returns (moves: seq<Move>, w: World)
    ensures Leads(Start(Identity(), 0, 0), moves, w) && w.ab == [] && w.ba == []
    ensures NoFalseTags(Identity(), Deliveries(Identity(), Start(Identity(), 0, 0), moves))
    ensures ValidWorld(Identity(), w) && !Clean(w.a, w.b)
    ensures forall n: nat, t: int {:trigger PingPongs(n, t, 0)} ::
      HonestRun(Identity(), w.a, w.b, PingPongs(n, t, 0)) &&
      var (a', b') := SwappedAll(Identity(), w.a, w.b, PingPongs(n, t, 0)); !Recovered(Identity(), a', b')
  {
    hide PlainWorld, Stuck, HonestRun, SwappedAll, Recovered, Deliveries, NoFalseTags;
    moves, w := BothStuck();
    LeadsIsSimple(Start(Identity(), 0, 0), moves, w);
    LeadsIsPlain(Start(Identity(), 0, 0), moves, w);
    PlainIsValid(w);
    StuckIsNotClean(w.a, w.b);
    forall n: nat, t: int
      ensures HonestRun(Identity(), w.a, w.b, PingPongs(n, t, 0))
      ensures var (a', b') := SwappedAll(Identity(), w.a, w.b, PingPongs(n, t, 0)); !Recovered(Identity(), a', b')
    {
      StuckForever(w.a, w.b, n, t);
      var (a', b') := SwappedAll(Identity(), w.a, w.b, PingPongs(n, t, 0));
      StuckIsNotRecovered(a', b');
    }
  }

  /* ---------- a packet that is delivered twice ---------- */

  /** A receiver in step reads the packet, and gets out of enc_buf exactly what was carried. */
  lemma AfterDelivery(w: World, t: int)
    requires PlainWorld(w) && w.ab != [] && InStep(Identity(), w.ab[0].before, w.b)
    ensures var p := w.ab[0];
      && Genuine(Identity(), p)
      && Leads(w, [Move(true, Deliver(t, t))],
               w.(b := Understood(w.b, p.before.enc, After(Identity(), p).encCtx), ab := w.ab[1..],
                  gotB := w.gotB + [p.payload]))
  {
    hide EncodePacket, DecodePacket;
    PlainIsValid(w);
    var p := w.ab[0];
    PacketStart(p);
    ReadInStep(Identity(), p.before, w.b, p.payload, p.draw, t, t);
    PayloadSurvives(Identity(), p.payload);
    LeadsOne(w, Move(true, Deliver(t, t)));
  }

  /** A packet with the bytes of an earlier one is read as that. */
  lemma AfterReplay(w: World, first: Packet, t: int)
    requires PlainWorld(w) && w.ab != [] && Simple(first) && InStep(Identity(), first.before, w.b)
    requires Genuine(Identity(), first) && Genuine(Identity(), w.ab[0]) && Wire(Identity(), w.ab[0]) == Wire(Identity(), first)
    ensures Leads(w, [Move(true, Deliver(t, t))],
                  w.(b := Understood(w.b, first.before.enc, After(Identity(), first).encCtx), ab := w.ab[1..],
                     gotB := w.gotB + [first.payload]))
  {
    hide EncodePacket, DecodePacket, Plain;
    PlainIsValid(w);
    ReplayDelivers(Identity(), w.b, w.ab[0], first, t, t);
    PayloadSurvives(Identity(), first.payload);
    LeadsOne(w, Move(true, Deliver(t, t)));
  }

  /** A packet out of step throws a receiver in SEQUENCE out, if it sends under a keyed context. */
  lemma AfterConfusion(w: World, t: int)
    requires PlainWorld(w) && w.ab != [] && w.b.dec.Sequence? && w.b.enc.Sequence?
    requires Mute(w.ab[0].before) && w.ab[0].before.source.Header?
    ensures Leads(w, [Move(true, Deliver(t, t))], w.(b := w.b.(dec := Init, decCtx := Unkeyed, enc := ReqInit), ab := w.ab[1..]))
  {
    hide EncodePacket, DecodePacket, Plain, NoFalseTag;
    PlainIsValid(w);
    SimpleIsHonest(w.b, w.ab[0]);
    var reg := ReadOutOfStep(Identity(), w.b, w.ab[0], t, t);
    assert w.gotB + [] == w.gotB;
    LeadsOne(w, Move(true, Deliver(t, t)));
  }

  /** The first packet of a, [7], and a packet of 40 bytes, have the same length on the wire. */
  lemma FirstPacketHeld(first: Packet)
    requires Simple(first) && first.before == Allocated(Identity(), 0) && first.payload == [7]
    ensures Genuine(Identity(), first) && |Wire(Identity(), first)| == 64
    ensures After(Identity(), first).held == Wire(Identity(), first) && After(Identity(), first).source == Header
  {
    PacketStart(first);
    BodyLength(false, 0, [7], first.draw);
    hide Body, Encrypt;
  }

  /** Under a cleaned-up context 40 bytes send exactly the packet that is held. */
  lemma Repeats(p: Packet)
    requires Simple(p) && Mute(p.before) && |p.payload| == 40 && |p.before.held| == 64
    ensures Genuine(Identity(), p) && Wire(Identity(), p) == p.before.held && After(Identity(), p).held == p.before.held
  {
    MutePacket(p);
    MuteLength(p);
    MuteKeeps(Identity(), p.before, p.payload, p.draw);
    HeldUnchanged(p);
    hide EncodePacket;
    assert (p.before.held + p.draw.stale)[..64] == p.before.held;
  }

  lemma HeldUnchanged(p: Packet)
    requires Genuine(Identity(), p) && Mute(p.before)
    ensures After(Identity(), p).held == Overwritten(p.before.held, Wire(Identity(), p))
  {
    hide Body, Encrypt;
  }

  /** b reads [7]; its own header is lost, and a reads three of its packets; then a sends two packets of 40 bytes. */
  lemma DuplicateDelivery() returns (moves: seq<Move>, w: World)
    ensures Leads(Start(Identity(), 0, 0), moves, w)
    ensures NoFalseTags(Identity(), Deliveries(Identity(), Start(Identity(), 0, 0), moves))
    ensures w.gotB == [[7], [7]] && Payloads(Identity(), w.sentA) == [[7], Zeros(40), Zeros(40)]
    ensures !Subsequence(w.gotB, Payloads(Identity(), w.sentA))
    ensures !NoReplays(Deliveries(Identity(), Start(Identity(), 0, 0), moves))
  {
    hide PlainWorld, Leads, EncodePacket, DecodePacket, Deliveries, NoFalseTags, NoReplays, Gibberish, Run;
    var c, w0 := Identity(), Start(Identity(), 0, 0);
    StartIsPlain();
    var first := Packet(w0.a, [7], ZeroDraw([7]));
    AfterSend(w0, [7]);
    FirstPacketHeld(first);
    var w1 := w0.(a := After(c, first), ab := w0.ab + [first], sentA := w0.sentA + [first]);
    LeadsIsPlain(w0, [SendMove([7])], w1);
    AfterDelivery(w1, 0);
    var deliver := (t: int) => [Move(true, Deliver(t, t))];
    var read := (t: int) => [Move(false, Deliver(t, t))];
    var w2 := w1.(b := Understood(w1.b, Init, After(c, first).encCtx), ab := [], gotB := [[7]]);
    assert w1.ab[1..] == [] && w1.gotB + [[7]] == [[7]];
    LeadsOn(w0, [SendMove([7])], w1, deliver(0), w2);
    var m2 := [SendMove([7])] + deliver(0);
    LeadsIsPlain(w1, deliver(0), w2);
    var m3, w3 := Answered(w2);
    LeadsOn(w0, m2, w2, m3, w3);
    LeadsIsPlain(w2, m3, w3);
    var m4, w4 := Repeated(w3, first);
    LeadsOn(w0, m2 + m3, w3, m4, w4);
    moves, w := m2 + m3 + m4, w4;
    LeadsIsSimple(w0, moves, w);
    PayloadSurvives(c, [7]);
    PayloadSurvives(c, Zeros(40));
    assert Payloads(c, w.sentA) == [[7], Zeros(40), Zeros(40)];
    TwoAreTooMany(Zeros(40));
    LeadsRuns(w0, moves, w);
    if NoReplays(Deliveries(c, w0, moves)) {
      LossyDuplex(c, 0, 0, moves);
    }
  }

  lemma {:induction false} SubsequenceMember(s: seq<bytes>, t: seq<bytes>)
    requires Subsequence(s, t) && s != []
    ensures s[0] in t
    decreases |t|
  {
    if Subsequence(s, t[1..]) {
      SubsequenceMember(s, t[1..]);
    }
  }

  lemma TwoAreTooMany(y: bytes)
    requires |y| == 40
    ensures !Subsequence([[7], [7]], [[7], y, y])
  {
    var s: seq<bytes>, t: seq<bytes> := [[7], [7]], [[7], y, y];
    if Subsequence(s, t) {
      assert t[1..] == [y, y] && s[1..] == [[7]] && |[7]| == 1;
      SubsequenceMember(if Subsequence(s, t[1..]) then s else s[1..], t[1..]);
    }
  }

  /** b's header is lost, and a, which waits for it, cleans up its own context. */
  lemma Answered(w: World) returns (moves: seq<Move>, w': World)
    requires PlainWorld(w) && w.ab == [] && w.ba == [] && w.b.enc.Init? && w.a.dec.Init? && w.a.gibberish == 0
    ensures Leads(w, moves, w')
    ensures w' == w.(a := w'.a, b := w'.b, ba := w'.ba, sentB := w'.sentB)
    ensures Mute(w'.a) && w'.a.held == w.a.held && w'.a.source == w.a.source
    ensures w'.b.enc.Sequence? && w'.b.dec == w.b.dec && w'.b.gibberish == w.b.gibberish
  {
    hide PlainWorld, Leads;
    SwapIsPlain(w);
    var m1, v1 := Fill(Swap(w), 5);
    MirrorLeads(Swap(w), m1, v1);
    assert Swap(Swap(w)) == w;
    var w1 := Swap(v1);
    LeadsIsPlain(w, Mirrored(m1), w1);
    var read := (t: int) => [Move(false, Deliver(t, t))];
    AfterGibberish(w1, 0);
    var w2 := w1.(a := Gibberish(w1.a, 0, 0), ba := w1.ba[1..]);
    LeadsIsPlain(w1, read(0), w2);
    AfterGibberish(w2, 2);
    var w3 := w2.(a := Gibberish(w2.a, 2, 2), ba := w2.ba[1..]);
    LeadsIsPlain(w2, read(2), w3);
    AfterGibberish(w3, 2);
    w' := w3.(a := Gibberish(w3.a, 2, 2), ba := w3.ba[1..]);
    assert w'.a.enc.ReqInit? && w'.a.encCtx.Unkeyed?;
    hide Gibberish;
    LeadsOn(w, Mirrored(m1), w1, read(0), w2);
    LeadsOn(w, Mirrored(m1) + read(0), w2, read(2), w3);
    LeadsOn(w, Mirrored(m1) + read(0) + read(2), w3, read(2), w');
    moves := Mirrored(m1) + read(0) + read(2) + read(2);
  }

  /** The first of two packets throws b out of step; it takes the second for the one a had sent first. */
  lemma Repeated(w: World, first: Packet) returns (moves: seq<Move>, w': World)
    requires PlainWorld(w) && w.ab == [] && Mute(w.a) && w.a.source.Header?
    requires Simple(first) && Genuine(Identity(), first) && first.before.enc.Init?
    requires |Wire(Identity(), first)| == 64 && w.a.held == Wire(Identity(), first)
    requires w.b.dec.Sequence? && w.b.enc.Sequence?
    ensures Leads(w, moves, w')
    ensures w'.gotB == w.gotB + [first.payload]
    ensures |w'.sentA| == |w.sentA| + 2 && w'.sentA[..|w.sentA|] == w.sentA
    ensures w'.sentA[|w.sentA|].payload == w'.sentA[|w.sentA| + 1].payload == Zeros(40)
  {
    hide PlainWorld, Leads, EncodePacket, DecodePacket;
    var y, c := Zeros(40), Identity();
    var deliver := [Move(true, Deliver(2, 2))];
    var p := Packet(w.a, y, ZeroDraw(y));
    AfterSend(w, y);
    Repeats(p);
    MutePacket(p);
    var w1 := w.(a := After(c, p), ab := w.ab + [p], sentA := w.sentA + [p]);
    LeadsIsPlain(w, [SendMove(y)], w1);
    AfterConfusion(w1, 2);
    var w2 := w1.(b := w1.b.(dec := Init, decCtx := Unkeyed, enc := ReqInit), ab := w1.ab[1..]);
    LeadsIsPlain(w1, deliver, w2);
    var q := Packet(w2.a, y, ZeroDraw(y));
    AfterSend(w2, y);
    Repeats(q);
    var w3 := w2.(a := After(c, q), ab := w2.ab + [q], sentA := w2.sentA + [q]);
    LeadsIsPlain(w2, [SendMove(y)], w3);
    AfterReplay(w3, first, 2);
    w' := w3.(b := Understood(w3.b, first.before.enc, After(c, first).encCtx), ab := w3.ab[1..],
              gotB := w3.gotB + [first.payload]);
    LeadsOn(w, [SendMove(y)], w1, deliver, w2);
    LeadsOn(w, [SendMove(y)] + deliver, w2, [SendMove(y)], w3);
    LeadsOn(w, [SendMove(y)] + deliver + [SendMove(y)], w3, deliver, w');
    moves := [SendMove(y)] + deliver + [SendMove(y)] + deliver;
  }
}
