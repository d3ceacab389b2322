/** Two encryptors joined by two FIFO channels.  Ends a and b exchange the packets of PacketCodec; the
    steps are sends, deliveries and, on a lossy channel, losses, in any order. */
module Duplex {
  import opened Bytes
  import opened BlockCipher
  import opened PacketCodec
  import opened PacketLaws

  /** A packet, recorded with the state its sender was in. */
  datatype Packet = Packet(before: State, payload: bytes, draw: Draw)

  ghost predicate Genuine(c: Cipher, p: Packet) {
    Valid(c, p.before) && ValidDraw(c, p.payload, p.draw) && p.payload != []
  }

  function After(c: Cipher, p: Packet): State
    requires Genuine(c, p)
  {
    EncodePacket(c, p.before, p.payload, p.draw).0
  }

  function Wire(c: Cipher, p: Packet): (w: bytes)
    requires Genuine(c, p)
    ensures WellSized(c, w)
  {
    PacketSize(c, p.before, p.payload, p.draw);
    EncodePacket(c, p.before, p.payload, p.draw).1
  }

  /** Both ends, the packets under way from a to b and from b to a, all packets a and b ever sent, and
      all payloads they were handed. */
  datatype World = World(a: State, b: State, ab: seq<Packet>, ba: seq<Packet>,
                         sentA: seq<Packet>, sentB: seq<Packet>, gotA: seq<bytes>, gotB: seq<bytes>)

  function Swap(w: World): World {
    World(w.b, w.a, w.ba, w.ab, w.sentB, w.sentA, w.gotB, w.gotA)
  }

  /** One step in the direction from a to b.  A delivery or a loss on an empty channel does nothing. */
  datatype Step =
    | Send(payload: bytes, draw: Draw)
    | Deliver(t0: int, t1: int)
    | Lose(i: nat)

  datatype Move = Move(fromA: bool, step: Step)

  ghost predicate Sensible(c: Cipher, step: Step) {
    step.Send? ==> ValidDraw(c, step.payload, step.draw) && step.payload != []
  }

  ghost predicate ValidWorld(c: Cipher, w: World) {
    && Valid(c, w.a) && Valid(c, w.b)
    && (forall p :: p in w.ab ==> Genuine(c, p))
    && (forall p :: p in w.ba ==> Genuine(c, p))
    && (forall p :: p in w.sentA ==> Genuine(c, p))
    && (forall p :: p in w.sentB ==> Genuine(c, p))
  }

  function Forward(c: Cipher, w: World, step: Step): (r: World)
    requires ValidWorld(c, w) && Sensible(c, step)
    ensures ValidWorld(c, r)
  {
    match step
    case Send(payload, draw) =>
      EncodeKeepsValid(c, w.a, payload, draw);
      var p := Packet(w.a, payload, draw);
      w.(a := After(c, p), ab := w.ab + [p], sentA := w.sentA + [p])
    case Deliver(t0, t1) =>
      if w.ab == [] then w
      else
        var (b, data) := DecodePacket(c, w.b, Wire(c, w.ab[0]), t0, t1);
        w.(b := b, ab := w.ab[1..], gotB := w.gotB + if data == [] then [] else [data])
    case Lose(i) =>
      if i < |w.ab| then w.(ab := w.ab[..i] + w.ab[i + 1..]) else w
  }

  function Apply(c: Cipher, w: World, m: Move): (r: World)
    requires ValidWorld(c, w) && Sensible(c, m.step)
    ensures ValidWorld(c, r)
  {
    if m.fromA then Forward(c, w, m.step) else Swap(Forward(c, Swap(w), m.step))
  }

  function Run(c: Cipher, w: World, moves: seq<Move>): (r: World)
    requires ValidWorld(c, w) && forall m :: m in moves ==> Sensible(c, m.step)
    ensures ValidWorld(c, r)
    decreases |moves|
  {
    if moves == [] then w else Run(c, Apply(c, w, moves[0]), moves[1..])
  }

  function Start(c: Cipher, seqA: nat, seqB: nat): (w: World)
    requires c.Valid() && seqA < 0x1_0000_0000 && seqB < 0x1_0000_0000
    ensures ValidWorld(c, w)
  {
    World(Allocated(c, seqA), Allocated(c, seqB), [], [], [], [], [], [])
  }

  /** The payloads of packets, as the peer would be handed them. */
  function Payloads(c: Cipher, ps: seq<Packet>): (r: seq<bytes>)
    requires c.Valid()
    ensures |r| == |ps|
  {
    seq(|ps|, i requires 0 <= i < |ps| => Carried(c, ps[i].payload))
  }

  lemma PayloadsConcat(c: Cipher, ps: seq<Packet>, qs: seq<Packet>)
    requires c.Valid()
    ensures Payloads(c, ps + qs) == Payloads(c, ps) + Payloads(c, qs)
  {
  }

  /* ---------- the lossless channel ---------- */

  /** Walking the receiver f over the packets q under way, every one of them is read in step and asks for
      nothing, and at the end f is in step with the sender e as it is now. */
  ghost predicate Chained(c: Cipher, f: State, q: seq<Packet>, e: State)
    decreases |q|
  {
    if q == [] then InStep(c, e, f)
    else
      && Genuine(c, q[0])
      && InStep(c, q[0].before, f)
      && !q[0].before.enc.ReqInit?
      && Chained(c, Understood(f, q[0].before.enc, After(c, q[0]).encCtx), q[1..], e)
  }

  /** Only the decrypting half of the receiver and the encrypting half of the sender matter. */
  lemma {:induction false} ChainedFrame(c: Cipher, f: State, f': State, q: seq<Packet>, e: State, e': State)
    requires Chained(c, f, q, e)
    requires f'.dec == f.dec && f'.decCtx == f.decCtx && e'.enc == e.enc && e'.encCtx == e.encCtx
    ensures Chained(c, f', q, e')
    decreases |q|
  {
    if q != [] {
      var ctx := After(c, q[0]).encCtx;
      ChainedFrame(c, Understood(f, q[0].before.enc, ctx), Understood(f', q[0].before.enc, ctx), q[1..], e, e');
    }
  }

  lemma {:induction false} ChainedAppend(c: Cipher, f: State, q: seq<Packet>, p: Packet)
    requires Genuine(c, p) && !p.before.enc.ReqInit? && Chained(c, f, q, p.before)
    ensures Chained(c, f, q + [p], After(c, p))
    decreases |q|
  {
    hide EncodePacket;
    var q' := q + [p];
    if q == [] {
      EncodeKeepsValid(c, p.before, p.payload, p.draw);
      SenderIsKeyed(c, p);
      assert q'[1..] == [];
    } else {
      assert q'[0] == q[0] && q'[1..] == q[1..] + [p];
      ChainedAppend(c, Understood(f, q[0].before.enc, After(c, q[0]).encCtx), q[1..], p);
    }
  }

  lemma SenderIsKeyed(c: Cipher, p: Packet)
    requires Genuine(c, p) && (p.before.enc.Init? || p.before.encCtx.Keyed?)
    ensures After(c, p).encCtx.Keyed? && !After(c, p).enc.Init?
  {
    hide Body, EncryptUpdate;
  }

  ghost predicate Flow(c: Cipher, e: State, f: State, q: seq<Packet>, sent: seq<Packet>, got: seq<bytes>)
    requires c.Valid()
  {
    && Chained(c, f, q, e)
    && !e.enc.ReqInit?
    && got + Payloads(c, q) == Payloads(c, sent)
    && forall p :: p in sent ==> !p.before.enc.ReqInit?
  }

  lemma SendKeepsFlow(c: Cipher, e: State, f: State, q: seq<Packet>, sent: seq<Packet>, got: seq<bytes>, p: Packet)
    requires c.Valid() && Flow(c, e, f, q, sent, got) && Genuine(c, p) && p.before == e
    ensures Flow(c, After(c, p), f, q + [p], sent + [p], got)
  {
    hide EncodePacket, Chained;
    EncodeKeepsValid(c, e, p.payload, p.draw);
    ChainedAppend(c, f, q, p);
    PayloadsConcat(c, q, [p]);
    PayloadsConcat(c, sent, [p]);
  }

  lemma DeliverKeepsFlow(c: Cipher, e: State, f: State, q: seq<Packet>, sent: seq<Packet>, got: seq<bytes>,
                         t0: int, t1: int)
    requires Valid(c, f) && Flow(c, e, f, q, sent, got) && q != []
    ensures var (f', data) := DecodePacket(c, f, Wire(c, q[0]), t0, t1);
      && Flow(c, e, f', q[1..], sent, got + [data])
      && data != []
      && f'.enc == f.enc && f'.encCtx == f.encCtx
  {
    hide EncodePacket, DecodePacket;
    var p := q[0];
    ReadInStep(c, p.before, f, p.payload, p.draw, t0, t1);
    assert q == [p] + q[1..];
    PayloadsConcat(c, [p], q[1..]);
  }

  /** Neither what the receiver sends nor what the sender reads touches the flow. */
  lemma FlowFrame(c: Cipher, e: State, e': State, f: State, f': State, q: seq<Packet>, sent: seq<Packet>, got: seq<bytes>)
    requires c.Valid() && Flow(c, e, f, q, sent, got)
    requires f'.dec == f.dec && f'.decCtx == f.decCtx && e'.enc == e.enc && e'.encCtx == e.encCtx
    ensures Flow(c, e', f', q, sent, got)
  {
    ChainedFrame(c, f, f', q, e, e');
  }

  ghost predicate Lossless(c: Cipher, w: World) {
    && ValidWorld(c, w)
    && Flow(c, w.a, w.b, w.ab, w.sentA, w.gotB)
    && Flow(c, w.b, w.a, w.ba, w.sentB, w.gotA)
  }

  lemma ForwardKeepsLossless(c: Cipher, w: World, step: Step)
    requires Lossless(c, w) && Sensible(c, step) && !step.Lose?
    ensures Lossless(c, Forward(c, w, step))
  {
    hide EncodePacket, DecodePacket, Flow;
    var w' := Forward(c, w, step);
    match step {
      case Send(payload, draw) =>
        var p := Packet(w.a, payload, draw);
        EncodeKeepsValid(c, w.a, payload, draw);
        SendKeepsFlow(c, w.a, w.b, w.ab, w.sentA, w.gotB, p);
        FlowFrame(c, w.b, w.b, w.a, w'.a, w.ba, w.sentB, w.gotA);
      case Deliver(t0, t1) =>
        if w.ab != [] {
          DeliverKeepsFlow(c, w.a, w.b, w.ab, w.sentA, w.gotB, t0, t1);
          FlowFrame(c, w.b, w'.b, w.a, w.a, w.ba, w.sentB, w.gotA);
        }
    }
  }

  lemma {:induction false} RunKeepsLossless(c: Cipher, w: World, moves: seq<Move>)
    requires Lossless(c, w)
    requires forall m :: m in moves ==> Sensible(c, m.step) && !m.step.Lose?
    ensures Lossless(c, Run(c, w, moves))
    decreases |moves|
  {
    if moves != [] {
      hide Forward, Flow;
      var m := moves[0];
      ForwardKeepsLossless(c, if m.fromA then w else Swap(w), m.step);
      RunKeepsLossless(c, Apply(c, w, m), moves[1..]);
    }
  }

  /** Main result: on a lossless channel, whatever the interleaving of sends and deliveries in both
      directions and whatever the clock says, the payloads handed over are a prefix of those sent, nobody
      ever asks for a resynchronisation, and once the channel is empty everything has been handed over
      and the receiver holds the sender's context. */
  lemma LosslessDuplex(c: Cipher, seqA: nat, seqB: nat, moves: seq<Move>)
    requires c.Valid() && seqA < 0x1_0000_0000 && seqB < 0x1_0000_0000
    requires forall m :: m in moves ==> Sensible(c, m.step) && !m.step.Lose?
    ensures var w := Run(c, Start(c, seqA, seqB), moves);
      && w.gotB <= Payloads(c, w.sentA) && w.gotA <= Payloads(c, w.sentB)
      && (forall p :: p in w.sentA || p in w.sentB ==> !p.before.enc.ReqInit?)
      && (w.ab == [] ==> w.gotB == Payloads(c, w.sentA) && InStep(c, w.a, w.b))
      && (w.ba == [] ==> w.gotA == Payloads(c, w.sentB) && InStep(c, w.b, w.a))
  {
    var w0 := Start(c, seqA, seqB);
    hide Run, EncodePacket;
    RunKeepsLossless(c, w0, moves);
  }

  /* ---------- sequence numbers ---------- */

  ghost predicate Numbered(c: Cipher, e: State, sent: seq<Packet>, first: nat)
    requires c.Valid()
  {
    && (forall k :: 0 <= k < |sent| ==> sent[k].before.seqNum == (first + k) % WordLimit(c.ulong))
    && e.seqNum == (first + |sent|) % WordLimit(c.ulong)
  }

  lemma ForwardNumbers(c: Cipher, w: World, step: Step, firstA: nat, firstB: nat)
    requires ValidWorld(c, w) && Sensible(c, step) && Numbered(c, w.a, w.sentA, firstA) && Numbered(c, w.b, w.sentB, firstB)
    ensures var r := Forward(c, w, step); Numbered(c, r.a, r.sentA, firstA) && Numbered(c, r.b, r.sentB, firstB)
  {
    hide EncodePacket, DecodePacket;
    match step {
      case Send(payload, draw) =>
        SendCounts(c, w.a, payload, draw);
        NextNumber(firstA + |w.sentA|, WordLimit(c.ulong));
      case Deliver(t0, t1) =>
        if w.ab != [] {
          DecodeKeepsNumber(c, w.b, Wire(c, w.ab[0]), t0, t1);
        }
      case Lose(i) =>
    }
  }

  lemma NextNumber(n: nat, limit: nat)
    requires limit == 0x1_0000_0000 || limit == 0x1_0000_0000_0000_0000
    ensures (n % limit + 1) % limit == (n + 1) % limit
  {
  }

  lemma DecodeKeepsNumber(c: Cipher, f: State, wire: bytes, t0: int, t1: int)
    requires Valid(c, f) && WellSized(c, wire)
    ensures DecodePacket(c, f, wire, t0, t1).0.seqNum == f.seqNum
  {
    hide Decrypt, EcbDecrypt, Unpad;
  }

  lemma {:induction false} RunNumbers(c: Cipher, w: World, moves: seq<Move>, firstA: nat, firstB: nat)
    requires ValidWorld(c, w) && forall m :: m in moves ==> Sensible(c, m.step)
    requires Numbered(c, w.a, w.sentA, firstA) && Numbered(c, w.b, w.sentB, firstB)
    ensures var r := Run(c, w, moves); Numbered(c, r.a, r.sentA, firstA) && Numbered(c, r.b, r.sentB, firstB)
    decreases |moves|
  {
    if moves != [] {
      hide Forward, Numbered;
      var m := moves[0];
      if m.fromA {
        ForwardNumbers(c, w, m.step, firstA, firstB);
      } else {
        ForwardNumbers(c, Swap(w), m.step, firstB, firstA);
      }
      RunNumbers(c, Apply(c, w, m), moves[1..], firstA, firstB);
    }
  }

  /** Over every run, whatever is lost, the k-th packet of each end is sent with the k-th number after its first. */
  lemma NumbersCount(c: Cipher, seqA: nat, seqB: nat, moves: seq<Move>)
    requires c.Valid() && seqA < 0x1_0000_0000 && seqB < 0x1_0000_0000
    requires forall m :: m in moves ==> Sensible(c, m.step)
    ensures var w := Run(c, Start(c, seqA, seqB), moves);
      && (forall k :: 0 <= k < |w.sentA| ==> w.sentA[k].before.seqNum == (seqA + k) % WordLimit(c.ulong))
      && (forall k :: 0 <= k < |w.sentB| ==> w.sentB[k].before.seqNum == (seqB + k) % WordLimit(c.ulong))
  {
    hide Run;
    RunNumbers(c, Start(c, seqA, seqB), moves, seqA, seqB);
  }
}
