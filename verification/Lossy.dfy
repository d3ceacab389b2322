/** The same two ends on channels that lose packets. */
module Lossy {
  import opened Bytes
  import opened BlockCipher
  import opened PacketCodec
  import opened PacketLaws
  import opened Duplex

  /** The sender's context has been cleaned up and is not keyed again by the next packet: that packet will be what
      enc_buf holds. */
  predicate Mute(e: State) {
    e.encCtx.Unkeyed? && !e.enc.Init?
  }

  /** The packet that e sends next repeats an earlier one, and f is where the receiver of that one had to be: it
      waits for a header and the buffer starts with one, or it holds the register the buffer was encrypted from. */
  predicate Replays(e: State, f: State) {
    Mute(e) &&
    match e.source
    case Memory => false
    case Header => f.dec.Init?
    case Stream(reg) => f.dec.Sequence? && f.decCtx == Keyed(reg)
  }

  /** The receiver finds no header where it waits for one, and no tag otherwise. */
  ghost predicate Untagged(c: Cipher, f: State, p: Packet)
    requires Valid(c, f) && Genuine(c, p) && !c.mode.ECB?
  {
    if f.dec.Init? then EcbDecrypt(c, Wire(c, p)[..2 * c.bs])[..4] != IVEC
    else
      var tag := Decrypt(c, c.mode, f.decCtx.reg, Wire(c, p)).0[..4];
      tag != SEQNO && tag != RSYN
  }

  /** The one assumption about chance, for one delivery: a packet that the receiver is not in step with, and that
      repeats none it was in step with, does not happen to read as a header or to start with a tag. */
  ghost predicate NoFalseTag(c: Cipher, f: State, p: Packet)
    requires Valid(c, f) && Genuine(c, p)
  {
    InStep(c, p.before, f) || Replays(p.before, f) || (!c.mode.ECB? && Untagged(c, f, p))
  }

  /** What becomes of a receiver that cannot read a packet; reg is the chaining register it is left with. */
  function Baffled(f: State, reg: bytes, t0: int, t1: int): State {
    if f.dec.Init? then Gibberish(f, t0, t1)
    else if f.enc.ReqInit? || f.enc.Init? then f.(decCtx := Keyed(reg))
    else f.(dec := Init, decCtx := Unkeyed, enc := ReqInit)
  }

  lemma ReadOutOfStep(c: Cipher, f: State, p: Packet, t0: int, t1: int) returns (reg: bytes)
    requires Valid(c, f) && Genuine(c, p) && !c.mode.ECB?
    requires NoFalseTag(c, f, p) && !Replays(p.before, f) && !InStep(c, p.before, f)
    ensures |reg| == c.bs && (!f.dec.Init? ==> reg == Decrypt(c, c.mode, f.decCtx.reg, Wire(c, p)).1)
    ensures DecodePacket(c, f, Wire(c, p), t0, t1) == (Baffled(f, reg, t0, t1), [])
  {
    var wire := Wire(c, p);
    hide EncodePacket;
    if f.dec.Init? {
      reg := NoRegister(c);
    } else {
      reg := Decrypt(c, c.mode, f.decCtx.reg, wire).1;
      assert wire[0..] == wire;
    }
  }

  lemma DeliverOne(c: Cipher, f: State, p: Packet, t0: int, t1: int)
    requires Valid(c, f) && Genuine(c, p) && NoFalseTag(c, f, p) && !Replays(p.before, f)
    ensures DecodePacket(c, f, Wire(c, p), t0, t1).1 == if InStep(c, p.before, f) then Carried(c, p.payload) else []
  {
    hide EncodePacket, DecodePacket;
    if InStep(c, p.before, f) {
      ReadInStep(c, p.before, f, p.payload, p.draw, t0, t1);
    } else {
      var _ := ReadOutOfStep(c, f, p, t0, t1);
    }
  }

  /** s is t with some elements left out. */
  ghost predicate Subsequence<T>(s: seq<T>, t: seq<T>)
    decreases |t|
  {
    s == [] || (t != [] && (Subsequence(s, t[1..]) || (s[0] == t[0] && Subsequence(s[1..], t[1..]))))
  }

  lemma {:induction false} SubsequenceAppend<T>(s: seq<T>, t: seq<T>, x: T)
    requires Subsequence(s, t)
    ensures Subsequence(s + [x], t + [x])
    decreases |t|
  {
    var s', t' := s + [x], t + [x];
    if t == [] {
      assert t'[1..] == [];
    } else {
      assert t'[1..] == t[1..] + [x];
      if s == [] || Subsequence(s, t[1..]) {
        SubsequenceAppend(s, t[1..], x);
      } else {
        assert s'[1..] == s[1..] + [x];
        SubsequenceAppend(s[1..], t[1..], x);
      }
    }
  }

  lemma {:induction false} SubsequenceWithout<T>(s: seq<T>, i: nat, t: seq<T>)
    requires i < |s| && Subsequence(s, t)
    ensures Subsequence(s[..i] + s[i + 1..], t)
    decreases |t|
  {
    var r := s[..i] + s[i + 1..];
    if Subsequence(s, t[1..]) {
      SubsequenceWithout(s, i, t[1..]);
    } else if i == 0 {
      assert r == s[1..];
    } else {
      assert r[1..] == s[1..][..i - 1] + s[1..][i..];
      SubsequenceWithout(s[1..], i - 1, t[1..]);
    }
  }

  /** A packet, and the receiver it is delivered to. */
  datatype Delivery = Delivery(receiver: State, packet: Packet)

  /** The deliveries of a step, and of a run. */
  ghost function Delivered(c: Cipher, w: World, m: Move): (r: seq<Delivery>)
    requires ValidWorld(c, w)
    ensures forall x :: x in r ==> Valid(c, x.receiver) && Genuine(c, x.packet)
  {
    var v := if m.fromA then w else Swap(w);
    if m.step.Deliver? && v.ab != [] then [Delivery(v.b, v.ab[0])] else []
  }

  ghost function Deliveries(c: Cipher, w: World, moves: seq<Move>): (r: seq<Delivery>)
    requires ValidWorld(c, w) && forall m :: m in moves ==> Sensible(c, m.step)
    ensures forall x :: x in r ==> Valid(c, x.receiver) && Genuine(c, x.packet)
    decreases |moves|
  {
    if moves == [] then []
    else Delivered(c, w, moves[0]) + Deliveries(c, Apply(c, w, moves[0]), moves[1..])
  }

  /** Every delivery satisfies the assumption about chance. */
  ghost predicate NoFalseTags(c: Cipher, ds: seq<Delivery>)
    requires forall x :: x in ds ==> Valid(c, x.receiver) && Genuine(c, x.packet)
  {
    forall x :: x in ds ==> NoFalseTag(c, x.receiver, x.packet)
  }

  /** No delivery is a replay. */
  ghost predicate NoReplays(ds: seq<Delivery>) {
    forall x :: x in ds ==> !Replays(x.packet.before, x.receiver)
  }

  ghost predicate Ordered(c: Cipher, w: World) {
    && ValidWorld(c, w)
    && Subsequence(w.gotB + Payloads(c, w.ab), Payloads(c, w.sentA))
    && Subsequence(w.gotA + Payloads(c, w.ba), Payloads(c, w.sentB))
  }

  lemma DeliverKeepsOrder(c: Cipher, w: World, t0: int, t1: int)
    requires ValidWorld(c, w) && Subsequence(w.gotB + Payloads(c, w.ab), Payloads(c, w.sentA))
    requires w.ab != [] && NoFalseTag(c, w.b, w.ab[0]) && !Replays(w.ab[0].before, w.b)
    ensures var w' := Forward(c, w, Deliver(t0, t1));
      Subsequence(w'.gotB + Payloads(c, w'.ab), Payloads(c, w.sentA))
  {
    hide EncodePacket, DecodePacket, NoFalseTag, Replays, Subsequence;
    var w' := Forward(c, w, Deliver(t0, t1));
    var n, s := |w.gotB|, w.gotB + Payloads(c, w.ab);
    DeliverOne(c, w.b, w.ab[0], t0, t1);
    SubsequenceWithout(s, n, Payloads(c, w.sentA));
    if InStep(c, w.ab[0].before, w.b) {
      assert w'.gotB + Payloads(c, w'.ab) == s;
    } else {
      assert w'.gotB + Payloads(c, w'.ab) == s[..n] + s[n + 1..];
    }
  }

  lemma LossKeepsOrder(c: Cipher, w: World, i: nat)
    requires ValidWorld(c, w) && Subsequence(w.gotB + Payloads(c, w.ab), Payloads(c, w.sentA)) && i < |w.ab|
    ensures Subsequence(w.gotB + Payloads(c, w.ab[..i] + w.ab[i + 1..]), Payloads(c, w.sentA))
  {
    hide Subsequence;
    var n, s := |w.gotB| + i, w.gotB + Payloads(c, w.ab);
    SubsequenceWithout(s, n, Payloads(c, w.sentA));
    assert w.gotB + Payloads(c, w.ab[..i] + w.ab[i + 1..]) == s[..n] + s[n + 1..];
  }

  lemma ForwardKeepsOrdered(c: Cipher, w: World, step: Step)
    requires Ordered(c, w) && Sensible(c, step)
    requires step.Deliver? && w.ab != [] ==> NoFalseTag(c, w.b, w.ab[0]) && !Replays(w.ab[0].before, w.b)
    ensures Ordered(c, Forward(c, w, step))
  {
    hide EncodePacket, DecodePacket, NoFalseTag, Replays, Subsequence;
    match step {
      case Send(payload, draw) =>
        var p := Packet(w.a, payload, draw);
        SubsequenceAppend(w.gotB + Payloads(c, w.ab), Payloads(c, w.sentA), Carried(c, payload));
        assert Payloads(c, w.ab + [p]) == Payloads(c, w.ab) + [Carried(c, payload)];
        assert Payloads(c, w.sentA + [p]) == Payloads(c, w.sentA) + [Carried(c, payload)];
        assert w.gotB + (Payloads(c, w.ab) + [Carried(c, payload)]) == w.gotB + Payloads(c, w.ab) + [Carried(c, payload)];
      case Deliver(t0, t1) =>
        if w.ab != [] {
          DeliverKeepsOrder(c, w, t0, t1);
        }
      case Lose(i) =>
        if i < |w.ab| {
          LossKeepsOrder(c, w, i);
        }
    }
  }

  lemma MoveKeepsOrdered(c: Cipher, w: World, m: Move)
    requires Ordered(c, w) && Sensible(c, m.step)
    requires NoFalseTags(c, Delivered(c, w, m)) && NoReplays(Delivered(c, w, m))
    ensures Ordered(c, Apply(c, w, m))
  {
    hide Forward, Subsequence, NoFalseTag, Replays;
    var v := if m.fromA then w else Swap(w);
    if m.step.Deliver? && v.ab != [] {
      assert Delivery(v.b, v.ab[0]) in Delivered(c, w, m);
    }
    ForwardKeepsOrdered(c, v, m.step);
  }

  lemma FirstDeliveries(c: Cipher, w: World, moves: seq<Move>)
    requires ValidWorld(c, w) && moves != [] && forall m :: m in moves ==> Sensible(c, m.step)
    ensures Deliveries(c, w, moves) == Delivered(c, w, moves[0]) + Deliveries(c, Apply(c, w, moves[0]), moves[1..])
    ensures Run(c, w, moves) == Run(c, Apply(c, w, moves[0]), moves[1..])
  {
  }

  lemma SplitAssumptions(c: Cipher, now: seq<Delivery>, later: seq<Delivery>)
    requires forall x :: x in now + later ==> Valid(c, x.receiver) && Genuine(c, x.packet)
    ensures (forall x :: x in now ==> Valid(c, x.receiver) && Genuine(c, x.packet))
    ensures (forall x :: x in later ==> Valid(c, x.receiver) && Genuine(c, x.packet))
    ensures NoFalseTags(c, now + later) <==> NoFalseTags(c, now) && NoFalseTags(c, later)
    ensures NoReplays(now + later) <==> NoReplays(now) && NoReplays(later)
  {
    hide Valid, Genuine, NoFalseTag, Replays;
    assert forall x :: x in now || x in later <==> x in now + later;
  }

  lemma {:induction false} RunKeepsOrdered(c: Cipher, w: World, moves: seq<Move>)
    requires Ordered(c, w) && forall m :: m in moves ==> Sensible(c, m.step)
    requires NoFalseTags(c, Deliveries(c, w, moves)) && NoReplays(Deliveries(c, w, moves))
    ensures Ordered(c, Run(c, w, moves))
    decreases |moves|
  {
    if moves != [] {
      hide Apply, Delivered, Deliveries, Run, NoFalseTags, NoReplays, Subsequence;
      FirstDeliveries(c, w, moves);
      SplitAssumptions(c, Delivered(c, w, moves[0]), Deliveries(c, Apply(c, w, moves[0]), moves[1..]));
      MoveKeepsOrdered(c, w, moves[0]);
      RunKeepsOrdered(c, Apply(c, w, moves[0]), moves[1..]);
    }
  }

  lemma {:induction false} PrefixOfSubsequence<T>(s: seq<T>, r: seq<T>, t: seq<T>)
    requires Subsequence(s + r, t)
    ensures Subsequence(s, t)
    decreases |r|
  {
    if r == [] {
      assert s + r == s;
    } else {
      var n := |s + r| - 1;
      SubsequenceWithout(s + r, n, t);
      assert (s + r)[..n] + (s + r)[n + 1..] == s + r[..|r| - 1];
      PrefixOfSubsequence(s, r[..|r| - 1], t);
    }
  }

  /** Main result: over every run with arbitrary losses in both directions, and whatever resynchronisations they
      cause, what each end is handed is a subsequence of what its peer sent: nothing altered, nothing twice,
      nothing out of order; unless a delivery is a replay (ReplayRuns.DuplicateDelivery is a run with one). */
  lemma LossyDuplex(c: Cipher, seqA: nat, seqB: nat, moves: seq<Move>)
    requires c.Valid() && seqA < 0x1_0000_0000 && seqB < 0x1_0000_0000
    requires forall m :: m in moves ==> Sensible(c, m.step)
    requires var ds := Deliveries(c, Start(c, seqA, seqB), moves); NoFalseTags(c, ds) && NoReplays(ds)
    ensures var w := Run(c, Start(c, seqA, seqB), moves);
      Subsequence(w.gotB, Payloads(c, w.sentA)) && Subsequence(w.gotA, Payloads(c, w.sentB))
  {
    hide Run, Deliveries;
    var w0 := Start(c, seqA, seqB);
    RunKeepsOrdered(c, w0, moves);
    var w := Run(c, w0, moves);
    PrefixOfSubsequence(w.gotB, Payloads(c, w.ab), Payloads(c, w.sentA));
    PrefixOfSubsequence(w.gotA, Payloads(c, w.ba), Payloads(c, w.sentB));
  }
}
