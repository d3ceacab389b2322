/** Two linked ends, each with one stack of modules that it runs down for what it sends and up for what it
    receives, and with the counters of lfd_linker (linkfd.c).  Packets travel in both directions at once. */
module FullDuplex {
  import opened Bytes
  import opened ModStack
  import opened Linker

  /** What relates the two ends of a module.  A state has a sending and a receiving half; sameOut and sameIn
      say that two states agree in one of them, and sync(e, d) that the receiving half of d is in step with
      the sending half of e. */
  datatype Law<!S> = Law(sync: (S, S) -> bool, sameIn: (S, S) -> bool, sameOut: (S, S) -> bool)

  /** Sending touches the sending half only; receiving from a peer in step gives back what was sent, leaves the
      ends in step, and reads and touches the receiving half only. */
  ghost predicate Reads<S(!new)>(c: Codec<S>, l: Law<S>, e: S, d: S, d2: S, x: bytes) {
    var (e', y) := Encode(c, e, x);
    y.Goes() &&
    var (d', z) := Decode(c, d, y.data);
    var (d2', z2) := Decode(c, d2, y.data);
    && z == Data(x) && z2 == Data(x)
    && l.sync(e', d') && l.sameIn(e, e') && l.sameOut(d, d') && l.sameIn(d', d2')
  }

  ghost predicate RespectsHalves<S(!new)>(l: Law<S>) {
    && (forall s: S {:trigger l.sameIn(s, s)} {:trigger l.sameOut(s, s)} :: l.sameIn(s, s) && l.sameOut(s, s))
    && (forall e: S, e': S, d: S, d': S {:trigger l.sync(e, d), l.sync(e', d')} ::
          l.sync(e, d) && l.sameOut(e, e') && l.sameIn(d, d') ==> l.sync(e', d'))
  }

  ghost predicate Lawful<S(!new)>(c: Codec<S>, l: Law<S>) {
    && RespectsHalves(l)
    && forall e: S, d: S, d2: S, x: bytes {:trigger Reads(c, l, e, d, d2, x)} ::
         l.sync(e, d) && l.sameIn(d, d2) && x != [] ==> Reads(c, l, e, d, d2, x)
  }

  /** A lawful module matches in the sense of a single direction, so that FifoIdentity holds of stacks of them. */
  lemma LawfulMatches<S(!new)>(cs: seq<Codec<S>>, laws: seq<Law<S>>, syncs: seq<(S, S) -> bool>)
    requires AllLawful(cs, laws) && |syncs| == |laws| && forall i :: 0 <= i < |laws| ==> syncs[i] == laws[i].sync
    ensures AllMatching(cs, syncs)
  {
    forall i | 0 <= i < |cs| ensures Matching(cs[i], syncs[i]) {
      var c, l := cs[i], laws[i];
      assert Lawful(c, l);
      forall e: S, d: S, x: bytes | l.sync(e, d) && x != []
        ensures var (e', y) := Encode(c, e, x);
          y.Goes() && var (d', z) := Decode(c, d, y.data); z == Data(x) && l.sync(e', d')
      {
        HeadReads(c, l, e, d, d, x);
      }
    }
  }

  /* ---------- stacks ---------- */

  ghost predicate AllLawful<S(!new)>(cs: seq<Codec<S>>, laws: seq<Law<S>>) {
    |laws| == |cs| && forall i :: 0 <= i < |cs| ==> Lawful(cs[i], laws[i])
  }

  /** The transforming modules come first in a stack; what is behind them has no law to obey. */
  ghost predicate Sync<S(!new)>(laws: seq<Law<S>>, es: seq<S>, ds: seq<S>) {
    |laws| <= |es| && |laws| <= |ds| && forall i :: 0 <= i < |laws| ==> laws[i].sync(es[i], ds[i])
  }

  ghost predicate SameIn<S(!new)>(laws: seq<Law<S>>, ss: seq<S>, ts: seq<S>) {
    |laws| <= |ss| == |ts| && forall i :: 0 <= i < |laws| ==> laws[i].sameIn(ss[i], ts[i])
  }

  ghost predicate SameOut<S(!new)>(laws: seq<Law<S>>, ss: seq<S>, ts: seq<S>) {
    |laws| <= |ss| == |ts| && forall i :: 0 <= i < |laws| ==> laws[i].sameOut(ss[i], ts[i])
  }

  /** The law of a module, for a whole stack. */
  ghost predicate StackReads<S(!new)>(laws: seq<Law<S>>, down: seq<Codec<S>>, up: seq<Codec<S>>,
                                      es: seq<S>, ds: seq<S>, ds2: seq<S>, x: bytes)
    requires |down| == |es| && |up| == |ds| == |ds2|
  {
    var (es', y) := Down(down, es, Data(x));
    y.Goes() &&
    var (ds', z) := Up(up, ds, y);
    var (ds2', z2) := Up(up, ds2, y);
    && z == Data(x) && z2 == Data(x)
    && Sync(laws, es', ds') && SameIn(laws, es, es') && SameOut(laws, ds, ds') && SameIn(laws, ds', ds2')
  }

  lemma {:induction false} CoreReads<S(!new)>(cs: seq<Codec<S>>, laws: seq<Law<S>>, es: seq<S>, ds: seq<S>, ds2: seq<S>, x: bytes)
    requires AllLawful(cs, laws) && |cs| == |es| == |ds| == |ds2| && x != []
    requires Sync(laws, es, ds) && SameIn(laws, ds, ds2)
    ensures StackReads(laws, cs, cs, es, ds, ds2, x)
    decreases |cs|
  {
    if cs != [] {
      assert Lawful(cs[0], laws[0]) && laws[0].sync(es[0], ds[0]) && laws[0].sameIn(ds[0], ds2[0]);
      hide Lawful;
      HeadReads(cs[0], laws[0], es[0], ds[0], ds2[0], x);
      var (e', y) := Encode(cs[0], es[0], x);
      var (d', _) := Decode(cs[0], ds[0], y.data);
      var (d2', _) := Decode(cs[0], ds2[0], y.data);
      hide Encode, Decode;
      CoreReads(cs[1..], laws[1..], es[1..], ds[1..], ds2[1..], y.data);
      hide Down, Up;
      assert y == Data(y.data);
      var (rest, z) := Down(cs[1..], es[1..], y);
      DownHead(cs, es, x);
      UpHead(cs, ds, z);
      UpHead(cs, ds2, z);
    }
  }

  lemma HeadReads<S(!new)>(c: Codec<S>, l: Law<S>, e: S, d: S, d2: S, x: bytes)
    requires Lawful(c, l) && l.sync(e, d) && l.sameIn(d, d2) && x != []
    ensures Reads(c, l, e, d, d2, x)
  {
  }

  /** The shaper, if there is one, is the last module of a stack. */
  ghost predicate IsTail<S(!new)>(t: seq<Codec<S>>) {
    |t| <= 1 && forall i :: 0 <= i < |t| ==> PassesThrough(t[i])
  }

  lemma DownTail<S(!new)>(cs: seq<Codec<S>>, t: seq<Codec<S>>, ss: seq<S>, x: Coded)
    requires IsTail(t) && |ss| == |cs| + |t|
    ensures Down(cs + t, ss, x).1 == Down(cs, ss[..|cs|], x).1
    ensures Down(cs + t, ss, x).0[..|cs|] == Down(cs, ss[..|cs|], x).0
  {
    hide Down, PassesThrough;
    var n := |cs|;
    if t == [] {
      assert cs + t == cs && ss[..n] == ss && Down(cs, ss, x).0[..n] == Down(cs, ss, x).0;
    } else {
      assert t == [t[0]] && ss == ss[..n] + [ss[n]];
      DownPastTail(cs, ss[..n], t[0], ss[n], x);
    }
  }

  lemma UpTail<S(!new)>(cs: seq<Codec<S>>, t: seq<Codec<S>>, ss: seq<S>, x: Coded)
    requires IsTail(t) && |ss| == |cs| + |t|
    ensures Up(cs + t, ss, x).1 == Up(cs, ss[..|cs|], x).1
    ensures Up(cs + t, ss, x).0[..|cs|] == Up(cs, ss[..|cs|], x).0
  {
    hide Up, PassesThrough;
    var n := |cs|;
    if t == [] {
      assert cs + t == cs && ss[..n] == ss && Up(cs, ss, x).0[..n] == Up(cs, ss, x).0;
    } else {
      assert t == [t[0]] && ss == ss[..n] + [ss[n]];
      UpPastTail(cs, ss[..n], t[0], ss[n], x);
    }
  }

  /** Only the states of the transforming modules matter. */
  lemma Prefix<S(!new)>(laws: seq<Law<S>>, ss: seq<S>, ts: seq<S>)
    requires |laws| <= |ss| && |laws| <= |ts|
    ensures Sync(laws, ss[..|laws|], ts[..|laws|]) == Sync(laws, ss, ts)
    ensures |ss| == |ts| ==> SameIn(laws, ss[..|laws|], ts[..|laws|]) == SameIn(laws, ss, ts)
    ensures |ss| == |ts| ==> SameOut(laws, ss[..|laws|], ts[..|laws|]) == SameOut(laws, ss, ts)
  {
    var n := |laws|;
    assert forall i :: 0 <= i < n ==> ss[..n][i] == ss[i] && ts[..n][i] == ts[i];
    if Sync(laws, ss[..n], ts[..n]) {
      forall i | 0 <= i < n ensures laws[i].sync(ss[i], ts[i]) {
        assert laws[i].sync(ss[..n][i], ts[..n][i]);
      }
    }
    if |ss| == |ts| && SameIn(laws, ss[..n], ts[..n]) {
      forall i | 0 <= i < n ensures laws[i].sameIn(ss[i], ts[i]) {
        assert laws[i].sameIn(ss[..n][i], ts[..n][i]);
      }
    }
    if |ss| == |ts| && SameOut(laws, ss[..n], ts[..n]) {
      forall i | 0 <= i < n ensures laws[i].sameOut(ss[i], ts[i]) {
        assert laws[i].sameOut(ss[..n][i], ts[..n][i]);
      }
    }
  }

  /** The transforming modules both ends have, their laws, and what either end has behind them. */
  datatype Setup<!S> = Setup(core: seq<Codec<S>>, laws: seq<Law<S>>, tail: seq<Codec<S>>, peerTail: seq<Codec<S>>) {
    function Own(): seq<Codec<S>> { core + tail }

    function Peer(): seq<Codec<S>> { core + peerTail }

    function Mirror(): Setup<S> { Setup(core, laws, peerTail, tail) }
  }

  ghost predicate ValidSetup<S(!new)>(p: Setup<S>) {
    AllLawful(p.core, p.laws) && IsTail(p.tail) && IsTail(p.peerTail)
  }

  lemma SetupReads<S(!new)>(p: Setup<S>, es: seq<S>, ds: seq<S>, ds2: seq<S>, x: bytes)
    requires ValidSetup(p) && |p.Own()| == |es| && |p.Peer()| == |ds| == |ds2| && x != []
    requires Sync(p.laws, es, ds) && SameIn(p.laws, ds, ds2)
    ensures StackReads(p.laws, p.Own(), p.Peer(), es, ds, ds2, x)
  {
    assert |p.laws| == |p.core|;
    hide AllLawful, IsTail, Down, Up, Sync, SameIn, SameOut;
    var n := |p.core|;
    Prefix(p.laws, es, ds);
    Prefix(p.laws, ds, ds2);
    CoreReads(p.core, p.laws, es[..n], ds[..n], ds2[..n], x);
    DownTail(p.core, p.tail, es, Data(x));
    var (es', y) := Down(p.Own(), es, Data(x));
    UpTail(p.core, p.peerTail, ds, y);
    UpTail(p.core, p.peerTail, ds2, y);
    var (ds', ds2') := (Up(p.Peer(), ds, y).0, Up(p.Peer(), ds2, y).0);
    Prefix(p.laws, es', ds');
    Prefix(p.laws, es, es');
    Prefix(p.laws, ds, ds');
    Prefix(p.laws, ds', ds2');
  }

  /* ---------- two ends ---------- */

  /** A packet under way: what its sender's modules were like, what went in at the top, and its frame. */
  datatype Flight<S> = Flight(before: seq<S>, plain: bytes, wire: bytes)

  datatype World<S> = World(a: End<S>, b: End<S>, ab: seq<Flight<S>>, ba: seq<Flight<S>>,
                            sentA: seq<bytes>, sentB: seq<bytes>)

  function Swap<S>(w: World<S>): World<S> {
    World(w.b, w.a, w.ba, w.ab, w.sentB, w.sentA)
  }

  /** A packet from the device of a, or a dummy packet; or a frame from the network at b. */
  datatype Step = Send(data: bytes) | Receive

  datatype Move = Move(fromA: bool, step: Step)

  ghost predicate Sized<S>(p: Setup<S>, w: World<S>) {
    |w.a.states| == |p.Own()| && |w.b.states| == |p.Peer()|
  }

  function Forward<S>(p: Setup<S>, w: World<S>, step: Step): (r: World<S>)
    requires Sized(p, w)
    ensures Sized(p, r)
  {
    match step
    case Send(data) =>
      var (a, y) := SendData(p.Own(), w.a, data);
      w.(a := a, ab := w.ab + (if y.Goes() then [Flight(w.a.states, data, y.data)] else []), sentA := w.sentA + [data])
    case Receive =>
      if w.ab == [] then w
      else w.(b := ReceiveFrame(p.Peer(), w.b, w.ab[0].wire).0, ab := w.ab[1..])
  }

  function Apply<S>(p: Setup<S>, w: World<S>, m: Move): (r: World<S>)
    requires Sized(p, w)
    ensures Sized(p, r)
  {
    if m.fromA then Forward(p, w, m.step) else Swap(Forward(p.Mirror(), Swap(w), m.step))
  }

  function Run<S>(p: Setup<S>, w: World<S>, moves: seq<Move>): (r: World<S>)
    requires Sized(p, w)
    ensures Sized(p, r)
    decreases |moves|
  {
    if moves == [] then w else Run(p, Apply(p, w, moves[0]), moves[1..])
  }

  /** Walking the receiver's modules over the packets q under way, every one of them meets modules in step with
      its sender's, and at the end they are in step with the sender's as they are now. */
  ghost predicate Chained<S(!new)>(p: Setup<S>, ds: seq<S>, q: seq<Flight<S>>, es: seq<S>)
    requires |ds| == |p.Peer()| && |es| == |p.Own()|
    decreases |q|
  {
    if q == [] then Sync(p.laws, es, ds)
    else
      && |q[0].before| == |p.Own()| && q[0].plain != [] && Sync(p.laws, q[0].before, ds)
      && Down(p.Own(), q[0].before, Data(q[0].plain)).1 == Data(q[0].wire)
      && Chained(p, Up(p.Peer(), ds, Data(q[0].wire)).0, q[1..], es)
  }

  lemma SelfSame<S(!new)>(cs: seq<Codec<S>>, laws: seq<Law<S>>, ss: seq<S>)
    requires AllLawful(cs, laws) && |laws| <= |ss|
    ensures SameIn(laws, ss, ss) && SameOut(laws, ss, ss)
  {
    forall i | 0 <= i < |laws| ensures laws[i].sameIn(ss[i], ss[i]) && laws[i].sameOut(ss[i], ss[i]) {
      assert Lawful(cs[i], laws[i]);
    }
  }

  lemma SyncFrame<S(!new)>(cs: seq<Codec<S>>, laws: seq<Law<S>>, es: seq<S>, es2: seq<S>, ds: seq<S>, ds2: seq<S>)
    requires AllLawful(cs, laws) && Sync(laws, es, ds) && SameOut(laws, es, es2) && SameIn(laws, ds, ds2)
    ensures Sync(laws, es2, ds2)
  {
    forall i | 0 <= i < |laws| ensures laws[i].sync(es2[i], ds2[i]) {
      assert Lawful(cs[i], laws[i]) && laws[i].sync(es[i], ds[i]);
    }
  }

  /** Only the receiving halves of the receiver's modules and the sending halves of the sender's matter. */
  lemma {:induction false} ChainedFrame<S(!new)>(p: Setup<S>, ds: seq<S>, ds2: seq<S>, q: seq<Flight<S>>, es: seq<S>, es2: seq<S>)
    requires ValidSetup(p) && |ds| == |ds2| == |p.Peer()| && |es| == |es2| == |p.Own()|
    requires Chained(p, ds, q, es) && SameIn(p.laws, ds, ds2) && SameOut(p.laws, es, es2)
    ensures Chained(p, ds2, q, es2)
    decreases |q|
  {
    hide Down, Up, AllLawful, Sync, SameIn, SameOut, IsTail, Setup.Own, Setup.Peer;
    if q == [] {
      SyncFrame(p.core, p.laws, es, es2, ds, ds2);
    } else {
      var e, wire := q[0].before, Data(q[0].wire);
      SelfSameOut(p, e);
      SyncFrame(p.core, p.laws, e, e, ds, ds2);
      SetupReads(p, e, ds, ds2, q[0].plain);
      ChainedFrame(p, Up(p.Peer(), ds, wire).0, Up(p.Peer(), ds2, wire).0, q[1..], es, es2);
    }
  }

  lemma SelfSameOut<S(!new)>(p: Setup<S>, ss: seq<S>)
    requires ValidSetup(p) && (|ss| == |p.Own()| || |ss| == |p.Peer()|)
    ensures SameIn(p.laws, ss, ss) && SameOut(p.laws, ss, ss)
  {
    SelfSame(p.core, p.laws, ss);
  }

  /** One more packet; sending it leaves the receiving halves of the sender's modules as they were. */
  lemma {:induction false} ChainedAppend<S(!new)>(p: Setup<S>, ds: seq<S>, q: seq<Flight<S>>, es: seq<S>, x: bytes)
    requires ValidSetup(p) && |ds| == |p.Peer()| && |es| == |p.Own()| && Chained(p, ds, q, es) && x != []
    ensures var (es', y) := Down(p.Own(), es, Data(x));
      y.Goes() && SameIn(p.laws, es, es') && Chained(p, ds, q + [Flight(es, x, y.data)], es')
    decreases |q|
  {
    hide Down, Up, AllLawful, Sync, SameIn, SameOut, IsTail, Setup.Own, Setup.Peer;
    var (es', y) := Down(p.Own(), es, Data(x));
    if q == [] {
      SelfSameOut(p, ds);
      SetupReads(p, es, ds, ds, x);
      assert y == Data(y.data);
      assert ([] + [Flight(es, x, y.data)])[1..] == [];
    } else {
      ChainedAppend(p, Up(p.Peer(), ds, Data(q[0].wire)).0, q[1..], es, x);
      assert (q + [Flight(es, x, y.data)])[1..] == q[1..] + [Flight(es, x, y.data)];
    }
  }

  /** The first packet is read, and reading it leaves the sending halves of the receiver's modules as they were. */
  lemma ChainedFirst<S(!new)>(p: Setup<S>, ds: seq<S>, q: seq<Flight<S>>, es: seq<S>)
    requires ValidSetup(p) && |ds| == |p.Peer()| && |es| == |p.Own()| && Chained(p, ds, q, es) && q != []
    ensures var (ds', z) := Up(p.Peer(), ds, Data(q[0].wire));
      z == Data(q[0].plain) && q[0].plain != [] && SameOut(p.laws, ds, ds') && Chained(p, ds', q[1..], es)
  {
    hide Down, Up, AllLawful, Sync, SameIn, SameOut, IsTail, Setup.Own, Setup.Peer;
    SelfSameOut(p, ds);
    SetupReads(p, q[0].before, ds, ds, q[0].plain);
  }

  /* ---------- what holds of one direction ---------- */

  function Plains<S>(q: seq<Flight<S>>): (r: seq<bytes>)
    ensures |r| == |q|
  {
    seq(|q|, i requires 0 <= i < |q| => q[i].plain)
  }

  function PlainLength<S>(q: seq<Flight<S>>): nat
    decreases |q|
  {
    if q == [] then 0 else |q[0].plain| + PlainLength(q[1..])
  }

  function WireLength<S>(q: seq<Flight<S>>): nat
    decreases |q|
  {
    if q == [] then 0 else |q[0].wire| + WireLength(q[1..])
  }

  lemma {:induction false} Append<S>(q: seq<Flight<S>>, f: Flight<S>)
    ensures Plains(q + [f]) == Plains(q) + [f.plain]
    ensures PlainLength(q + [f]) == PlainLength(q) + |f.plain| && WireLength(q + [f]) == WireLength(q) + |f.wire|
    decreases |q|
  {
    if q == [] {
      assert (q + [f])[1..] == [];
    } else {
      assert (q + [f])[1..] == q[1..] + [f];
      Append(q[1..], f);
    }
  }

  ghost predicate Flow<S(!new)>(p: Setup<S>, e: End<S>, f: End<S>, q: seq<Flight<S>>, sent: seq<bytes>) {
    && |f.states| == |p.Peer()| && |e.states| == |p.Own()| && Chained(p, f.states, q, e.states)
    && f.got + Plains(q) == sent
    && e.compOut == f.compIn + WireLength(q)
    && e.byteOut == f.byteIn + PlainLength(q)
  }

  ghost predicate Linked<S(!new)>(p: Setup<S>, w: World<S>) {
    Flow(p, w.a, w.b, w.ab, w.sentA) && Flow(p.Mirror(), w.b, w.a, w.ba, w.sentB)
  }

  /** What an end does for one direction does not touch the other. */
  lemma FlowFrame<S(!new)>(p: Setup<S>, e: End<S>, e': End<S>, f: End<S>, f': End<S>, q: seq<Flight<S>>, sent: seq<bytes>)
    requires ValidSetup(p) && Flow(p, e, f, q, sent)
    requires |e'.states| == |e.states| && |f'.states| == |f.states|
    requires SameOut(p.laws, e.states, e'.states) && SameIn(p.laws, f.states, f'.states)
    requires e'.compOut == e.compOut && e'.byteOut == e.byteOut
    requires f'.compIn == f.compIn && f'.byteIn == f.byteIn && f'.got == f.got
    ensures Flow(p, e', f', q, sent)
  {
    ChainedFrame(p, f.states, f'.states, q, e.states, e'.states);
  }

  lemma ForwardKeepsLinked<S(!new)>(p: Setup<S>, w: World<S>, step: Step)
    requires ValidSetup(p) && Linked(p, w) && (step.Send? ==> step.data != [])
    ensures Sized(p, w) && Linked(p, Forward(p, w, step))
  {
    hide Down, Up, AllLawful, SameIn, SameOut, IsTail, Chained;
    var w' := Forward(p, w, step);
    assert p.Mirror().Own() == p.Peer() && p.Mirror().Peer() == p.Own();
    match step {
      case Send(data) =>
        ChainedAppend(p, w.b.states, w.ab, w.a.states, data);
        var f := Flight(w.a.states, data, Down(p.Own(), w.a.states, Data(data)).1.data);
        Append(w.ab, f);
        assert w.b.got + (Plains(w.ab) + [data]) == w.b.got + Plains(w.ab) + [data];
        SelfSameOut(p, w.b.states);
        FlowFrame(p.Mirror(), w.b, w'.b, w.a, w'.a, w.ba, w.sentB);
      case Receive =>
        if w.ab != [] {
          ChainedFirst(p, w.b.states, w.ab, w.a.states);
          assert w'.b.got + Plains(w'.ab) == w.b.got + Plains(w.ab);
          SelfSameOut(p, w.a.states);
          FlowFrame(p.Mirror(), w.b, w'.b, w.a, w'.a, w.ba, w.sentB);
        }
    }
  }

  lemma {:induction false} RunKeepsLinked<S(!new)>(p: Setup<S>, w: World<S>, moves: seq<Move>)
    requires ValidSetup(p) && Linked(p, w)
    requires forall m :: m in moves && m.step.Send? ==> m.step.data != []
    ensures Sized(p, w) && Linked(p, Run(p, w, moves))
    decreases |moves|
  {
    if moves != [] {
      hide Forward, Flow, AllLawful, IsTail;
      var m := moves[0];
      if m.fromA {
        ForwardKeepsLinked(p, w, m.step);
      } else {
        assert p.Mirror().Mirror() == p;
        ForwardKeepsLinked(p.Mirror(), Swap(w), m.step);
      }
      RunKeepsLinked(p, Apply(p, w, m), moves[1..]);
    }
  }

  /** Both ends as they start. */
  function Start<S>(sa: seq<S>, sb: seq<S>): World<S> {
    World(End(sa, 0, 0, 0, 0, []), End(sb, 0, 0, 0, 0, []), [], [], [], [])
  }

  /** What holds whenever nothing is lost: each end has handed over exactly the first packets its peer sent, all
      of them once none is under way; and the bytes counted as sent, before and after the modules, are those
      counted as received plus those under way. */
  ghost predicate Conserved<S>(w: World<S>) {
    && w.b.got + Plains(w.ab) == w.sentA && w.a.got + Plains(w.ba) == w.sentB
    && w.a.compOut == w.b.compIn + WireLength(w.ab) && w.b.compOut == w.a.compIn + WireLength(w.ba)
    && w.a.byteOut == w.b.byteIn + PlainLength(w.ab) && w.b.byteOut == w.a.byteIn + PlainLength(w.ba)
  }

  /** Main result: for modules that obey their laws and start in step, over every interleaving of packets and
      dummy packets sent and frames received at both ends. */
  lemma LinkConserves<S(!new)>(p: Setup<S>, sa: seq<S>, sb: seq<S>, moves: seq<Move>)
    requires ValidSetup(p) && |sa| == |p.Own()| && |sb| == |p.Peer()|
    requires Sync(p.laws, sa, sb) && Sync(p.laws, sb, sa)
    requires forall m :: m in moves && m.step.Send? ==> m.step.data != []
    ensures Conserved(Run(p, Start(sa, sb), moves))
  {
    hide Run, AllLawful, IsTail, Sync;
    assert p.Mirror().Own() == p.Peer() && p.Mirror().Peer() == p.Own();
    assert Linked(p, Start(sa, sb));
    RunKeepsLinked(p, Start(sa, sb), moves);
  }
}
