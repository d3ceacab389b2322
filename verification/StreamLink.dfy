/** The link of FullDuplex with its frames on byte streams: tcp_write and tcp_read (generic/tcp_proto.c) between
    the two ends. */
module StreamLink {
  import opened Bytes
  import opened ModStack
  import opened Linker
  import D = FullDuplex
  import T = Framing

  /** Both ends, and the bytes under way. */
  datatype Wired<S> = Wired(a: End<S>, b: End<S>, ab: bytes, ba: bytes, sentA: seq<bytes>, sentB: seq<bytes>)

  function Swap<S>(v: Wired<S>): Wired<S> {
    Wired(v.b, v.a, v.ba, v.ab, v.sentB, v.sentA)
  }

  ghost predicate Sized<S>(p: D.Setup<S>, v: Wired<S>) {
    |v.a.states| == |p.Own()| && |v.b.states| == |p.Peer()|
  }

  /** A receipt reads one frame; anything but a data frame is not handed to the modules. */
  function Forward<S>(p: D.Setup<S>, v: Wired<S>, step: D.Step): (r: Wired<S>)
    requires Sized(p, v)
    ensures Sized(p, r)
  {
    match step
    case Send(data) =>
      var (a, y) := SendData(p.Own(), v.a, data);
      v.(a := a, ab := v.ab + (if y.Goes() then T.Sent(T.Data(y.data)) else []), sentA := v.sentA + [data])
    case Receive =>
      if v.ab == [] then v
      else
        var (report, rest) := T.ParseFrame(v.ab);
        v.(ab := rest, b := if 0 < report.code < T.FSIZE_LIMIT then ReceiveFrame(p.Peer(), v.b, report.data).0 else v.b)
  }

  function Apply<S>(p: D.Setup<S>, v: Wired<S>, m: D.Move): (r: Wired<S>)
    requires Sized(p, v)
    ensures Sized(p, r)
  {
    if m.fromA then Forward(p, v, m.step) else Swap(Forward(p.Mirror(), Swap(v), m.step))
  }

  function Run<S>(p: D.Setup<S>, v: Wired<S>, moves: seq<D.Move>): (r: Wired<S>)
    requires Sized(p, v)
    ensures Sized(p, r)
    decreases |moves|
  {
    if moves == [] then v else Run(p, Apply(p, v, moves[0]), moves[1..])
  }

  function Start<S>(sa: seq<S>, sb: seq<S>): Wired<S> {
    Wired(End(sa, 0, 0, 0, 0, []), End(sb, 0, 0, 0, 0, []), [], [], [], [])
  }

  /* ---------- the frames of a stream ---------- */

  function Frames<S>(q: seq<D.Flight<S>>): (r: seq<T.Frame>)
    ensures |r| == |q|
  {
    seq(|q|, i requires 0 <= i < |q| => T.Data(q[i].wire))
  }

  /** Every frame is one that the reader accepts. */
  predicate Fitting<S>(q: seq<D.Flight<S>>) {
    forall i :: 0 <= i < |q| ==> 0 < |q[i].wire| <= T.FRAME_SIZE + T.FRAME_OVERHEAD
  }

  lemma {:induction false} SentAllAppend(fs: seq<T.Frame>, f: T.Frame)
    ensures T.SentAll(fs + [f]) == T.SentAll(fs) + T.Sent(f)
    decreases |fs|
  {
    hide T.Sent;
    if fs == [] {
      assert (fs + [f])[1..] == [];
    } else {
      assert (fs + [f])[1..] == fs[1..] + [f];
      SentAllAppend(fs[1..], f);
    }
  }

  /** The first frame of a stream is read whole. */
  lemma FirstFrame<S>(q: seq<D.Flight<S>>)
    requires Fitting(q) && q != []
    ensures var s := T.SentAll(Frames(q));
      s != [] && T.ParseFrame(s) == (T.Report(|q[0].wire|, q[0].wire), T.SentAll(Frames(q[1..])))
  {
    hide T.ParseFrame;
    assert Frames(q)[1..] == Frames(q[1..]);
    T.FrameRoundTrip(T.Data(q[0].wire), T.SentAll(Frames(q[1..])));
  }

  /** Frames and bytes agree. */
  ghost predicate Refines<S>(w: D.World<S>, v: Wired<S>) {
    && v.a == w.a && v.b == w.b && v.sentA == w.sentA && v.sentB == w.sentB
    && v.ab == T.SentAll(Frames(w.ab)) && v.ba == T.SentAll(Frames(w.ba))
    && Fitting(w.ab) && Fitting(w.ba)
  }

  /** What a stack makes of a packet that fits the device's buffer fits a frame. */
  ghost predicate Bounded<S(!new)>(cs: seq<Codec<S>>) {
    forall ss: seq<S>, x: bytes {:trigger Down(cs, ss, Data(x))} ::
      |ss| == |cs| && x != [] && |x| <= T.FRAME_SIZE && Down(cs, ss, Data(x)).1.Goes() ==>
        |Down(cs, ss, Data(x)).1.data| <= T.FRAME_SIZE + T.FRAME_OVERHEAD
  }

  lemma ForwardRefines<S(!new)>(p: D.Setup<S>, w: D.World<S>, v: Wired<S>, step: D.Step)
    requires D.Sized(p, w) && Refines(w, v) && Bounded(p.Own())
    requires step.Send? ==> step.data != [] && |step.data| <= T.FRAME_SIZE
    ensures Refines(D.Forward(p, w, step), Forward(p, v, step))
  {
    hide Down, Up, T.ParseFrame, T.Sent, T.SentAll;
    match step {
      case Send(data) =>
        var y := Down(p.Own(), w.a.states, Data(data)).1;
        var w' := D.Forward(p, w, step);
        if y.Goes() {
          SentAllAppend(Frames(w.ab), T.Data(y.data));
          assert Frames(w'.ab) == Frames(w.ab) + [T.Data(y.data)];
        } else {
          assert w'.ab == w.ab && v.ab + [] == v.ab;
        }
      case Receive =>
        if w.ab == [] {
          assert Frames(w.ab) == [];
          NothingSent();
        } else {
          FirstFrame(w.ab);
        }
    }
  }

  lemma NothingSent()
    ensures T.SentAll([]) == []
  {
  }

  lemma {:induction false} RunRefines<S(!new)>(p: D.Setup<S>, w: D.World<S>, v: Wired<S>, moves: seq<D.Move>)
    requires D.Sized(p, w) && Refines(w, v) && Bounded(p.Own()) && Bounded(p.Peer())
    requires forall m :: m in moves && m.step.Send? ==> m.step.data != [] && |m.step.data| <= T.FRAME_SIZE
    ensures Refines(D.Run(p, w, moves), Run(p, v, moves))
    decreases |moves|
  {
    if moves != [] {
      hide D.Forward, Forward, Bounded, Fitting;
      var m := moves[0];
      assert p.Mirror().Own() == p.Peer() && p.Mirror().Peer() == p.Own();
      if m.fromA {
        ForwardRefines(p, w, v, m.step);
      } else {
        ForwardRefines(p.Mirror(), D.Swap(w), Swap(v), m.step);
      }
      RunRefines(p, D.Apply(p, w, m), Apply(p, v, m), moves[1..]);
    }
  }

  /** What each end has written is a prefix of what its peer sent; once no bytes are under way it is all of it,
      and the counters agree. */
  ghost predicate Conserved<S>(v: Wired<S>) {
    && v.b.got <= v.sentA && v.a.got <= v.sentB
    && (v.ab == [] ==> v.b.got == v.sentA && v.a.compOut == v.b.compIn && v.a.byteOut == v.b.byteIn)
    && (v.ba == [] ==> v.a.got == v.sentB && v.b.compOut == v.a.compIn && v.b.byteOut == v.a.byteIn)
  }

  lemma NoneUnderWay<S>(q: seq<D.Flight<S>>)
    requires Fitting(q)
    ensures T.SentAll(Frames(q)) == [] ==> q == []
  {
    if q != [] {
      FirstFrame(q);
    }
  }

  lemma RefinedIsConserved<S>(w: D.World<S>, v: Wired<S>)
    requires Refines(w, v) && D.Conserved(w)
    ensures Conserved(v)
  {
    hide T.SentAll;
    NoneUnderWay(w.ab);
    NoneUnderWay(w.ba);
  }

  /** Main result: over every interleaving at both ends, with one byte stream each way between them. */
  lemma StreamConserves<S(!new)>(p: D.Setup<S>, sa: seq<S>, sb: seq<S>, moves: seq<D.Move>)
    requires D.ValidSetup(p) && |sa| == |p.Own()| && |sb| == |p.Peer()|
    requires D.Sync(p.laws, sa, sb) && D.Sync(p.laws, sb, sa) && Bounded(p.Own()) && Bounded(p.Peer())
    requires forall m :: m in moves && m.step.Send? ==> m.step.data != [] && |m.step.data| <= T.FRAME_SIZE
    ensures Conserved(Run(p, Start(sa, sb), moves))
  {
    hide D.Run, Run, D.ValidSetup, D.Sync, Bounded, Conserved, D.Conserved;
    var w, v := D.Start(sa, sb), Start(sa, sb);
    NothingSent();
    assert Frames(w.ab) == [] && Frames(w.ba) == [];
    assert Refines(w, v);
    D.LinkConserves(p, sa, sb, moves);
    RunRefines(p, w, v, moves);
    hide Refines;
    RefinedIsConserved(D.Run(p, w, moves), Run(p, v, moves));
  }
}
