/** The module stack of the linker (linkfd.c): a doubly linked list, run down from head to tail on what is
    sent and up from tail to head on what is received. */
module ModStack {
  import opened Bytes

  datatype Option<+T> = None | Some(value: T)

  /** What a module returns: a length of -1, or data. */
  datatype Coded = Failed | Data(data: bytes) {
    /** The loops go on while len > 0. */
    predicate Goes() { Data? && data != [] }
  }

  /** The encode and decode entries of a module, either of which may be NULL; each sees the module's state. */
  datatype Codec<!S> = Codec(encode: Option<(S, bytes) -> (S, Coded)>, decode: Option<(S, bytes) -> (S, Coded)>)

  function Encode<S>(c: Codec<S>, s: S, x: bytes): (S, Coded) {
    if c.encode.None? then (s, Data(x)) else c.encode.value(s, x)
  }

  function Decode<S>(c: Codec<S>, s: S, x: bytes): (S, Coded) {
    if c.decode.None? then (s, Data(x)) else c.decode.value(s, x)
  }

  /** Down the stack: the new states and what goes to the network. */
  function Down<S>(cs: seq<Codec<S>>, ss: seq<S>, x: Coded): (r: (seq<S>, Coded))
    requires |cs| == |ss|
    ensures |r.0| == |ss|
    decreases |cs|
  {
    if cs == [] || !x.Goes() then (ss, x)
    else
      var (s, y) := Encode(cs[0], ss[0], x.data);
      var (rest, z) := Down(cs[1..], ss[1..], y);
      ([s] + rest, z)
  }

  /** Up the stack: the modules nearer the tail come first. */
  function Up<S>(cs: seq<Codec<S>>, ss: seq<S>, x: Coded): (r: (seq<S>, Coded))
    requires |cs| == |ss|
    ensures |r.0| == |ss|
    decreases |cs|
  {
    if cs == [] then (ss, x)
    else
      var (rest, y) := Up(cs[1..], ss[1..], x);
      if !y.Goes() then ([ss[0]] + rest, y)
      else
        var (s, z) := Decode(cs[0], ss[0], y.data);
        ([s] + rest, z)
  }

  /** The loop of lfd_run_down has passed i modules, leaving `states` and `out`. */
  ghost predicate DownAt<S(!new)>(cs: seq<Codec<S>>, ss: seq<S>, x: Coded, i: int, states: seq<S>, out: Coded) {
    && 0 <= i <= |cs| == |ss| == |states| && states[i..] == ss[i..]
    && var (rest, z) := Down(cs[i..], ss[i..], out);
       Down(cs, ss, x) == (states[..i] + rest, z)
  }

  lemma DownStep<S(!new)>(cs: seq<Codec<S>>, ss: seq<S>, x: Coded, i: int, states: seq<S>, out: Coded)
    requires DownAt(cs, ss, x, i, states, out) && i < |cs| && out.Goes()
    ensures states[i] == ss[i]
    ensures var (s, y) := Encode(cs[i], states[i], out.data); DownAt(cs, ss, x, i + 1, states[i := s], y)
  {
    hide Encode;
    assert states[i] == states[i..][0] == ss[i..][0] == ss[i];
    var (s, y) := Encode(cs[i], ss[i], out.data);
    assert cs[i..][1..] == cs[i + 1..] && ss[i..][1..] == ss[i + 1..];
    var states' := states[i := s];
    assert states'[i + 1..] == states[i..][1..] == ss[i + 1..];
    var (rest, z) := Down(cs[i + 1..], ss[i + 1..], y);
    assert states[..i] + ([s] + rest) == states'[..i + 1] + rest;
  }

  lemma DownEnd<S(!new)>(cs: seq<Codec<S>>, ss: seq<S>, x: Coded, i: int, states: seq<S>, out: Coded)
    requires DownAt(cs, ss, x, i, states, out) && (i == |cs| || !out.Goes())
    ensures Down(cs, ss, x) == (states, out)
  {
    assert states[..i] + states[i..] == states;
  }

  /** The loop of lfd_run_up has i modules left. */
  ghost predicate UpAt<S(!new)>(cs: seq<Codec<S>>, ss: seq<S>, x: Coded, i: int, states: seq<S>, out: Coded) {
    && 0 <= i <= |cs| == |ss| == |states| && states[..i] == ss[..i]
    && Up(cs[i..], ss[i..], x) == (states[i..], out)
  }

  lemma UpStep<S(!new)>(cs: seq<Codec<S>>, ss: seq<S>, x: Coded, i: int, states: seq<S>, out: Coded)
    requires UpAt(cs, ss, x, i, states, out) && i > 0
    ensures states[i - 1] == ss[i - 1]
    ensures !out.Goes() ==> UpAt(cs, ss, x, i - 1, states, out)
    ensures out.Goes() ==>
      var (s, y) := Decode(cs[i - 1], states[i - 1], out.data); UpAt(cs, ss, x, i - 1, states[i - 1 := s], y)
  {
    hide Decode;
    var k := i - 1;
    assert states[k] == states[..i][k] == ss[..i][k] == ss[k];
    assert cs[k..][1..] == cs[i..] && ss[k..][1..] == ss[i..];
    assert states[..k] == states[..i][..k] == ss[..k];
    if out.Goes() {
      var s := Decode(cs[k], ss[k], out.data).0;
      assert states[k := s][k..] == [s] + states[i..] && states[k := s][..k] == states[..k];
    } else {
      assert states[k..] == [ss[k]] + states[i..];
    }
  }

  /** What is left when nothing goes on does not change on the way up. */
  lemma {:induction false} UpEnd<S(!new)>(cs: seq<Codec<S>>, ss: seq<S>, x: Coded, i: int, states: seq<S>, out: Coded)
    requires UpAt(cs, ss, x, i, states, out) && (i == 0 || !out.Goes())
    ensures Up(cs, ss, x) == (states, out)
  {
    if i == 0 {
      assert cs[0..] == cs && ss[0..] == ss && states[0..] == states;
    } else {
      UpStep(cs, ss, x, i, states, out);
      UpEnd(cs, ss, x, i - 1, states, out);
    }
  }

  /* ---------- the linked list ---------- */

  class LfdMod<S(!new)> {
    const codec: Codec<S>
    var state: S
    var next: LfdMod?<S>
    var prev: LfdMod?<S>

    constructor (codec: Codec<S>, state: S)
      ensures this.codec == codec && this.state == state
    {
      this.codec, this.state, next, prev := codec, state, null, null;
    }
  }

  class LfdList<S(!new)> {
    var head: LfdMod?<S>
    var tail: LfdMod?<S>
    ghost var mods: seq<LfdMod<S>>

    /** Walking next from the head visits mods, and walking prev from the tail visits them in reverse. */
    ghost predicate Valid()
      reads this, mods
    {
      && (forall i, j :: 0 <= i < j < |mods| ==> mods[i] != mods[j])
      && head == (if mods == [] then null else mods[0])
      && tail == (if mods == [] then null else mods[|mods| - 1])
      && (forall i :: 0 <= i < |mods| - 1 ==> mods[i].next == mods[i + 1] && mods[i + 1].prev == mods[i])
      && (mods != [] ==> mods[0].prev == null && mods[|mods| - 1].next == null)
    }

    ghost function Codecs(): (r: seq<Codec<S>>)
      reads this
      ensures |r| == |mods|
    {
      seq(|mods|, i requires 0 <= i < |mods| reads this => mods[i].codec)
    }

    ghost function States(): (r: seq<S>)
      reads this, mods
      ensures |r| == |mods|
    {
      seq(|mods|, i requires 0 <= i < |mods| reads this, mods => mods[i].state)
    }

    constructor ()
      ensures Valid() && mods == []
    {
      head, tail, mods := null, null, [];
    }

    /** lfd_add_mod */
    method AddMod(mod: LfdMod<S>)
      requires Valid() && mod !in mods
      modifies this, mods, mod
      ensures Valid() && mods == old(mods) + [mod]
      ensures forall m :: m in mods ==> m.state == old(m.state)
    {
      if head == null {
        head, tail := mod, mod;
        mod.next, mod.prev := null, null;
      } else {
        tail.next := mod;
        mod.prev := tail;
        mod.next := null;
        tail := mod;
      }
      mods := mods + [mod];
    }

    /** The body of the loop: modules without an entry are passed over. */
    method EncodeOne(mod: LfdMod<S>, input: bytes) returns (out: Coded)
      modifies mod`state
      ensures (mod.state, out) == Encode(mod.codec, old(mod.state), input)
    {
      out := Data(input);
      if mod.codec.encode.Some? {
        var (s, y) := mod.codec.encode.value(mod.state, input);
        mod.state := s;
        out := y;
      }
    }

    method DecodeOne(mod: LfdMod<S>, input: bytes) returns (out: Coded)
      modifies mod`state
      ensures (mod.state, out) == Decode(mod.codec, old(mod.state), input)
    {
      out := Data(input);
      if mod.codec.decode.Some? {
        var (s, y) := mod.codec.decode.value(mod.state, input);
        mod.state := s;
        out := y;
      }
    }

    /** lfd_run_down */
    method RunDown(input: bytes) returns (out: Coded)
      requires Valid()
      modifies mods`state
      ensures Valid()
      ensures (States(), out) == Down(Codecs(), old(States()), Data(input))
    {
      hide Down, DownAt, Encode;
      out := Data(input);
      var mod := head;
      ghost var i, cs, ss := 0, Codecs(), States();
      DownStart(cs, ss, out);
      while mod != null && out.Goes()
        invariant Valid() && 0 <= i <= |mods| && mod == (if i < |mods| then mods[i] else null)
        invariant DownAt(cs, ss, Data(input), i, States(), out)
        decreases |mods| - i
      {
        DownStep(cs, ss, Data(input), i, States(), out);
        ghost var before := States();
        out := EncodeOne(mod, out.data);
        assert States() == before[i := mod.state];
        mod := mod.next;
        i := i + 1;
      }
      DownEnd(cs, ss, Data(input), i, States(), out);
    }

    /** lfd_run_up */
    method RunUp(input: bytes) returns (out: Coded)
      requires Valid()
      modifies mods`state
      ensures Valid()
      ensures (States(), out) == Up(Codecs(), old(States()), Data(input))
    {
      hide Up, UpAt, Decode;
      out := Data(input);
      var mod := tail;
      ghost var i, cs, ss := |mods|, Codecs(), States();
      UpStart(cs, ss, out);
      while mod != null && out.Goes()
        invariant Valid() && 0 <= i <= |mods| && mod == (if i > 0 then mods[i - 1] else null)
        invariant UpAt(cs, ss, Data(input), i, States(), out)
        decreases i
      {
        UpStep(cs, ss, Data(input), i, States(), out);
        ghost var before := States();
        out := DecodeOne(mod, out.data);
        assert States() == before[i - 1 := mod.state];
        mod := mod.prev;
        i := i - 1;
      }
      UpEnd(cs, ss, Data(input), i, States(), out);
    }
  }

  lemma DownStart<S(!new)>(cs: seq<Codec<S>>, ss: seq<S>, x: Coded)
    requires |cs| == |ss|
    ensures DownAt(cs, ss, x, 0, ss, x)
  {
    assert cs[0..] == cs && ss[0..] == ss;
    assert ss[..0] + Down(cs, ss, x).0 == Down(cs, ss, x).0;
  }

  lemma UpStart<S(!new)>(cs: seq<Codec<S>>, ss: seq<S>, x: Coded)
    requires |cs| == |ss|
    ensures UpAt(cs, ss, x, |cs|, ss, x)
  {
  }

  /* ---------- running up undoes running down ---------- */

  /** The law of a module, relative to a relation that says when the decoding state is in step with the
      encoding one: what is encoded is not empty, decodes to what it was, and leaves the states in step. */
  ghost predicate Matching<S(!new)>(c: Codec<S>, sync: (S, S) -> bool) {
    forall e: S, d: S, x: bytes {:trigger sync(e, d), Encode(c, e, x)} :: sync(e, d) && x != [] ==>
      var (e', y) := Encode(c, e, x);
      y.Goes() && var (d', z) := Decode(c, d, y.data); z == Data(x) && sync(e', d')
  }

  ghost predicate AllMatching<S(!new)>(cs: seq<Codec<S>>, syncs: seq<(S, S) -> bool>) {
    |syncs| == |cs| && forall i :: 0 <= i < |cs| ==> Matching(cs[i], syncs[i])
  }

  ghost predicate InSync<S(!new)>(syncs: seq<(S, S) -> bool>, es: seq<S>, ds: seq<S>) {
    |syncs| == |es| == |ds| && forall i :: 0 <= i < |syncs| ==> syncs[i](es[i], ds[i])
  }

  lemma {:induction false} UpUndoesDown<S(!new)>(cs: seq<Codec<S>>, syncs: seq<(S, S) -> bool>,
                                                  es: seq<S>, ds: seq<S>, x: bytes)
    requires AllMatching(cs, syncs) && InSync(syncs, es, ds) && x != []
    ensures var (es', y) := Down(cs, es, Data(x));
      y.Goes() && var (ds', z) := Up(cs, ds, y); z == Data(x) && InSync(syncs, es', ds')
    decreases |cs|
  {
    if cs != [] {
      hide Encode, Decode;
      assert Matching(cs[0], syncs[0]) && syncs[0](es[0], ds[0]);
      var (e', y) := Encode(cs[0], es[0], x);
      UpUndoesDown(cs[1..], syncs[1..], es[1..], ds[1..], y.data);
      assert y == Data(y.data);
    }
  }

  /** Packets going down one after the other. */
  function DownAll<S>(cs: seq<Codec<S>>, ss: seq<S>, xs: seq<bytes>): (r: (seq<S>, seq<Coded>))
    requires |cs| == |ss|
    ensures |r.0| == |ss| && |r.1| == |xs|
    decreases |xs|
  {
    if xs == [] then (ss, [])
    else
      var (ss', y) := Down(cs, ss, Data(xs[0]));
      var (ss'', ys) := DownAll(cs, ss', xs[1..]);
      (ss'', [y] + ys)
  }

  /** Packets going up one after the other. */
  function UpAll<S>(cs: seq<Codec<S>>, ss: seq<S>, ys: seq<Coded>): (r: (seq<S>, seq<Coded>))
    requires |cs| == |ss|
    ensures |r.0| == |ss| && |r.1| == |ys|
    decreases |ys|
  {
    if ys == [] then (ss, [])
    else
      var (ss', z) := Up(cs, ss, ys[0]);
      var (ss'', zs) := UpAll(cs, ss', ys[1..]);
      (ss'', [z] + zs)
  }

  function AllData(xs: seq<bytes>): (r: seq<Coded>)
    ensures |r| == |xs|
  {
    seq(|xs|, i requires 0 <= i < |xs| => Data(xs[i]))
  }

  /** Over a FIFO: when the receiver has handled the first k of the packets sent, it has exactly the first k. */
  lemma {:induction false} FifoIdentity<S(!new)>(cs: seq<Codec<S>>, syncs: seq<(S, S) -> bool>,
                                                  es: seq<S>, ds: seq<S>, xs: seq<bytes>, k: nat)
    requires AllMatching(cs, syncs) && InSync(syncs, es, ds) && k <= |xs| && forall i :: 0 <= i < |xs| ==> xs[i] != []
    ensures UpAll(cs, ds, DownAll(cs, es, xs).1[..k]).1 == AllData(xs[..k])
    decreases |xs|
  {
    if k > 0 {
      assert |cs| == |es| == |ds|;
      hide Down, Up, AllMatching;
      UpUndoesDown(cs, syncs, es, ds, xs[0]);
      var (es', y) := Down(cs, es, Data(xs[0]));
      var ds' := Up(cs, ds, y).0;
      FifoIdentity(cs, syncs, es', ds', xs[1..], k - 1);
      var ys := DownAll(cs, es, xs).1[..k];
      assert ys[1..] == DownAll(cs, es', xs[1..]).1[..k - 1];
      assert AllData(xs[..k]) == [Data(xs[0])] + AllData(xs[1..][..k - 1]);
    }
  }

  /* ---------- a pass-through module at the tail ---------- */

  /** The shaper: it counts on the way down, and has no entry for the way up. */
  ghost predicate PassesThrough<S(!new)>(c: Codec<S>) {
    c.decode.None? && forall s: S, x: bytes :: Encode(c, s, x).1 == Data(x)
  }

  lemma {:induction false} DownPastTail<S(!new)>(cs: seq<Codec<S>>, ss: seq<S>, c: Codec<S>, s: S, x: Coded)
    requires |cs| == |ss| && PassesThrough(c)
    ensures Down(cs + [c], ss + [s], x).1 == Down(cs, ss, x).1
    ensures Down(cs + [c], ss + [s], x).0[..|ss|] == Down(cs, ss, x).0
    decreases |cs|
  {
    hide Encode;
    if cs == [] {
      assert (cs + [c])[1..] == [] && (ss + [s])[1..] == [];
    } else if x.Goes() {
      assert (cs + [c])[1..] == cs[1..] + [c] && (ss + [s])[1..] == ss[1..] + [s];
      DownPastTail(cs[1..], ss[1..], c, s, Encode(cs[0], ss[0], x.data).1);
    }
  }

  lemma {:induction false} UpPastTail<S(!new)>(cs: seq<Codec<S>>, ss: seq<S>, c: Codec<S>, s: S, x: Coded)
    requires |cs| == |ss| && PassesThrough(c)
    ensures Up(cs + [c], ss + [s], x).1 == Up(cs, ss, x).1
    ensures Up(cs + [c], ss + [s], x).0[..|ss|] == Up(cs, ss, x).0
    decreases |cs|
  {
    if cs == [] {
      assert (cs + [c])[1..] == [] && (ss + [s])[1..] == [];
    } else {
      hide Decode;
      assert (cs + [c])[1..] == cs[1..] + [c] && (ss + [s])[1..] == ss[1..] + [s];
      UpPastTail(cs[1..], ss[1..], c, s, x);
    }
  }

  /* ---------- order ---------- */

  /** What goes down passes the module nearer the head first, what comes up the one nearer the tail; a module that
      fails or hands over nothing is the last to see a packet. */
  lemma TwoModules<S>(c1: Codec<S>, c2: Codec<S>, s1: S, s2: S, x: bytes)
    requires x != []
    ensures var (t1, y) := Encode(c1, s1, x);
      Down([c1, c2], [s1, s2], Data(x)) ==
        if !y.Goes() then ([t1, s2], y) else ([t1, Encode(c2, s2, y.data).0], Encode(c2, s2, y.data).1)
    ensures var (t2, z) := Decode(c2, s2, x);
      Up([c1, c2], [s1, s2], Data(x)) ==
        if !z.Goes() then ([s1, t2], z) else ([Decode(c1, s1, z.data).0, t2], Decode(c1, s1, z.data).1)
  {
    hide Encode, Decode, Down, Up;
    var cs, ss := [c1, c2], [s1, s2];
    assert cs[1..] == [c2] && ss[1..] == [s2];
    var t1, y := Encode(c1, s1, x).0, Encode(c1, s1, x).1;
    DownHead(cs, ss, x);
    OneModule(c2, s2, y);
    assert Down(cs, ss, Data(x)) == ([t1] + Down([c2], [s2], y).0, Down([c2], [s2], y).1);
    assert [t1] + [s2] == [t1, s2];
    if y.Goes() {
      assert [t1] + [Encode(c2, s2, y.data).0] == [t1, Encode(c2, s2, y.data).0];
    }
    UpHead(cs, ss, Data(x));
    OneModule(c2, s2, Data(x));
    var t2, z := Decode(c2, s2, x).0, Decode(c2, s2, x).1;
    assert Up([c2], [s2], Data(x)) == ([t2], z);
    if z.Goes() {
      assert [Decode(c1, s1, z.data).0] + [t2] == [Decode(c1, s1, z.data).0, t2];
    } else {
      assert [s1] + [t2] == [s1, t2];
    }
  }

  lemma OneModule<S>(c: Codec<S>, s: S, x: Coded)
    ensures Down([c], [s], x) == if !x.Goes() then ([s], x) else ([Encode(c, s, x.data).0], Encode(c, s, x.data).1)
    ensures Up([c], [s], x) == if !x.Goes() then ([s], x) else ([Decode(c, s, x.data).0], Decode(c, s, x.data).1)
  {
    var cs, ss := [c], [s];
    UpHead(cs, ss, x);
    NoModules(cs[1..], ss[1..], x);
    if x.Goes() {
      DownHead(cs, ss, x.data);
      NoModules(cs[1..], ss[1..], Encode(c, s, x.data).1);
      assert Data(x.data) == x;
      assert [Encode(c, s, x.data).0] + [] == [Encode(c, s, x.data).0];
      assert [Decode(c, s, x.data).0] + [] == [Decode(c, s, x.data).0];
    } else {
      assert [s] + [] == [s];
    }
  }

  lemma NoModules<S>(cs: seq<Codec<S>>, ss: seq<S>, x: Coded)
    requires |cs| == |ss| == 0
    ensures Down(cs, ss, x) == ([], x) && Up(cs, ss, x) == ([], x)
  {
  }

  lemma DownHead<S>(cs: seq<Codec<S>>, ss: seq<S>, x: bytes)
    requires |cs| == |ss| > 0 && x != []
    ensures var (s, y) := Encode(cs[0], ss[0], x);
      var (rest, z) := Down(cs[1..], ss[1..], y);
      Down(cs, ss, Data(x)) == ([s] + rest, z)
  {
  }

  lemma UpHead<S>(cs: seq<Codec<S>>, ss: seq<S>, x: Coded)
    requires |cs| == |ss| > 0
    ensures var (rest, y) := Up(cs[1..], ss[1..], x);
      Up(cs, ss, x) == if !y.Goes() then ([ss[0]] + rest, y)
                       else ([Decode(cs[0], ss[0], y.data).0] + rest, Decode(cs[0], ss[0], y.data).1)
  {
  }
}
