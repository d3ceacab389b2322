/** Losing and regaining synchronisation: every loss is announced, and once the channels stop losing
    packets both directions are in step again after a bounded number of exchanges. */
module Recovery {
  import opened Bytes
  import opened BlockCipher
  import opened PacketCodec
  import opened PacketLaws
  import opened Duplex
  import opened Lossy
  import opened EncBuf

  /* ---------- every loss is announced ---------- */

  /** Decoding a packet of whole blocks is one case of receiving any packet. */
  lemma DecodeIsReceive(c: Cipher, f: State, wire: bytes, t0: int, t1: int)
    requires Valid(c, f) && WellSized(c, wire)
    ensures DecodePacket(c, f, wire, t0, t1).0 == Receive(c, f, SeenIn(c, f, wire), t0, t1)
  {
    hide EcbDecrypt, Decrypt, Unpad, Gibberish;
    if c.mode.ECB? && wire != [] {
      assert wire[0..] == wire;
    }
  }

  /** What a decryptor may do to the state, for every packet whatever its length and contents: the invariant
      holds; CODE stays; SEQUENCE is only left together with setting REQ_INIT; an encryptor that is to announce
      something keeps that up. */
  lemma ReceiveTransitions(c: Cipher, f: State, o: Seen, t0: int, t1: int)
    requires Valid(c, f) && PossiblySeen(c, o)
    ensures var f' := Receive(c, f, o, t0, t1);
      && Valid(c, f')
      && (f.dec.Code? <==> f'.dec.Code?) && (f.enc.Code? <==> f'.enc.Code?)
      && (f.dec.Sequence? && f'.dec.Init? ==> f.enc.Sequence? && f'.enc.ReqInit? && f'.gibberish == 0)
      && (f.enc.Init? || f.enc.ReqInit? ==> f'.enc.Init? || f'.enc.ReqInit?)
      && (f'.enc.Sequence? ==> f'.encCtx == f.encCtx)
      && (f'.encCtx.Unkeyed? ==> f.encCtx.Unkeyed? || f'.enc.Init?)
      && f'.held == f.held && f'.source == f.source
  {
  }

  datatype Arrival = Arrival(seen: Seen, t0: int, t1: int)

  function ReceiveAll(c: Cipher, f: State, arrivals: seq<Arrival>): (r: State)
    requires Valid(c, f) && forall x :: x in arrivals ==> PossiblySeen(c, x.seen)
    ensures Valid(c, r)
    decreases |arrivals|
  {
    if arrivals == [] then f
    else
      var x := arrivals[0];
      ReceiveTransitions(c, f, x.seen, x.t0, x.t1);
      ReceiveAll(c, Receive(c, f, x.seen, x.t0, x.t1), arrivals[1..])
  }

  /** Arrivals of any kind never withdraw a pending announcement, nor do they touch enc_buf. */
  lemma {:induction false} AnnouncementPends(c: Cipher, f: State, arrivals: seq<Arrival>)
    requires Valid(c, f) && (f.enc.Init? || f.enc.ReqInit?)
    requires forall x :: x in arrivals ==> PossiblySeen(c, x.seen)
    ensures var r := ReceiveAll(c, f, arrivals);
      (r.enc.Init? || r.enc.ReqInit?) && r.held == f.held && r.source == f.source
    decreases |arrivals|
  {
    if arrivals != [] {
      hide Receive;
      var x := arrivals[0];
      ReceiveTransitions(c, f, x.seen, x.t0, x.t1);
      AnnouncementPends(c, Receive(c, f, x.seen, x.t0, x.t1), arrivals[1..]);
    }
  }

  /* ---------- when a packet is asked for ---------- */

  /** A packet that is no header, at an end that waits for one. */
  predicate Garbage(f: State, o: Seen)
    requires |o.head| >= 4
  {
    f.dec.Init? && o.head[..4] != IVEC
  }

  /** The time since the first of the packets being counted, this one included. */
  function Waited(f: State, t0: int, t1: int): int {
    t1 - if f.gibberish == 0 then t0 else f.gibStart
  }

  /** The thresholds: such a packet is counted from the first one on; the tenth, or one two seconds after the first,
      re-initialises the encryptor and starts the count again; the first of a count makes a request. */
  lemma GarbageCounts(c: Cipher, f: State, o: Seen, t0: int, t1: int)
    requires Valid(c, f) && PossiblySeen(c, o) && Garbage(f, o)
    ensures var r := Receive(c, f, o, t0, t1);
      if f.gibberish == 9 || Waited(f, t0, t1) >= 2 then
        r.gibberish == 0 && r.gibStart == 0 && r.enc.Init? && r.encCtx.Unkeyed?
      else
        && r.gibberish == f.gibberish + 1
        && t1 - r.gibStart == Waited(f, t0, t1)
        && r.enc == (if f.gibberish == 0 then ReqInit else f.enc) && r.encCtx == f.encCtx
  {
  }

  /** Arrivals never take the flag for a dummy packet down, and raise it exactly when such a packet is the first of
      its count or completes it. */
  lemma ReceiveAsks(c: Cipher, f: State, o: Seen, t0: int, t1: int)
    requires Valid(c, f) && PossiblySeen(c, o)
    ensures var r := Receive(c, f, o, t0, t1);
      r.sendPacket <==> f.sendPacket || (Garbage(f, o) && (f.gibberish == 0 || r.gibberish == 0))
  {
  }

  /** Over any arrivals, an end that has counted garbage, or has been re-initialised because of it, has the flag up. */
  lemma {:induction false} GarbageAsks(c: Cipher, f: State, arrivals: seq<Arrival>)
    requires Valid(c, f) && (forall x :: x in arrivals ==> PossiblySeen(c, x.seen)) && (f.gibberish > 0 ==> f.sendPacket)
    ensures var r := ReceiveAll(c, f, arrivals);
      && (r.gibberish > 0 ==> r.sendPacket)
      && (f.sendPacket ==> r.sendPacket)
      && (f.dec.Init? && arrivals != [] && Garbage(f, arrivals[0].seen) ==> r.sendPacket)
    decreases |arrivals|
  {
    if arrivals != [] {
      hide Receive;
      var x := arrivals[0];
      ReceiveTransitions(c, f, x.seen, x.t0, x.t1);
      ReceiveAsks(c, f, x.seen, x.t0, x.t1);
      CountsUp(c, f, x.seen, x.t0, x.t1);
      GarbageAsks(c, Receive(c, f, x.seen, x.t0, x.t1), arrivals[1..]);
    }
  }

  lemma CountsUp(c: Cipher, f: State, o: Seen, t0: int, t1: int)
    requires Valid(c, f) && PossiblySeen(c, o)
    ensures var r := Receive(c, f, o, t0, t1); r.gibberish > 0 ==> r.gibberish == f.gibberish || Garbage(f, o)
  {
  }

  /** The packet opens with an "ivec" header under the side-band context, or with "rsyn" under the context the
      sender has. */
  ghost predicate Announces(c: Cipher, e: State, wire: bytes)
    requires Valid(c, e) && WellSized(c, wire) && !c.mode.ECB?
  {
    || EcbDecrypt(c, wire[..2 * c.bs])[..4] == IVEC
    || (e.encCtx.Keyed? && Decrypt(c, c.mode, e.encCtx.reg, wire).0[..4] == RSYN)
  }

  /** A request is to be sent, but under a context that has been cleaned up. */
  predicate Silenced(e: State) {
    e.enc.ReqInit? && e.encCtx.Unkeyed?
  }

  lemma SendAnnounces(c: Cipher, p: Packet)
    requires Genuine(c, p) && (p.before.enc.Init? || p.before.enc.ReqInit?) && !Silenced(p.before)
    ensures After(c, p).enc.Sequence? && Announces(c, p.before, Wire(c, p))
  {
    hide Encrypt, Decrypt, Carried, Padding;
    var e, d := p.before, p.draw;
    var (e1, header) := SendMsg(c, e, d);
    var (e2, tag) := SendInBand(e1);
    var pt := Body(c, tag, e2.seqNum, p.payload, d);
    var ct := EncryptUpdate(c, e2.encCtx, pt, e.held + d.stale).1;
    assert Wire(c, p) == header + ct;
    if e.enc.Init? {
      var ht := IVEC + d.iv + d.tail;
      RoundTrip(c, ECB, NoRegister(c), ht);
      assert (header + ct)[..2 * c.bs] == header && ht[..4] == IVEC;
    } else {
      RoundTrip(c, c.mode, e.encCtx.reg, pt);
      assert header + ct == ct;
    }
  }

  /** The failing case: what goes out is what enc_buf holds.  Unless that starts with an old header nothing is
      announced, and the request is forgotten. */
  lemma SilentPacket(c: Cipher, e: State) returns (p: Packet)
    requires Valid(c, e) && Remembers(c, e) && Silenced(e) && !HoldsHeader(c, e)
    ensures Genuine(c, p) && p.before == e && !Announces(c, e, Wire(c, p))
    ensures After(c, p).enc.Sequence? && After(c, p).encCtx.Unkeyed?
  {
    hide EncodePacket, Encrypt, Decrypt, EcbDecrypt;
    var zeros: bytes := seq(2 * c.bs, _ => 0);
    var junk := EcbEncrypt(c, zeros);
    var draw := Draw(seq(c.bs, _ => 0), seq(c.bs - 4, _ => 0), seq(c.bs - 1, _ => 0), junk + [0]);
    p := Packet(e, [1], draw);
    MuteKeeps(c, e, [1], draw);
    if e.held == [] {
      assert Wire(c, p)[..2 * c.bs] == ([] + (junk + [0]))[..2 * c.bs] == junk;
      ZerosAreNoHeader(c, zeros);
    }
    SilentAfter(c, p);
  }

  lemma ZerosAreNoHeader(c: Cipher, zeros: bytes)
    requires c.Valid() && |zeros| == 2 * c.bs && zeros[0] == 0
    ensures EcbDecrypt(c, EcbEncrypt(c, zeros))[..4] != IVEC
  {
    hide Encrypt, Decrypt;
    RoundTrip(c, ECB, NoRegister(c), zeros);
    assert zeros[..4][0] != IVEC[0];
  }

  lemma SilentAfter(c: Cipher, p: Packet)
    requires Genuine(c, p) && Silenced(p.before)
    ensures After(c, p).enc.Sequence? && After(c, p).encCtx.Unkeyed?
  {
    hide Body, Encrypt;
  }

  /** A pending announcement is made by the next packet, whatever it carries and whatever is drawn for it, exactly
      unless the context of the request has been cleaned up and enc_buf holds no header. */
  lemma AnnouncesExactly(c: Cipher, e: State)
    requires Valid(c, e) && Remembers(c, e) && (e.enc.Init? || e.enc.ReqInit?)
    ensures (forall p {:trigger Genuine(c, p)} :: Genuine(c, p) && p.before == e ==> Announces(c, e, Wire(c, p)))
      <==> !Silenced(e) || HoldsHeader(c, e)
  {
    hide Announces, Wire, After, Genuine;
    if Silenced(e) && !HoldsHeader(c, e) {
      var p := SilentPacket(c, e);
    } else {
      forall p | Genuine(c, p) && p.before == e ensures Announces(c, e, Wire(c, p)) {
        if Silenced(e) {
          HeldAnnounces(c, p);
        } else {
          SendAnnounces(c, p);
        }
      }
    }
  }

  lemma HeldAnnounces(c: Cipher, p: Packet)
    requires Genuine(c, p) && Silenced(p.before) && HoldsHeader(c, p.before)
    ensures Announces(c, p.before, Wire(c, p))
  {
    hide EncodePacket, Decrypt, EcbDecrypt;
    MuteKeeps(c, p.before, p.payload, p.draw);
  }

  /** The state of an end that left SEQUENCE on one arrival, after any later ones. */
  function AfterLoss(c: Cipher, f: State, bad: Arrival, later: seq<Arrival>): (r: State)
    requires Valid(c, f) && PossiblySeen(c, bad.seen) && forall x :: x in later ==> PossiblySeen(c, x.seen)
    ensures Valid(c, r)
  {
    ReceiveTransitions(c, f, bad.seen, bad.t0, bad.t1);
    ReceiveAll(c, Receive(c, f, bad.seen, bad.t0, bad.t1), later)
  }

  /** Main result: whenever a decryptor leaves SEQUENCE, an announcement stays pending whatever arrives, and the
      next packet its end sends makes it, exactly unless the context of the request has been cleaned up and
      enc_buf, which does not change, holds no header. */
  lemma LossIsAnnounced(c: Cipher, f: State, bad: Arrival, later: seq<Arrival>)
    requires Valid(c, f) && Remembers(c, f) && f.dec.Sequence? && PossiblySeen(c, bad.seen)
    requires forall x :: x in later ==> PossiblySeen(c, x.seen)
    requires Receive(c, f, bad.seen, bad.t0, bad.t1).dec.Init?
    ensures var e := AfterLoss(c, f, bad, later);
      && (e.enc.Init? || e.enc.ReqInit?)
      && ((forall p {:trigger Genuine(c, p)} :: Genuine(c, p) && p.before == e ==> Announces(c, e, Wire(c, p)))
          <==> !Silenced(e) || HoldsHeader(c, f))
  {
    hide Receive, ReceiveAll, Announces, Wire, After, Genuine, Silenced, EcbDecrypt, Decrypt;
    ReceiveTransitions(c, f, bad.seen, bad.t0, bad.t1);
    AnnouncementPends(c, Receive(c, f, bad.seen, bad.t0, bad.t1), later);
    StillRemembers(c, f, AfterLoss(c, f, bad, later));
    AnnouncesExactly(c, AfterLoss(c, f, bad, later));
  }

  /** How a context comes to be cleaned up under a request: from the state right after a loss, three packets
      that are no headers, the second of them MAX_GIBBERISH_TIME after the first. */
  lemma RequestSilenced(c: Cipher, f: State, o: Seen)
    requires Valid(c, f) && f.dec.Init? && f.enc.ReqInit? && f.gibberish == 0
    requires PossiblySeen(c, o) && o.head[..4] != IVEC
    ensures Silenced(ReceiveAll(c, f, [Arrival(o, 0, 0), Arrival(o, 2, 2), Arrival(o, 2, 2)]))
  {
    var arrivals := [Arrival(o, 0, 0), Arrival(o, 2, 2), Arrival(o, 2, 2)];
    var last := Arrival(o, 2, 2);
    assert arrivals[1..] == [last, last] && [last, last][1..] == [last] && [last][1..] == [];
    var f1 := Receive(c, f, o, 0, 0);
    ReceiveTransitions(c, f, o, 0, 0);
    var f2 := Receive(c, f1, o, 2, 2);
    ReceiveTransitions(c, f1, o, 2, 2);
    assert f2.enc.Init? && f2.gibberish == 0;
    var f3 := Receive(c, f2, o, 2, 2);
    ReceiveTransitions(c, f2, o, 2, 2);
    hide Receive;
    assert ReceiveAll(c, f, arrivals) == ReceiveAll(c, f1, [last, last]);
    assert ReceiveAll(c, f1, [last, last]) == ReceiveAll(c, f2, [last]) == ReceiveAll(c, f3, []);
  }

  /** Or one such packet before the encryptor has been keyed at all. */
  lemma FirstPacketSilences(c: Cipher, seqNum: nat, o: Seen, t: int)
    requires c.Valid() && !c.mode.ECB? && seqNum < 0x1_0000_0000
    requires PossiblySeen(c, o) && o.head[..4] != IVEC
    ensures Silenced(Receive(c, Allocated(c, seqNum), o, t, t))
  {
  }

  /* ---------- recovery ---------- */

  /** What recovery depends on: phases, gibberish counts, and whether the receiver of each direction is
      in SEQUENCE with the sender's context. */
  datatype Half = Half(enc: Phase, dec: Phase, gibberish: nat)
  datatype Pair = Pair(a: Half, b: Half, ab: bool, ba: bool)

  ghost predicate Synced(e: State, f: State) {
    e.encCtx.Keyed? && f.dec.Sequence? && e.encCtx == f.decCtx
  }

  ghost function Abstract(a: State, b: State): Pair {
    Pair(Half(a.enc, a.dec, a.gibberish), Half(b.enc, b.dec, b.gibberish), Synced(a, b), Synced(b, a))
  }

  predicate Proper(p: Pair) {
    && !p.a.enc.Code? && !p.b.enc.Code?
    && (p.a.dec.Init? || p.a.dec.Sequence?) && (p.b.dec.Init? || p.b.dec.Sequence?)
    && p.a.gibberish < MAX_GIBBERISH && p.b.gibberish < MAX_GIBBERISH
    && (p.ab ==> !p.a.enc.Init? && p.b.dec.Sequence?)
    && (p.ba ==> !p.b.enc.Init? && p.a.dec.Sequence?)
  }

  function Mirror(p: Pair): Pair {
    Pair(p.b, p.a, p.ba, p.ab)
  }

  /** The end a sends and b receives.  `timeout` is the time threshold, `lucky` says whether a context that
      was out of step happens to agree again (as it does in CBC and CFB after one packet). */
  function Hop(p: Pair, timeout: bool, lucky: bool): Pair {
    var a := p.a.(enc := Sequence);
    if p.b.dec.Init? then
      if p.a.enc.Init? then Pair(a, p.b.(dec := Sequence, gibberish := 0), true, false || p.ba)
      else
        var g := p.b.gibberish + 1;
        if g >= MAX_GIBBERISH || (timeout && g > 1) then Pair(a, p.b.(enc := Init, gibberish := 0), false, false)
        else Pair(a, p.b.(enc := if g == 1 then ReqInit else p.b.enc, gibberish := g), false, p.ba)
    else if p.ab then
      if p.a.enc.ReqInit? then Pair(a, p.b.(enc := Init), true, false) else Pair(a, p.b, true, p.ba)
    else if p.b.enc.Sequence? then Pair(a, p.b.(enc := ReqInit, dec := Init), false, p.ba)
    else Pair(a, p.b, lucky, p.ba)
  }

  predicate Steady(p: Pair) {
    p.a.enc.Sequence? && p.b.enc.Sequence? && p.ab && p.ba
  }

  /** An upper bound on the exchanges still needed. */
  function Rank(p: Pair): (r: nat)
    requires Proper(p)
    ensures r <= 2 * MAX_GIBBERISH + 1
  {
    var (ga, gb) := (p.a.gibberish, p.b.gibberish);
    if Steady(p) then 0
    else if p.a.dec.Init? && p.b.dec.Init? then
      if p.a.enc.Init? then (if p.b.enc.Init? then 1 else if ga == 0 then 2 else 22 - ga)
      else if p.b.enc.Init? then (if gb == 0 then 12 - ga else 22 - gb)
      else 12 - (if ga > gb then ga else gb)
    else if p.a.dec.Init? then
      if p.ab then (if p.a.enc.ReqInit? || p.b.enc.Init? then 1 else if ga == 0 then 2 else 22 - ga)
      else if p.b.enc.Init? then 3
      else if p.b.enc.Sequence? || ga == 0 then 12 - ga
      else 22 - ga
    else if p.b.dec.Init? then
      if p.a.enc.Init? then (if !p.ba then 2 else if p.b.enc.ReqInit? then 3 else 1)
      else if p.ba then (if gb == 0 then 2 else if p.b.enc.Sequence? then 22 - gb else 13)
      else if gb == 0 then 12 else 13
    else if !p.ab && !p.ba then 13
    else if p.b.enc.ReqInit? && p.ba && !(p.a.enc.ReqInit? && p.ab) then 3
    else 2
  }

  function Round(p: Pair, timeout1: bool, lucky1: bool, timeout2: bool, lucky2: bool): Pair {
    Mirror(Hop(Mirror(Hop(p, timeout1, lucky1)), timeout2, lucky2))
  }

  lemma RankDropsBothLost(p: Pair, timeout1: bool, lucky1: bool, timeout2: bool, lucky2: bool)
    requires Proper(p) && p.a.dec.Init? && p.b.dec.Init?
    ensures var q := Round(p, timeout1, lucky1, timeout2, lucky2); Proper(q) && Rank(q) < Rank(p)
  {
  }

  lemma RankDropsOneLost(p: Pair, timeout1: bool, lucky1: bool, timeout2: bool, lucky2: bool)
    requires Proper(p) && p.a.dec.Init? != p.b.dec.Init?
    ensures var q := Round(p, timeout1, lucky1, timeout2, lucky2); Proper(q) && Rank(q) < Rank(p)
  {
  }

  lemma RankDropsNoneLost(p: Pair, timeout1: bool, lucky1: bool, timeout2: bool, lucky2: bool)
    requires Proper(p) && p.a.dec.Sequence? && p.b.dec.Sequence?
    ensures var q := Round(p, timeout1, lucky1, timeout2, lucky2);
      Proper(q) && if Steady(p) then Steady(q) else Rank(q) < Rank(p)
  {
  }

  /** One exchange brings an unsteady pair strictly closer, and leaves a steady pair steady. */
  lemma RankDrops(p: Pair, timeout1: bool, lucky1: bool, timeout2: bool, lucky2: bool)
    requires Proper(p)
    ensures var q := Round(p, timeout1, lucky1, timeout2, lucky2);
      Proper(q) && if Steady(p) then Steady(q) else Rank(q) < Rank(p)
  {
    hide Round, Rank;
    if p.a.dec.Init? && p.b.dec.Init? {
      RankDropsBothLost(p, timeout1, lucky1, timeout2, lucky2);
    } else if p.a.dec.Sequence? && p.b.dec.Sequence? {
      RankDropsNoneLost(p, timeout1, lucky1, timeout2, lucky2);
    } else {
      RankDropsOneLost(p, timeout1, lucky1, timeout2, lucky2);
    }
  }

  /** One packet from a to b and its reading; t0 and t1 are b's two clock readings. */
  datatype Passage = Passage(payload: bytes, draw: Draw, t0: int, t1: int)

  /** The packet is one that is sent, and the delivery satisfies the assumption about chance. */
  ghost predicate Honest(c: Cipher, a: State, b: State, x: Passage)
    requires Valid(c, a) && Valid(c, b)
  {
    ValidDraw(c, x.payload, x.draw) && x.payload != [] && NoFalseTag(c, b, Packet(a, x.payload, x.draw))
  }

  /** The two clock readings of one call are less than MAX_GIBBERISH_TIME apart. */
  predicate Brief(x: Passage) {
    x.t1 - x.t0 < MAX_GIBBERISH_TIME
  }

  /** The call is brief if it may be the one that counts a first packet of gibberish. */
  predicate Timely(b: State, x: Passage) {
    b.dec.Init? && b.gibberish == 0 ==> Brief(x)
  }

  function Pass(c: Cipher, a: State, b: State, x: Passage): (r: (State, State))
    requires Valid(c, a) && Valid(c, b) && ValidDraw(c, x.payload, x.draw) && x.payload != []
    ensures Valid(c, r.0) && Valid(c, r.1)
  {
    EncodeKeepsValid(c, a, x.payload, x.draw);
    PacketSize(c, a, x.payload, x.draw);
    var (a', wire) := EncodePacket(c, a, x.payload, x.draw);
    (a', DecodePacket(c, b, wire, x.t0, x.t1).0)
  }

  /** The concrete passage of a packet is a hop of the abstract pair. */
  lemma PassIsHop(c: Cipher, a: State, b: State, x: Passage) returns (timeout: bool, lucky: bool)
    requires Valid(c, a) && Valid(c, b) && !c.mode.ECB? && Honest(c, a, b, x) && Timely(b, x) && !Replays(a, b)
    ensures var (a', b') := Pass(c, a, b, x);
      Abstract(a', b') == Hop(Abstract(a, b), timeout, lucky)
  {
    hide EncodePacket, DecodePacket, NoFalseTag;
    var p := Packet(a, x.payload, x.draw);
    var (a', b') := Pass(c, a, b, x);
    EncodeKeepsValid(c, a, x.payload, x.draw);
    timeout := x.t1 - b.gibStart >= MAX_GIBBERISH_TIME;
    lucky := Synced(a', b');
    if InStep(c, a, b) {
      ReadInStep(c, a, b, x.payload, x.draw, x.t0, x.t1);
    } else {
      var reg := ReadOutOfStep(c, b, p, x.t0, x.t1);
    }
  }

  /** One packet each way. */
  datatype Exchange = Exchange(there: Passage, back: Passage)

  ghost predicate HonestExchange(c: Cipher, a: State, b: State, x: Exchange)
    requires Valid(c, a) && Valid(c, b)
  {
    && Honest(c, a, b, x.there)
    && var (a1, b1) := Pass(c, a, b, x.there);
       Honest(c, b1, a1, x.back)
  }

  ghost predicate TimelyExchange(c: Cipher, a: State, b: State, x: Exchange)
    requires Valid(c, a) && Valid(c, b) && HonestExchange(c, a, b, x)
  {
    Timely(b, x.there) && Timely(Pass(c, a, b, x.there).0, x.back)
  }

  /** Neither packet is a replay. */
  ghost predicate FreshExchange(c: Cipher, a: State, b: State, x: Exchange)
    requires Valid(c, a) && Valid(c, b) && HonestExchange(c, a, b, x)
  {
    !Replays(a, b) && var (a1, b1) := Pass(c, a, b, x.there); !Replays(b1, a1)
  }

  function Swapped(c: Cipher, a: State, b: State, x: Exchange): (r: (State, State))
    requires Valid(c, a) && Valid(c, b)
    requires ValidDraw(c, x.there.payload, x.there.draw) && x.there.payload != []
    requires ValidDraw(c, x.back.payload, x.back.draw) && x.back.payload != []
    ensures Valid(c, r.0) && Valid(c, r.1)
  {
    var (a1, b1) := Pass(c, a, b, x.there);
    var (b2, a2) := Pass(c, b1, a1, x.back);
    (a2, b2)
  }

  lemma ExchangeRanked(c: Cipher, a: State, b: State, x: Exchange)
    requires Valid(c, a) && Valid(c, b) && !c.mode.ECB? && HonestExchange(c, a, b, x)
    requires TimelyExchange(c, a, b, x) && FreshExchange(c, a, b, x)
    ensures Proper(Abstract(a, b))
    ensures var (a', b') := Swapped(c, a, b, x);
      var (p, q) := (Abstract(a, b), Abstract(a', b'));
      Proper(q) && if Steady(p) then Steady(q) else Rank(q) < Rank(p)
  {
    var (a1, b1) := Pass(c, a, b, x.there);
    var t1, l1 := PassIsHop(c, a, b, x.there);
    var t2, l2 := PassIsHop(c, b1, a1, x.back);
    hide Pass, Hop, Rank;
    assert Abstract(a1, b1) == Mirror(Abstract(b1, a1));
    RankDrops(Abstract(a, b), t1, l1, t2, l2);
  }

  ghost predicate HonestRun(c: Cipher, a: State, b: State, xs: seq<Exchange>)
    requires Valid(c, a) && Valid(c, b)
    decreases |xs|
  {
    xs == [] || (HonestExchange(c, a, b, xs[0]) &&
                 var (a', b') := Swapped(c, a, b, xs[0]);
                 HonestRun(c, a', b', xs[1..]))
  }

  function SwappedAll(c: Cipher, a: State, b: State, xs: seq<Exchange>): (r: (State, State))
    requires Valid(c, a) && Valid(c, b) && HonestRun(c, a, b, xs)
    ensures Valid(c, r.0) && Valid(c, r.1)
    decreases |xs|
  {
    if xs == [] then (a, b)
    else
      var (a', b') := Swapped(c, a, b, xs[0]);
      SwappedAll(c, a', b', xs[1..])
  }

  ghost predicate TimelyRun(c: Cipher, a: State, b: State, xs: seq<Exchange>)
    requires Valid(c, a) && Valid(c, b) && HonestRun(c, a, b, xs)
    decreases |xs|
  {
    xs == [] || (TimelyExchange(c, a, b, xs[0]) &&
                 var (a', b') := Swapped(c, a, b, xs[0]);
                 TimelyRun(c, a', b', xs[1..]))
  }

  ghost predicate FreshRun(c: Cipher, a: State, b: State, xs: seq<Exchange>)
    requires Valid(c, a) && Valid(c, b) && HonestRun(c, a, b, xs)
    decreases |xs|
  {
    xs == [] || (FreshExchange(c, a, b, xs[0]) &&
                 var (a', b') := Swapped(c, a, b, xs[0]);
                 FreshRun(c, a', b', xs[1..]))
  }

  lemma NoExchange(c: Cipher, a: State, b: State)
    requires Valid(c, a) && Valid(c, b)
    ensures HonestRun(c, a, b, []) && SwappedAll(c, a, b, []) == (a, b)
  {
  }

  /** A run by its first exchange. */
  lemma FirstExchange(c: Cipher, a: State, b: State, xs: seq<Exchange>)
    requires Valid(c, a) && Valid(c, b) && xs != [] && HonestExchange(c, a, b, xs[0])
    ensures ValidDraw(c, xs[0].there.payload, xs[0].there.draw) && xs[0].there.payload != []
    ensures ValidDraw(c, xs[0].back.payload, xs[0].back.draw) && xs[0].back.payload != []
    ensures var (a', b') := Swapped(c, a, b, xs[0]);
      && (HonestRun(c, a, b, xs) <==> HonestRun(c, a', b', xs[1..]))
      && (HonestRun(c, a, b, xs) ==> SwappedAll(c, a, b, xs) == SwappedAll(c, a', b', xs[1..]))
  {
    hide Swapped, NoFalseTag;
  }

  lemma HonestFirst(c: Cipher, a: State, b: State, xs: seq<Exchange>)
    requires Valid(c, a) && Valid(c, b) && xs != [] && HonestRun(c, a, b, xs)
    ensures HonestExchange(c, a, b, xs[0])
  {
    hide HonestExchange;
  }

  lemma TimelyFirst(c: Cipher, a: State, b: State, xs: seq<Exchange>)
    requires Valid(c, a) && Valid(c, b) && xs != [] && HonestRun(c, a, b, xs) && TimelyRun(c, a, b, xs)
    requires HonestExchange(c, a, b, xs[0])
    ensures TimelyExchange(c, a, b, xs[0])
    ensures ValidDraw(c, xs[0].there.payload, xs[0].there.draw) && xs[0].there.payload != []
    ensures ValidDraw(c, xs[0].back.payload, xs[0].back.draw) && xs[0].back.payload != []
    ensures var (a', b') := Swapped(c, a, b, xs[0]); HonestRun(c, a', b', xs[1..]) && TimelyRun(c, a', b', xs[1..])
  {
    hide Swapped, TimelyExchange;
  }

  lemma FreshFirst(c: Cipher, a: State, b: State, xs: seq<Exchange>)
    requires Valid(c, a) && Valid(c, b) && xs != [] && HonestRun(c, a, b, xs) && FreshRun(c, a, b, xs)
    requires HonestExchange(c, a, b, xs[0])
    ensures FreshExchange(c, a, b, xs[0])
    ensures ValidDraw(c, xs[0].there.payload, xs[0].there.draw) && xs[0].there.payload != []
    ensures ValidDraw(c, xs[0].back.payload, xs[0].back.draw) && xs[0].back.payload != []
    ensures var (a', b') := Swapped(c, a, b, xs[0]); HonestRun(c, a', b', xs[1..]) && FreshRun(c, a', b', xs[1..])
  {
    hide Swapped, FreshExchange;
  }

  lemma ProperPair(c: Cipher, a: State, b: State)
    requires Valid(c, a) && Valid(c, b) && !c.mode.ECB?
    ensures Proper(Abstract(a, b)) && Rank(Abstract(a, b)) <= 2 * MAX_GIBBERISH + 1
  {
  }

  lemma {:induction false} RecoversByRank(c: Cipher, a: State, b: State, xs: seq<Exchange>)
    requires Valid(c, a) && Valid(c, b) && !c.mode.ECB? && HonestRun(c, a, b, xs)
    requires TimelyRun(c, a, b, xs) && FreshRun(c, a, b, xs)
    requires Proper(Abstract(a, b)) && (Steady(Abstract(a, b)) || Rank(Abstract(a, b)) <= |xs|)
    ensures var (a', b') := SwappedAll(c, a, b, xs); Steady(Abstract(a', b'))
    decreases |xs|
  {
    if xs == [] {
      NoExchange(c, a, b);
    } else {
      hide Swapped, HonestExchange, TimelyExchange, FreshExchange, HonestRun, TimelyRun, FreshRun, SwappedAll, Rank, Abstract, Proper, Steady;
      HonestFirst(c, a, b, xs);
      FirstExchange(c, a, b, xs);
      TimelyFirst(c, a, b, xs);
      FreshFirst(c, a, b, xs);
      ExchangeRanked(c, a, b, xs[0]);
      var (a', b') := Swapped(c, a, b, xs[0]);
      RecoversByRank(c, a', b', xs[1..]);
    }
  }

  /** A steady pair stays steady whatever the clock says: nobody counts gibberish, and no context is cleaned up. */
  lemma SteadyIsTimely(c: Cipher, a: State, b: State, x: Exchange)
    requires Valid(c, a) && Valid(c, b) && !c.mode.ECB? && HonestExchange(c, a, b, x) && Steady(Abstract(a, b))
    ensures TimelyExchange(c, a, b, x) && FreshExchange(c, a, b, x)
  {
    hide EncodePacket, DecodePacket, NoFalseTag;
    var t, l := PassIsHop(c, a, b, x.there);
  }

  lemma {:induction false} StaysSteady(c: Cipher, a: State, b: State, xs: seq<Exchange>)
    requires Valid(c, a) && Valid(c, b) && !c.mode.ECB? && HonestRun(c, a, b, xs) && Steady(Abstract(a, b))
    ensures var (a', b') := SwappedAll(c, a, b, xs); Steady(Abstract(a', b'))
    decreases |xs|
  {
    if xs != [] {
      hide Swapped, HonestExchange, TimelyExchange, FreshExchange, HonestRun, SwappedAll, Rank, Abstract, Proper, Steady;
      HonestFirst(c, a, b, xs);
      FirstExchange(c, a, b, xs);
      SteadyIsTimely(c, a, b, xs[0]);
      ExchangeRanked(c, a, b, xs[0]);
      var (a', b') := Swapped(c, a, b, xs[0]);
      StaysSteady(c, a', b', xs[1..]);
    }
  }

  /** A run in two parts. */
  lemma {:induction false} SplitRun(c: Cipher, a: State, b: State, xs: seq<Exchange>, k: nat)
    requires Valid(c, a) && Valid(c, b) && k <= |xs| && HonestRun(c, a, b, xs)
    ensures HonestRun(c, a, b, xs[..k])
    ensures var (a', b') := SwappedAll(c, a, b, xs[..k]);
      HonestRun(c, a', b', xs[k..]) && SwappedAll(c, a, b, xs) == SwappedAll(c, a', b', xs[k..])
    decreases k
  {
    hide *;
    if k == 0 {
      assert xs[0..] == xs && xs[..0] == [];
      NoExchange(c, a, b);
    } else {
      HonestFirst(c, a, b, xs);
      FirstExchange(c, a, b, xs);
      FirstExchange(c, a, b, xs[..k]);
      var (a', b') := Swapped(c, a, b, xs[0]);
      SplitRun(c, a', b', xs[1..], k - 1);
      assert xs[..k][1..] == xs[1..][..k - 1] && xs[k..] == xs[1..][k - 1..];
    }
  }

  lemma Slices(xs: seq<Exchange>, i: nat, j: nat)
    requires i <= j <= |xs|
    ensures xs[i..][..j - i] == xs[i..j] && xs[i..][j - i..] == xs[j..]
  {
  }

  /** Both ends are in SEQUENCE, and each decryptor holds its peer's context. */
  ghost predicate Recovered(c: Cipher, a: State, b: State) {
    && a.enc.Sequence? && a.dec.Sequence? && b.enc.Sequence? && b.dec.Sequence?
    && a.encCtx == b.decCtx && b.encCtx == a.decCtx
    && InStep(c, a, b) && InStep(c, b, a)
  }

  lemma SteadyIsRecovered(c: Cipher, a: State, b: State)
    requires Steady(Abstract(a, b))
    ensures Recovered(c, a, b)
  {
  }

  /** Main result: from every pair of valid states, however long the calls and whatever happens before, the
      exchanges i to j of a run in which nothing is lost, if they are timely, contain no replay and are at least
      2 * MAX_GIBBERISH + 1, leave both encryptors in SEQUENCE and both decryptors with their peer's context, and that remains so
      however long the calls are later. */
  lemma Recovers(c: Cipher, a: State, b: State, xs: seq<Exchange>, i: nat, j: nat)
    requires Valid(c, a) && Valid(c, b) && !c.mode.ECB? && HonestRun(c, a, b, xs) && i <= j <= |xs|
    ensures HonestRun(c, a, b, xs[..i])
    ensures var (a1, b1) := SwappedAll(c, a, b, xs[..i]);
      && HonestRun(c, a1, b1, xs[i..j])
      && (TimelyRun(c, a1, b1, xs[i..j]) && FreshRun(c, a1, b1, xs[i..j]) && j - i >= 2 * MAX_GIBBERISH + 1 ==>
          var (a', b') := SwappedAll(c, a, b, xs); Recovered(c, a', b'))
  {
    hide *;
    SplitRun(c, a, b, xs, i);
    var (a1, b1) := SwappedAll(c, a, b, xs[..i]);
    SplitRun(c, a1, b1, xs[i..], j - i);
    Slices(xs, i, j);
    if TimelyRun(c, a1, b1, xs[i..j]) && FreshRun(c, a1, b1, xs[i..j]) && j - i >= 2 * MAX_GIBBERISH + 1 {
      ProperPair(c, a1, b1);
      RecoversByRank(c, a1, b1, xs[i..j]);
      var (a2, b2) := SwappedAll(c, a1, b1, xs[i..j]);
      StaysSteady(c, a2, b2, xs[j..]);
      SteadyIsRecovered(c, SwappedAll(c, a, b, xs).0, SwappedAll(c, a, b, xs).1);
    }
  }

  /* ---------- which pairs never replay ---------- */

  /** Before a sends to b: no packet is held under a cleaned-up context that a will use, or that b may come to use
      before it sends. */
  predicate Clean(a: State, b: State) {
    (Mute(a) ==> a.source.Memory?) && (b.encCtx.Unkeyed? ==> b.source.Memory?)
  }

  /** Such a passage is no replay, and the pair is clean for the packet that goes back. */
  lemma PassKeepsClean(c: Cipher, a: State, b: State, x: Passage)
    requires Valid(c, a) && Valid(c, b) && ValidDraw(c, x.payload, x.draw) && x.payload != [] && Clean(a, b)
    ensures !Replays(a, b) && var (a', b') := Pass(c, a, b, x); Clean(b', a')
  {
    PacketSize(c, a, x.payload, x.draw);
    var wire := EncodePacket(c, a, x.payload, x.draw).1;
    DecodeIsReceive(c, b, wire, x.t0, x.t1);
    ReceiveTransitions(c, b, SeenIn(c, b, wire), x.t0, x.t1);
    SenderStaysClean(c, a, x.payload, x.draw);
    hide EncodePacket, DecodePacket, Receive;
  }

  lemma SenderStaysClean(c: Cipher, a: State, payload: bytes, d: Draw)
    requires Valid(c, a) && ValidDraw(c, payload, d) && payload != [] && (Mute(a) ==> a.source.Memory?)
    ensures var a' := EncodePacket(c, a, payload, d).0; a'.encCtx.Unkeyed? ==> a'.source.Memory?
  {
    hide Body, Encrypt;
  }

  lemma ExchangeKeepsClean(c: Cipher, a: State, b: State, x: Exchange)
    requires Valid(c, a) && Valid(c, b) && HonestExchange(c, a, b, x) && Clean(a, b)
    ensures FreshExchange(c, a, b, x)
    ensures var (a', b') := Swapped(c, a, b, x); Clean(a', b')
  {
    var (a1, b1) := Pass(c, a, b, x.there);
    hide Pass, NoFalseTag, Replays;
    PassKeepsClean(c, a, b, x.there);
    PassKeepsClean(c, b1, a1, x.back);
  }

  lemma {:induction false} CleanIsFresh(c: Cipher, a: State, b: State, xs: seq<Exchange>)
    requires Valid(c, a) && Valid(c, b) && HonestRun(c, a, b, xs) && Clean(a, b)
    ensures FreshRun(c, a, b, xs)
    decreases |xs|
  {
    if xs != [] {
      hide Swapped, HonestExchange, FreshExchange, HonestRun, Clean;
      HonestFirst(c, a, b, xs);
      FirstExchange(c, a, b, xs);
      ExchangeKeepsClean(c, a, b, xs[0]);
      var (a', b') := Swapped(c, a, b, xs[0]);
      CleanIsFresh(c, a', b', xs[1..]);
    }
  }

  /** So from a clean pair nothing but the clock matters. */
  lemma CleanRecovers(c: Cipher, a: State, b: State, xs: seq<Exchange>)
    requires Valid(c, a) && Valid(c, b) && !c.mode.ECB? && HonestRun(c, a, b, xs) && Clean(a, b)
    ensures TimelyRun(c, a, b, xs) && |xs| >= 2 * MAX_GIBBERISH + 1 ==>
      var (a', b') := SwappedAll(c, a, b, xs); Recovered(c, a', b')
  {
    hide *;
    CleanIsFresh(c, a, b, xs);
    NoExchange(c, a, b);
    assert xs[..0] == [] && xs[0..|xs|] == xs;
    Recovers(c, a, b, xs, 0, |xs|);
  }

  /* ---------- what a lost header needs ---------- */

  /** a's header was lost: b waits for one and has counted nothing yet, and a does not know. */
  predicate HeaderLost(a: State, b: State) {
    b.dec.Init? && b.gibberish == 0 && (a.enc.Sequence? || a.enc.ReqInit?) && a.encCtx.Keyed?
  }

  /** One exchange leaves that as it is exactly if b's call is not brief: then the first packet of gibberish
      already re-initialises b's encryptor, and a is not asked for a new header. */
  lemma HeaderStaysLost(c: Cipher, a: State, b: State, x: Exchange)
    requires Valid(c, a) && Valid(c, b) && !c.mode.ECB? && HonestExchange(c, a, b, x)
    requires HeaderLost(a, b)
    ensures HeaderLost(Swapped(c, a, b, x).0, Swapped(c, a, b, x).1) <==> !Brief(x.there)
  {
    hide EncodePacket, DecodePacket, NoFalseTag;
    var (a1, b1) := Pass(c, a, b, x.there);
    EncodeKeepsValid(c, a, x.there.payload, x.there.draw);
    var r1 := ReadOutOfStep(c, b, Packet(a, x.there.payload, x.there.draw), x.there.t0, x.there.t1);
    assert b1.dec.Init? && (if Brief(x.there) then b1.gibberish == 1 else b1.enc.Init? && b1.gibberish == 0);
    SenderKeepsContext(c, a, x.there);
    SenderKeepsContext(c, b1, x.back);
    if !Brief(x.there) {
      if InStep(c, b1, a1) {
        ReadInStep(c, b1, a1, x.back.payload, x.back.draw, x.back.t0, x.back.t1);
      } else {
        var r2 := ReadOutOfStep(c, a1, Packet(b1, x.back.payload, x.back.draw), x.back.t0, x.back.t1);
      }
    }
  }

  lemma SenderKeepsContext(c: Cipher, e: State, x: Passage)
    requires Valid(c, e) && ValidDraw(c, x.payload, x.draw) && x.payload != []
    ensures var e' := EncodePacket(c, e, x.payload, x.draw).0;
      && e'.dec == e.dec && e'.gibberish == e.gibberish
      && (e.encCtx.Keyed? ==> e'.encCtx.Keyed? && (e.enc.Sequence? || e.enc.ReqInit? ==> e'.enc.Sequence?))
  {
    hide Body, Encrypt;
  }

  /** It is so before the run and after each of its exchanges. */
  ghost predicate LostThroughout(c: Cipher, a: State, b: State, xs: seq<Exchange>)
    requires Valid(c, a) && Valid(c, b) && HonestRun(c, a, b, xs)
    decreases |xs|
  {
    HeaderLost(a, b) &&
    (xs == [] ||
     var (a', b') := Swapped(c, a, b, xs[0]);
     LostThroughout(c, a', b', xs[1..]))
  }

  lemma LostNow(c: Cipher, a: State, b: State)
    requires Valid(c, a) && Valid(c, b)
    ensures HonestRun(c, a, b, []) && (LostThroughout(c, a, b, []) <==> HeaderLost(a, b))
  {
  }

  lemma LostFirst(c: Cipher, a: State, b: State, xs: seq<Exchange>)
    requires Valid(c, a) && Valid(c, b) && xs != [] && HonestRun(c, a, b, xs) && HonestExchange(c, a, b, xs[0])
    ensures ValidDraw(c, xs[0].there.payload, xs[0].there.draw) && xs[0].there.payload != []
    ensures ValidDraw(c, xs[0].back.payload, xs[0].back.draw) && xs[0].back.payload != []
    ensures var (a', b') := Swapped(c, a, b, xs[0]);
      && HonestRun(c, a', b', xs[1..])
      && (LostThroughout(c, a, b, xs) <==> HeaderLost(a, b) && LostThroughout(c, a', b', xs[1..]))
      && (LostThroughout(c, a', b', xs[1..]) ==> HeaderLost(a', b'))
  {
    hide Swapped, HeaderLost;
  }

  /** So a lost header stays lost throughout a run exactly if none of b's calls is brief. */
  lemma {:induction false} LostExactly(c: Cipher, a: State, b: State, xs: seq<Exchange>)
    requires Valid(c, a) && Valid(c, b) && !c.mode.ECB? && HonestRun(c, a, b, xs) && HeaderLost(a, b)
    ensures LostThroughout(c, a, b, xs) <==> forall x :: x in xs ==> !Brief(x.there)
    decreases |xs|
  {
    hide *;
    if xs == [] {
      LostNow(c, a, b);
    } else {
      HonestFirst(c, a, b, xs);
      LostFirst(c, a, b, xs);
      HeaderStaysLost(c, a, b, xs[0]);
      var (a', b') := Swapped(c, a, b, xs[0]);
      assert xs == [xs[0]] + xs[1..];
      if !Brief(xs[0].there) {
        LostExactly(c, a', b', xs[1..]);
      }
    }
  }
}
