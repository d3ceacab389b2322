/** Two ends between which one header was lost, and two runs of packets that differ in nothing but the clock: one
    recovers, the other never does. */
module Clockwork {
  import opened Bytes
  import opened BlockCipher
  import opened PacketCodec
  import opened PacketLaws
  import opened Duplex
  import opened Lossy
  import opened Recovery
  import opened InTheClear

  /** A one-byte packet, with the two readings of the clock by its receiver. */
  function Ping(t0: int, t1: int): Passage {
    Passage([1], ZeroDraw([1]), t0, t1)
  }

  /** A ping satisfies the assumption about chance, and leaves both ends plain. */
  lemma PingIsHonest(a: State, b: State, t0: int, t1: int)
    requires Plain(a) && Plain(b)
    ensures Honest(Identity(), a, b, Ping(t0, t1))
    ensures var (a', b') := Pass(Identity(), a, b, Ping(t0, t1)); Plain(a') && Plain(b')
  {
    hide EncodePacket, DecodePacket, Plain, NoFalseTag;
    var p := Packet(a, [1], ZeroDraw([1]));
    PlainValid(a);
    PlainValid(b);
    PacketStart(p);
    SimpleIsHonest(b, p);
    ClearDecode(b, Wire(Identity(), p), t0, t1);
  }

  lemma PlainValid(e: State)
    requires Plain(e)
    ensures Valid(Identity(), e)
  {
  }

  /** A ping each way, from time t on; the call at b lasts `long` seconds. */
  function PingPong(t: int, long: nat): Exchange {
    Exchange(Ping(t, t + long), Ping(t + long, t + long))
  }

  /** n of them, each beginning when the one before is over. */
  function PingPongs(n: nat, t: int, long: nat): (xs: seq<Exchange>)
    ensures |xs| == n
    ensures forall x :: x in xs ==> x.there.t1 - x.there.t0 == long && x.back.t1 == x.back.t0
    decreases n
  {
    if n == 0 then [] else [PingPong(t, long)] + PingPongs(n - 1, t + long, long)
  }

  lemma {:induction false} PingPongsAreHonest(a: State, b: State, n: nat, t: int, long: nat)
    requires Plain(a) && Plain(b)
    ensures Valid(Identity(), a) && Valid(Identity(), b) && HonestRun(Identity(), a, b, PingPongs(n, t, long))
    decreases n
  {
    hide Pass, Honest, Plain;
    PlainValid(a);
    PlainValid(b);
    if n == 0 {
      NoExchange(Identity(), a, b);
    } else {
      var xs := PingPongs(n, t, long);
      PingIsHonest(a, b, t, t + long);
      var (a1, b1) := Pass(Identity(), a, b, Ping(t, t + long));
      PingIsHonest(b1, a1, t + long, t + long);
      FirstExchange(Identity(), a, b, xs);
      var (a', b') := Swapped(Identity(), a, b, xs[0]);
      PingPongsAreHonest(a', b', n - 1, t + long, long);
    }
  }

  lemma {:induction false} BriefIsTimely(c: Cipher, a: State, b: State, xs: seq<Exchange>)
    requires Valid(c, a) && Valid(c, b) && HonestRun(c, a, b, xs)
    requires forall x :: x in xs ==> Brief(x.there) && Brief(x.back)
    ensures TimelyRun(c, a, b, xs)
    decreases |xs|
  {
    if xs != [] {
      hide Swapped, HonestExchange, HonestRun;
      HonestFirst(c, a, b, xs);
      FirstExchange(c, a, b, xs);
      var (a', b') := Swapped(c, a, b, xs[0]);
      BriefIsTimely(c, a', b', xs[1..]);
    }
  }

  /** Both ends as allocated, and a's first packet lost. */
  function Sender(): (a: State)
    ensures Plain(a) && a.enc.Sequence? && a.encCtx.Keyed?
  {
    var p := Packet(Allocated(Identity(), 0), [1], ZeroDraw([1]));
    PacketStart(p);
    EncodeKeepsValid(Identity(), p.before, p.payload, p.draw);
    SenderIsKeyed(Identity(), p);
    After(Identity(), p)
  }

  function Receiver(): (b: State)
    ensures Plain(b) && b.dec.Init? && b.gibberish == 0 && b.source.Memory?
  {
    Allocated(Identity(), 0)
  }

  /** The same packets, over n exchanges, on a clock that never goes back: if b's calls take no time both ends
      recover within 21 of them; if each lasts MAX_GIBBERISH_TIME the header stays lost. */
  lemma ClockDecides(n: nat)
    ensures HonestRun(Identity(), Sender(), Receiver(), PingPongs(n, 0, 0))
    ensures n >= 2 * MAX_GIBBERISH + 1 ==>
      var (a, b) := SwappedAll(Identity(), Sender(), Receiver(), PingPongs(n, 0, 0)); Recovered(Identity(), a, b)
    ensures HonestRun(Identity(), Sender(), Receiver(), PingPongs(n, 0, MAX_GIBBERISH_TIME))
    ensures LostThroughout(Identity(), Sender(), Receiver(), PingPongs(n, 0, MAX_GIBBERISH_TIME))
  {
    hide HonestRun, TimelyRun, SwappedAll, LostThroughout, Sender, Receiver, Recovered, Plain;
    var c, a, b, xs := Identity(), Sender(), Receiver(), PingPongs(n, 0, 0);
    PingPongsAreHonest(a, b, n, 0, 0);
    BriefIsTimely(c, a, b, xs);
    CleanRecovers(c, a, b, xs);
    PingPongsAreHonest(a, b, n, 0, MAX_GIBBERISH_TIME);
    LostExactly(c, a, b, PingPongs(n, 0, MAX_GIBBERISH_TIME));
  }
}
