/** The tunnel of a host that encrypts and does not compress, with nothing left open but the ciphers, the random
    bytes and the clock: from the handshake to the frames on the byte streams. */
module EncryptedTunnel {
  import opened Bytes
  import opened ModStack
  import opened E = EndToEnd
  import D = FullDuplex
  import S = StreamLink
  import T = Framing
  import BC = BlockCipher
  import PC = PacketCodec
  import PL = PacketLaws
  import L = Legacy
  import F = Flags
  import H = Handshake

  /** The ciphers by number, keyed; the random bytes of each, the clock, and what the counters start from. */
  datatype Machine = Machine(cipher: int -> BC.Cipher, legacy: BC.Cipher, draw: int -> (PC.State, bytes) -> PC.Draw,
                             clock: (PC.State, bytes) -> (int, int), seqA: nat, seqB: nat)

  ghost predicate Working(m: Machine) {
    && (forall n {:trigger m.cipher(n)} :: m.cipher(n).Valid() && (m.cipher(n).mode.ECB? || 4 + m.cipher(n).ulong <= m.cipher(n).bs))
    && m.legacy.Valid() && m.legacy.bs == L.BLOCK
    && (forall n: int, e: PC.State, x: bytes {:trigger m.draw(n)(e, x)} :: PC.ValidDraw(m.cipher(n), x, m.draw(n)(e, x)))
    && m.seqA < 0x1_0000_0000 && m.seqB < 0x1_0000_0000
  }

  /** The legacy cipher keeps no state; neither do modules that are not in use, and the shaper changes no data. */
  ghost function Codecs(m: Machine, k: Kind): Codec<PC.State>
    requires Working(m)
  {
    match k
    case Zlib => Codec(None, None)
    case Lzo => Codec(None, None)
    case LegacyEncryptor => LegacyCodec(m.legacy)
    case Encryptor(n) => EncryptorCodec(m.cipher(n), m.draw(n), m.clock)
    case Shaper => Codec(Some((s: PC.State, x: bytes) => (s, Data(x))), None)
  }

  ghost function Laws(m: Machine, k: Kind): D.Law<PC.State> {
    if k.Encryptor? then EncryptorLaw(m.cipher(k.cipher)) else Stateless()
  }

  function States(m: Machine, k: Kind, seqNum: nat): PC.State
    requires m.cipher(if k.Encryptor? then k.cipher else 0).Valid() && seqNum < 0x1_0000_0000
  {
    PC.Allocated(m.cipher(if k.Encryptor? then k.cipher else 0), seqNum)
  }

  ghost function CodecOf(m: Machine): Kind -> Codec<PC.State>
    requires Working(m)
  {
    k => Codecs(m, k)
  }

  ghost function LawOf(m: Machine): Kind -> D.Law<PC.State> {
    k => Laws(m, k)
  }

  ghost function StateOf(m: Machine, seqNum: nat): Kind -> PC.State
    requires Working(m) && seqNum < 0x1_0000_0000
  {
    k => States(m, k, seqNum)
  }

  lemma MachineIsLawful(m: Machine)
    requires Working(m)
    ensures E.Lawful(CodecOf(m), LawOf(m), StateOf(m, m.seqA), StateOf(m, m.seqB))
  {
    hide D.Lawful, PassesThrough, EncryptorCodec, EncryptorLaw;
    ShaperPasses(m);
    forall k: Kind | k != Shaper
      ensures D.Lawful(Codecs(m, k), Laws(m, k))
      ensures Laws(m, k).sync(States(m, k, m.seqA), States(m, k, m.seqB))
      ensures Laws(m, k).sync(States(m, k, m.seqB), States(m, k, m.seqA))
    {
      match k
      case Zlib => IdleIsLawful(Codecs(m, k));
      case Lzo => IdleIsLawful(Codecs(m, k));
      case LegacyEncryptor => LegacyIsLawful<PC.State>(m.legacy);
      case Encryptor(n) =>
        assert forall e: PC.State, x: bytes {:trigger m.draw(n)(e, x)} :: PC.ValidDraw(m.cipher(n), x, m.draw(n)(e, x));
        EncryptorIsLawful(m.cipher(n), m.draw(n), m.clock);
        EncryptorStarts(m.cipher(n), m.seqA, m.seqB);
        EncryptorStarts(m.cipher(n), m.seqB, m.seqA);
    }
  }

  lemma ShaperPasses(m: Machine)
    requires Working(m)
    ensures PassesThrough(Codecs(m, Shaper))
  {
  }

  lemma IdleIsLawful(c: Codec<PC.State>)
    requires c.encode.None? && c.decode.None?
    ensures D.Lawful(c, Stateless())
  {
  }

  /* ---------- every packet fits a frame ---------- */

  predicate Uncompressed(h: F.Host) {
    !h.Has(F.ZLIB) && !h.Has(F.LZO)
  }

  /** A transforming module on one packet of the device. */
  lemma EncryptedFits(m: Machine, k: Kind, s: PC.State, x: bytes)
    requires Working(m) && (k.LegacyEncryptor? || k.Encryptor?) && x != [] && |x| <= T.FRAME_SIZE
    ensures var y := Encode(Codecs(m, k), s, x).1; y.Goes() ==> |y.data| <= T.FRAME_SIZE + T.FRAME_OVERHEAD
  {
    hide PC.EncodePacket, L.Seal;
    match k
    case LegacyEncryptor => LegacyFits(m.legacy, x);
    case Encryptor(n) =>
      var c, d := m.cipher(n), m.draw(n)(s, x);
      if PC.Valid(c, s) && PC.ValidDraw(c, x, d) {
        PL.PacketSize(c, s, x, d);
      }
  }

  lemma LegacyFits(c: BC.Cipher, x: bytes)
    requires c.Valid() && c.bs == L.BLOCK
    ensures |L.Seal(c, x)| <= |x| + 8
  {
  }

  lemma StackFits(m: Machine, h: F.Host)
    requires Working(m) && Uncompressed(h)
    ensures S.Bounded(Each(Core(h), CodecOf(m)) + Tail(h, CodecOf(m)))
  {
    hide Codecs, F.Host.Has, PassesThrough;
    var cs, t := Each(Core(h), CodecOf(m)), Tail(h, CodecOf(m));
    ShaperPasses(m);
    assert D.IsTail(t);
    forall ss: seq<PC.State>, x: bytes | |ss| == |cs + t| && x != [] && |x| <= T.FRAME_SIZE && Down(cs + t, ss, Data(x)).1.Goes()
      ensures |Down(cs + t, ss, Data(x)).1.data| <= T.FRAME_SIZE + T.FRAME_OVERHEAD
    {
      D.DownTail(cs, t, ss, Data(x));
      if |cs| > 0 {
        EncryptedFits(m, Core(h)[0], ss[0], x);
        OnlyModule(cs, ss[..1], x);
      }
    }
  }

  lemma OnlyModule(cs: seq<Codec<PC.State>>, ss: seq<PC.State>, x: bytes)
    requires |cs| == |ss| == 1 && x != []
    ensures Down(cs, ss, Data(x)).1 == Encode(cs[0], ss[0], x).1
  {
  }

  /* ---------- the tunnel ---------- */

  /** Main result: a client that is to be admitted by a server that does not compress succeeds, and then, over
      every interleaving of packets of the device's size sent and received at both ends, each end has written a
      prefix of what the other sent; once no bytes are under way it is all of it, and the counters agree. */
  lemma TunnelOverStreams(site: H.Site, me: H.Login, m: Machine, moves: seq<D.Move>)
    requires Agreeable(site, me) && Uncompressed(site.accounts(me.name).host) && Working(m)
    requires forall x :: x in moves && x.step.Send? ==> x.step.data != [] && |x.step.data| <= T.FRAME_SIZE
    ensures var (sv, cl) := H.Handshake(site, me);
      && sv.Granted? && cl.Done? && cl.success
      && var p := Setup(sv.host, cl.host, CodecOf(m), LawOf(m));
         var (sa, sb) := (Each(Stack(sv.host), StateOf(m, m.seqA)), Each(Stack(cl.host), StateOf(m, m.seqB)));
         && Each(Stack(sv.host), CodecOf(m)) == p.Own() && Each(Stack(cl.host), CodecOf(m)) == p.Peer()
         && S.Conserved(S.Run(p, S.Start(sa, sb), moves))
  {
    hide H.Handshake, Agreeable, Core, Stack, E.Lawful, D.ValidSetup, D.Sync, S.Run, S.Conserved, S.Bounded, F.Host.Has;
    HandshakeSucceeds(site, me);
    var (sv, cl) := H.Handshake(site, me);
    var h, r := sv.host, cl.host;
    MachineIsLawful(m);
    SetupIsValid(h, r, CodecOf(m), LawOf(m), StateOf(m, m.seqA), StateOf(m, m.seqB));
    SameCompression(h, r);
    StackFits(m, h);
    StackFits(m, r);
    var p := Setup(h, r, CodecOf(m), LawOf(m));
    S.StreamConserves(p, Each(Stack(h), StateOf(m, m.seqA)), Each(Stack(r), StateOf(m, m.seqB)), moves);
  }

  lemma CompressorsIn(h: F.Host)
    ensures Uncompressed(h) <==> Zlib !in Core(h) && Lzo !in Core(h)
  {
    hide F.Host.Has;
  }

  lemma SameCompression(h: F.Host, r: F.Host)
    requires Core(h) == Core(r) && Uncompressed(h)
    ensures Uncompressed(r)
  {
    hide Core, Uncompressed;
    CompressorsIn(h);
    CompressorsIn(r);
  }
}
