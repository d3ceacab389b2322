/** From the handshake to the data path: both ends build the same stack, and what goes down one comes up
    the other. */
module EndToEnd {
  import opened Bytes
  import opened ModStack
  import BC = BlockCipher
  import PC = PacketCodec
  import PL = PacketLaws
  import L = Legacy
  import F = Flags
  import H = Handshake
  import Framing
  import D = FullDuplex

  /* ---------- the stack a host's flags call for ---------- */

  datatype Kind = Zlib | Lzo | LegacyEncryptor | Encryptor(cipher: int) | Shaper

  /** The modules that transform data, in the order linkfd adds them. */
  function Core(h: F.Host): seq<Kind> {
    (if h.Has(F.ZLIB) then [Zlib] else []) +
    (if h.Has(F.LZO) then [Lzo] else []) +
    (if !h.Has(F.ENCRYPT) then [] else if h.cipher == F.LEGACY_ENCRYPT then [LegacyEncryptor] else [Encryptor(h.cipher)])
  }

  function Stack(h: F.Host): seq<Kind> {
    Core(h) + if h.Has(F.SHAPE) then [Shaper] else []
  }

  /** The place of a module: compression before encryption, and the shaper last. */
  function Place(k: Kind): nat {
    match k
    case Zlib => 0
    case Lzo => 1
    case LegacyEncryptor => 2
    case Encryptor(cipher) => 2
    case Shaper => 3
  }

  /** A host's stack has exactly the modules its flags call for, each once, in the order of their places. */
  lemma StackIs(h: F.Host)
    ensures Zlib in Stack(h) <==> h.flags & 0x0001 != 0
    ensures Lzo in Stack(h) <==> h.flags & 0x0002 != 0
    ensures Shaper in Stack(h) <==> h.flags & 0x0004 != 0
    ensures LegacyEncryptor in Stack(h) <==> h.flags & 0x0008 != 0 && h.cipher == 999
    ensures forall n :: Encryptor(n) in Stack(h) <==> h.flags & 0x0008 != 0 && h.cipher == n != 999
    ensures forall i, j :: 0 <= i < j < |Stack(h)| ==> Place(Stack(h)[i]) < Place(Stack(h)[j])
  {
    FlagBits(h);
    hide F.Host.Has;
    MembersAre(h);
    hide Stack, Core;
    forall n ensures Encryptor(n) in Stack(h) <==> h.flags & 0x0008 != 0 && h.cipher == n != 999 {
    }
    InOrder(h);
  }

  lemma FlagBits(h: F.Host)
    ensures h.Has(F.ZLIB) <==> h.flags & 0x0001 != 0
    ensures h.Has(F.LZO) <==> h.flags & 0x0002 != 0
    ensures h.Has(F.SHAPE) <==> h.flags & 0x0004 != 0
    ensures h.Has(F.ENCRYPT) <==> h.flags & 0x0008 != 0
  {
  }

  lemma MembersAre(h: F.Host)
    ensures forall k :: k in Stack(h) <==>
      match k
      case Zlib => h.Has(F.ZLIB)
      case Lzo => h.Has(F.LZO)
      case LegacyEncryptor => h.Has(F.ENCRYPT) && h.cipher == 999
      case Encryptor(n) => h.Has(F.ENCRYPT) && h.cipher == n != 999
      case Shaper => h.Has(F.SHAPE)
  {
    hide F.Host.Has;
  }

  lemma InOrder(h: F.Host)
    ensures forall i, j :: 0 <= i < j < |Stack(h)| ==> Place(Stack(h)[i]) < Place(Stack(h)[j])
  {
    hide F.Host.Has;
  }

  /** The part of linkfd that builds the stack. */
  method BuildStack<S(!new)>(h: F.Host, codec: Kind -> Codec<S>, state: Kind -> S) returns (list: LfdList<S>)
    ensures fresh(list) && Holds(list, Stack(h), codec, state)
    ensures forall m :: m in list.mods ==> fresh(m)
  {
    hide Holds, F.Host.Has;
    list := new LfdList<S>();
    ghost var done: seq<Kind> := [];
    NothingHeld(list, codec, state);
    if h.Has(F.ZLIB) {
      var _ := AddKind(list, Zlib, codec, state, done);
      done := done + [Zlib];
    }
    if h.Has(F.LZO) {
      var _ := AddKind(list, Lzo, codec, state, done);
      done := done + [Lzo];
    }
    if h.Has(F.ENCRYPT) {
      var kind := if h.cipher == F.LEGACY_ENCRYPT then LegacyEncryptor else Encryptor(h.cipher);
      var _ := AddKind(list, kind, codec, state, done);
      done := done + [kind];
    }
    assert done == Core(h);
    if h.Has(F.SHAPE) {
      var _ := AddKind(list, Shaper, codec, state, done);
      done := done + [Shaper];
    }
    assert done == Stack(h);
  }

  ghost predicate Holds<S(!new)>(list: LfdList<S>, kinds: seq<Kind>, codec: Kind -> Codec<S>, state: Kind -> S)
    reads list, list.mods
  {
    && list.Valid() && |list.mods| == |kinds|
    && forall i :: 0 <= i < |kinds| ==> list.mods[i].codec == codec(kinds[i]) && list.mods[i].state == state(kinds[i])
  }

  lemma NothingHeld<S(!new)>(list: LfdList<S>, codec: Kind -> Codec<S>, state: Kind -> S)
    requires list.Valid() && list.mods == []
    ensures Holds(list, [], codec, state)
  {
  }

  method AddKind<S(!new)>(list: LfdList<S>, kind: Kind, codec: Kind -> Codec<S>, state: Kind -> S, ghost kinds: seq<Kind>)
    returns (mod: LfdMod<S>)
    requires Holds(list, kinds, codec, state)
    modifies list, list.mods
    ensures Holds(list, kinds + [kind], codec, state)
    ensures fresh(mod) && list.mods == old(list.mods) + [mod]
  {
    mod := new LfdMod<S>(codec(kind), state(kind));
    list.AddMod(mod);
  }

  /* ---------- both ends build the same stack ---------- */

  lemma BitRestored(client: F.word, server: F.word, protocol: F.word, kind: F.word, speed: F.word, bit: F.word)
    requires bit == F.ZLIB || bit == F.LZO || bit == F.ENCRYPT
    requires client & !F.CLNT_MASK == 0
    requires protocol & !F.PROT_MASK == 0 && kind & !F.TYPE_MASK == 0 && speed & !F.SHAPE == 0
    ensures (client | (protocol | kind | (server & (F.ZLIB | F.LZO | F.KEEP_ALIVE | F.ENCRYPT)) | speed)) & bit == server & bit
  {
  }

  lemma RestoredParts(h: F.Host)
    ensures F.ProtocolBits(h) & !F.PROT_MASK == 0 && F.KindBits(h) & !F.TYPE_MASK == 0 && F.SpeedBits(h) & !F.SHAPE == 0
  {
    hide F.Protocol, F.Kind;
  }

  /** A client that has parsed the server's flags builds the server's transforming modules, with the same
      cipher, exactly unless the server encrypts with the cipher number 0. */
  lemma SameCore(before: string, h: F.Host, tail: string, client: F.Host)
    requires h.Valid() && F.NoErange(h) && '<' !in before && client.flags & !F.CLNT_MASK == 0 && client.spdOut == 0
    ensures var (ok, r) := F.ParseFlags(before + F.PrintFlags(h) + tail, client);
      ok && (Core(r) == Core(h) <==> !(h.Has(F.ENCRYPT) && h.cipher == 0))
  {
    hide F.ParseFlags, F.PrintFlags, F.ProtocolBits, F.KindBits, F.SpeedBits;
    F.FlagsRoundTrip(before, h, tail, client);
    RestoredParts(h);
    BitRestored(client.flags, h.flags, F.ProtocolBits(h), F.KindBits(h), F.SpeedBits(h), F.ZLIB);
    BitRestored(client.flags, h.flags, F.ProtocolBits(h), F.KindBits(h), F.SpeedBits(h), F.LZO);
    BitRestored(client.flags, h.flags, F.ProtocolBits(h), F.KindBits(h), F.SpeedBits(h), F.ENCRYPT);
    var r := F.ParseFlags(before + F.PrintFlags(h) + tail, client).1;
    SameKinds(h, r);
  }

  lemma SameKinds(h: F.Host, r: F.Host)
    requires h.flags & F.ZLIB == r.flags & F.ZLIB && h.flags & F.LZO == r.flags & F.LZO
    requires h.flags & F.ENCRYPT == r.flags & F.ENCRYPT
    requires h.Has(F.ENCRYPT) ==> r.cipher == if h.cipher == 0 then F.LEGACY_ENCRYPT else h.cipher
    ensures Core(r) == Core(h) <==> !(h.Has(F.ENCRYPT) && h.cipher == 0)
  {
    assert h.Has(F.ZLIB) == r.Has(F.ZLIB) && h.Has(F.LZO) == r.Has(F.LZO) && h.Has(F.ENCRYPT) == r.Has(F.ENCRYPT);
    hide F.Host.Has;
    if h.Has(F.ENCRYPT) {
      assert Core(h)[|Core(h)| - 1] != Encryptor(0) || h.cipher == 0;
      assert h.cipher == 0 ==> Core(h)[|Core(h)| - 1] == Encryptor(0) && Core(r)[|Core(r)| - 1] == LegacyEncryptor;
    }
  }

  /* ---------- what goes down one end comes up the other ---------- */

  /** What f gives for each of the modules: their entries, their laws, or their states. */
  function Each<T>(kinds: seq<Kind>, f: Kind -> T): (r: seq<T>)
    ensures |r| == |kinds|
  {
    seq(|kinds|, i requires 0 <= i < |kinds| => f(kinds[i]))
  }

  function Tail<S>(h: F.Host, codec: Kind -> Codec<S>): seq<Codec<S>> {
    if h.Has(F.SHAPE) then [codec(Shaper)] else []
  }

  /** Every transforming module obeys its law and starts in step with its peer, whichever end it is at; the
      shaper passes everything through. */
  ghost predicate Lawful<S(!new)>(codec: Kind -> Codec<S>, law: Kind -> D.Law<S>, sa: Kind -> S, sb: Kind -> S) {
    && PassesThrough(codec(Shaper))
    && forall k: Kind {:trigger codec(k)} :: k != Shaper ==>
         D.Lawful(codec(k), law(k)) && law(k).sync(sa(k), sb(k)) && law(k).sync(sb(k), sa(k))
  }

  /** The link between an end with host h and one with host r, when both have h's transforming modules. */
  function Setup<S>(h: F.Host, r: F.Host, codec: Kind -> Codec<S>, law: Kind -> D.Law<S>): D.Setup<S> {
    D.Setup(Each(Core(h), codec), Each(Core(h), law), Tail(h, codec), Tail(r, codec))
  }

  /** The stack that linkfd builds is the one of the link. */
  lemma StackOf<S(!new)>(h: F.Host, codec: Kind -> Codec<S>)
    ensures Each(Stack(h), codec) == Each(Core(h), codec) + Tail(h, codec)
  {
    hide Core, F.Host.Has;
  }

  lemma SetupIsValid<S(!new)>(h: F.Host, r: F.Host, codec: Kind -> Codec<S>, law: Kind -> D.Law<S>, sa: Kind -> S, sb: Kind -> S)
    requires Lawful(codec, law, sa, sb) && Core(h) == Core(r)
    ensures var p := Setup(h, r, codec, law);
      && D.ValidSetup(p) && Each(Stack(h), codec) == p.Own() && Each(Stack(r), codec) == p.Peer()
      && D.Sync(p.laws, Each(Stack(h), sa), Each(Stack(r), sb))
      && D.Sync(p.laws, Each(Stack(r), sb), Each(Stack(h), sa))
  {
    hide F.Host.Has, D.Lawful, PassesThrough;
    assert Shaper !in Core(h);
    hide Core;
    StackOf(h, codec);
    StackOf(r, codec);
    forall i | 0 <= i < |Core(h)|
      ensures D.Lawful(codec(Core(h)[i]), law(Core(h)[i]))
      ensures law(Core(h)[i]).sync(sa(Core(h)[i]), sb(Core(h)[i])) && law(Core(h)[i]).sync(sb(Core(h)[i]), sa(Core(h)[i]))
    {
      assert Core(h)[i] in Core(h);
    }
    assert forall i :: 0 <= i < |Core(h)| ==> Stack(h)[i] == Core(h)[i] && Stack(r)[i] == Core(h)[i];
  }

  /** A server that admits the client, and whose flags can be printed, sent and read. */
  ghost predicate Agreeable(site: H.Site, me: H.Login) {
    && site.Valid() && H.ValidKeys(me.key) && H.ValidName(me.name) && H.Admitted(site, me)
    && (var h := site.accounts(me.name).host;
        && h.Valid() && F.NoErange(h) && |F.PrintFlags(h)| < F.FLAGS_SIZE
        && !(h.Has(F.ENCRYPT) && h.cipher == 0))
    && me.host.flags & !F.CLNT_MASK == 0 && me.host.spdOut == 0
  }

  /** Such a handshake succeeds at both ends, and they agree on the transforming modules. */
  lemma HandshakeSucceeds(site: H.Site, me: H.Login)
    requires Agreeable(site, me)
    ensures site.Valid() && H.ValidKeys(me.key)
    ensures var (sv, cl) := H.Handshake(site, me);
      sv == H.Granted(site.accounts(me.name).host) && cl.Done? && cl.success && Core(cl.host) == Core(sv.host)
  {
    hide H.Handshake, F.ParseFlags, F.PrintFlags, Core;
    var (sv, cl) := H.Handshake(site, me);
    H.HandshakeAgreement(site, me);
    var h := sv.host;
    assert H.Message("OK FLAGS: " + F.PrintFlags(h) + "\n") == "OK FLAGS: " + F.PrintFlags(h) + "\n";
    SameCore("OK FLAGS: ", h, "\n", me.host);
  }

  /** Main result: a client that is to be admitted succeeds, both ends build the same transforming modules, and
      then, over every interleaving of packets sent and received at both ends, each end hands over exactly what
      the other sent, in order, and the counters agree, whatever the shapers. */
  lemma TunnelIsIdentity<S(!new)>(site: H.Site, me: H.Login, codec: Kind -> Codec<S>, law: Kind -> D.Law<S>,
                                  sa: Kind -> S, sb: Kind -> S, moves: seq<D.Move>)
    requires Agreeable(site, me) && Lawful(codec, law, sa, sb)
    requires forall m :: m in moves && m.step.Send? ==> m.step.data != []
    ensures var (sv, cl) := H.Handshake(site, me);
      && sv.Granted? && cl.Done? && cl.success
      && Core(cl.host) == Core(sv.host)
      && var p := Setup(sv.host, cl.host, codec, law);
         var w := D.Start(Each(Stack(sv.host), sa), Each(Stack(cl.host), sb));
         && Each(Stack(sv.host), codec) == p.Own() && Each(Stack(cl.host), codec) == p.Peer()
         && D.Conserved(D.Run(p, w, moves))
  {
    hide H.Handshake, Agreeable, Core, Stack, Lawful, Setup, D.Run, D.ValidSetup, D.Sync, D.Conserved;
    HandshakeSucceeds(site, me);
    var (sv, cl) := H.Handshake(site, me);
    var h := sv.host;
    SetupIsValid(h, cl.host, codec, law, sa, sb);
    D.LinkConserves(Setup(h, cl.host, codec, law), Each(Stack(h), sa), Each(Stack(cl.host), sb), moves);
  }

  /* ---------- the ciphers obey the law ---------- */

  /** The legacy cipher as a module; it keeps no state, so any type will do. */
  ghost function LegacyCodec<S>(c: BC.Cipher): Codec<S>
    requires c.Valid() && c.bs == L.BLOCK
  {
    Codec(Some((s: S, x: bytes) => (s, Data(L.Seal(c, x)))),
          Some((s: S, y: bytes) => (s, if |y| % 8 == 0 && y != [] then Data(L.Open(c, y)) else Failed)))
  }

  ghost function Stateless<S>(): D.Law<S> {
    D.Law((e: S, d: S) => true, (s: S, t: S) => true, (s: S, t: S) => true)
  }

  lemma LegacyIsLawful<S(!new)>(c: BC.Cipher)
    requires c.Valid() && c.bs == L.BLOCK
    ensures D.Lawful(LegacyCodec<S>(c), Stateless<S>())
  {
    hide L.Seal, L.Open;
    forall x: bytes ensures L.Open(c, L.Seal(c, x)) == x {
      L.OpenSeal(c, x);
    }
  }

  /** encrypt_buf and decrypt_buf as a module, whatever chooses the random bytes and the clock readings. */
  ghost function EncryptorCodec(c: BC.Cipher, draw: (PC.State, bytes) -> PC.Draw, clock: (PC.State, bytes) -> (int, int)): Codec<PC.State> {
    Codec(Some((e: PC.State, x: bytes) =>
            if PC.Valid(c, e) && PC.ValidDraw(c, x, draw(e, x)) then
              var (e', wire) := PC.EncodePacket(c, e, x, draw(e, x)); (e', Data(wire))
            else (e, Failed)),
          Some((f: PC.State, y: bytes) =>
            if PC.Valid(c, f) && PC.WellSized(c, y) then
              var (f', data) := PC.DecodePacket(c, f, y, clock(f, y).0, clock(f, y).1); (f', Data(data))
            else (f, Failed)))
  }

  /** The receiver reads the next packet of the sender, and neither asks for a resynchronisation. */
  ghost predicate EncryptorSync(c: BC.Cipher, e: PC.State, f: PC.State) {
    PC.Valid(c, e) && PC.Valid(c, f) && PL.InStep(c, e, f) && !e.enc.ReqInit?
  }

  ghost predicate SameDecryptor(c: BC.Cipher, s: PC.State, t: PC.State) {
    s.dec == t.dec && s.decCtx == t.decCtx && (PC.Valid(c, s) ==> PC.Valid(c, t))
  }

  ghost predicate SameEncryptor(c: BC.Cipher, s: PC.State, t: PC.State) {
    s.enc == t.enc && s.encCtx == t.encCtx && (PC.Valid(c, s) ==> PC.Valid(c, t))
  }

  ghost function EncryptorLaw(c: BC.Cipher): D.Law<PC.State> {
    D.Law((e: PC.State, f: PC.State) => EncryptorSync(c, e, f),
          (s: PC.State, t: PC.State) => SameDecryptor(c, s, t),
          (s: PC.State, t: PC.State) => SameEncryptor(c, s, t))
  }

  /** The encryptor obeys the law of a module whenever its control block holds an unsigned long. */
  lemma EncryptorIsLawful(c: BC.Cipher, draw: (PC.State, bytes) -> PC.Draw, clock: (PC.State, bytes) -> (int, int))
    requires c.Valid() && (c.mode.ECB? || 4 + c.ulong <= c.bs)
    requires forall e: PC.State, x: bytes {:trigger draw(e, x)} :: PC.ValidDraw(c, x, draw(e, x))
    ensures D.Lawful(EncryptorCodec(c, draw, clock), EncryptorLaw(c))
  {
    hide PC.EncodePacket, PC.DecodePacket, PC.Valid, PC.ValidDraw, PC.WellSized, EncryptorSync, SameDecryptor, SameEncryptor;
    var codec, law := EncryptorCodec(c, draw, clock), EncryptorLaw(c);
    forall e, e', f, f' | EncryptorSync(c, e, f) && SameEncryptor(c, e, e') && SameDecryptor(c, f, f')
      ensures EncryptorSync(c, e', f')
    {
      SyncFrame(c, e, e', f, f');
    }
    forall s ensures SameDecryptor(c, s, s) && SameEncryptor(c, s, s) {
      SyncFrame(c, s, s, s, s);
    }
    forall e: PC.State, f: PC.State, f2: PC.State, x: bytes
      | EncryptorSync(c, e, f) && SameDecryptor(c, f, f2) && x != []
      ensures D.Reads(codec, law, e, f, f2, x)
    {
      var d := draw(e, x);
      SyncFrame(c, e, e, f, f2);
      SyncFrame(c, e, e, f2, f2);
      StepReads(c, e, f, f2, x, d, clock(f, PC.EncodePacket(c, e, x, d).1), clock(f2, PC.EncodePacket(c, e, x, d).1));
    }
  }

  /** Two encryptors are in step both ways when they have been allocated. */
  lemma EncryptorStarts(c: BC.Cipher, m: nat, n: nat)
    requires c.Valid() && m < 0x1_0000_0000 && n < 0x1_0000_0000
    ensures EncryptorLaw(c).sync(PC.Allocated(c, m), PC.Allocated(c, n))
  {
  }

  lemma SyncFrame(c: BC.Cipher, e: PC.State, e': PC.State, f: PC.State, f': PC.State)
    ensures SameEncryptor(c, e, e) && SameDecryptor(c, f, f)
    ensures EncryptorSync(c, e, f) ==> PC.Valid(c, e) && PC.Valid(c, f)
    ensures EncryptorSync(c, e, f) && SameEncryptor(c, e, e') && SameDecryptor(c, f, f') ==> EncryptorSync(c, e', f')
  {
    hide PC.Valid;
  }

  lemma StepReads(c: BC.Cipher, e: PC.State, f: PC.State, f2: PC.State, x: bytes, d: PC.Draw, t: (int, int), t2: (int, int))
    requires EncryptorSync(c, e, f) && EncryptorSync(c, e, f2) && SameDecryptor(c, f, f2)
    requires PC.ValidDraw(c, x, d) && x != [] && (c.mode.ECB? || 4 + c.ulong <= c.bs)
    ensures PC.Valid(c, e) && PC.Valid(c, f) && PC.Valid(c, f2)
    ensures var (e', wire) := PC.EncodePacket(c, e, x, d);
      && wire != [] && PC.WellSized(c, wire)
      && var (f', data) := PC.DecodePacket(c, f, wire, t.0, t.1);
         var (f2', data2) := PC.DecodePacket(c, f2, wire, t2.0, t2.1);
         && data == data2 == x
         && EncryptorSync(c, e', f') && SameDecryptor(c, e, e') && SameEncryptor(c, f, f') && SameDecryptor(c, f', f2')
  {
    hide PC.EncodePacket, PC.DecodePacket;
    PL.ReadInStep(c, e, f, x, d, t.0, t.1);
    PL.ReadInStep(c, e, f2, x, d, t2.0, t2.1);
    PL.EncodeKeepsValid(c, e, x, d);
    PL.PacketSize(c, e, x, d);
    PL.PayloadSurvives(c, x);
  }

  const ENC_BUF_SIZE := Framing.FRAME_SIZE + 128

  /** A packet read from the device with the limit FRAME_SIZE, encrypted, fits enc_buf, is never dropped as
      oversized, and does not touch the flag bits of its length word: the peer's reader reports exactly it. */
  lemma EncryptedFrameFits(c: BC.Cipher, e: PC.State, payload: bytes, d: PC.Draw, more: bytes)
    requires PC.Valid(c, e) && PC.ValidDraw(c, payload, d) && 0 < |payload| <= Framing.FRAME_SIZE
    ensures var wire := PC.EncodePacket(c, e, payload, d).1;
      && |wire| <= ENC_BUF_SIZE
      && Framing.Proper(Framing.Data(wire))
      && Framing.ParseFrame(Framing.Sent(Framing.Data(wire)) + more) == (Framing.Report(|wire|, wire), more)
  {
    hide PC.EncodePacket, Framing.ParseFrame, Framing.Sent;
    PL.PacketSize(c, e, payload, d);
    Framing.FrameRoundTrip(Framing.Data(PC.EncodePacket(c, e, payload, d).1), more);
  }
}
