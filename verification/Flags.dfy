/** The host flags as the server prints them and the client parses them (bf2cf and cf2bf in auth.c). */
module Flags {
  import opened Decimal

  type word = bv16

  const ZLIB: word := 0x0001
  const LZO: word := 0x0002
  const SHAPE: word := 0x0004
  const ENCRYPT: word := 0x0008
  const TCP: word := 0x0010
  const UDP: word := 0x0020
  const PROT_MASK: word := 0x0030
  const KEEP_ALIVE: word := 0x0040
  const TTY: word := 0x0100
  const PIPE: word := 0x0200
  const ETHER: word := 0x0400
  const TUN: word := 0x0800
  const TYPE_MASK: word := 0x0F00
  const CLNT_MASK: word := 0xF000

  const LEGACY_ENCRYPT := 999
  const FLAGS_SIZE := 20    // of the buffer the flags are printed into
  const ERANGE := 34

  /** The fields of struct vtun_host that the flags string carries. */
  datatype Host = Host(flags: word, zlevel: int, cipher: int, spdIn: int, spdOut: int) {
    predicate Has(flag: word) { flags & flag != 0 }

    /** The numbers are C ints. */
    predicate Valid() {
      && -0x8000_0000 <= zlevel < 0x8000_0000
      && -0x8000_0000 <= cipher < 0x8000_0000
      && -0x8000_0000 <= spdIn < 0x8000_0000
    }
  }

  /* ---------- printing ---------- */

  function Protocol(flags: word): string {
    var p := flags & PROT_MASK;
    if p == TCP then "T" else if p == UDP then "U" else ""
  }

  function Kind(flags: word): string {
    var t := flags & TYPE_MASK;
    if t == TTY then "t" else if t == PIPE then "p" else if t == ETHER then "e" else if t == TUN then "u" else ""
  }

  function Optional(present: bool, text: string): string {
    if present then text else ""
  }

  /** The string from each position on, with what follows it; none of these parts begins with a digit. */
  function FromCipher(h: Host, tail: string): (r: string)
    ensures r != "" && !IsDigit(r[0])
  {
    Optional(h.Has(ENCRYPT), "E" + Optional(h.cipher != LEGACY_ENCRYPT, Print(h.cipher))) + (">" + tail)
  }

  function FromKeepAlive(h: Host, tail: string): (r: string)
    ensures r != "" && !IsDigit(r[0])
  {
    Optional(h.Has(KEEP_ALIVE), "K") + FromCipher(h, tail)
  }

  function FromLzo(h: Host, tail: string): (r: string)
    ensures r != "" && !IsDigit(r[0])
  {
    Optional(h.Has(LZO), "L" + Print(h.zlevel)) + FromKeepAlive(h, tail)
  }

  function FromZlib(h: Host, tail: string): (r: string)
    ensures r != "" && !IsDigit(r[0])
  {
    Optional(h.Has(ZLIB), "C" + Print(h.zlevel)) + FromLzo(h, tail)
  }

  function FromShape(h: Host, tail: string): (r: string)
    ensures r != "" && !IsDigit(r[0])
  {
    Optional(h.Has(SHAPE), "S" + Print(h.spdIn)) + FromZlib(h, tail)
  }

  function PrintFlags(h: Host): (r: string) {
    "<" + Protocol(h.flags) + Kind(h.flags) + FromShape(h, "")
  }

  /* ---------- parsing ---------- */

  /** The switch of cf2bf on one character c; rest is what follows it.  The result is the host, and how much
      of rest is consumed, or that parsing fails. */
  datatype Step = Refuse(h: Host) | Proceed(h: Host, used: nat) | Accept(h: Host)

  function SetFlag(h: Host, flag: word): (r: Host)
    ensures r == h.(flags := r.flags)
  {
    h.(flags := h.flags | flag)
  }

  function SetProtocol(h: Host, flag: word): (r: Host)
    ensures r == h.(flags := r.flags)
  {
    h.(flags := WithProtocol(h.flags, flag))
  }

  function WithProtocol(flags: word, flag: word): word {
    (flags & !PROT_MASK) | flag
  }

  function Interpret(c: char, rest: string, h: Host): (r: Step)
    ensures r.Proceed? ==> r.used <= |rest|
  {
    var (n, used) := Strtol(rest);
    var s := ToInt(n);
    match c
    case 't' => Proceed(SetFlag(h, TTY), 0)
    case 'p' => Proceed(SetFlag(h, PIPE), 0)
    case 'e' => Proceed(SetFlag(h, ETHER), 0)
    case 'u' => Proceed(SetFlag(h, TUN), 0)
    case 'U' => Proceed(SetProtocol(h, UDP), 0)
    case 'T' => Proceed(SetProtocol(h, TCP), 0)
    case 'K' => Proceed(SetFlag(h, KEEP_ALIVE), 0)
    case 'C' => if s == ERANGE || used == 0 then Refuse(h) else Proceed(SetFlag(h, ZLIB).(zlevel := s), used)
    case 'L' => if s == ERANGE || used == 0 then Refuse(h) else Proceed(SetFlag(h, LZO).(zlevel := s), used)
    case 'E' =>
      if s == ERANGE then Refuse(h)
      else Proceed(SetFlag(h, ENCRYPT).(cipher := if s == 0 then LEGACY_ENCRYPT else s), used)
    case 'S' =>
      if s == ERANGE || used == 0 then Refuse(h)
      else Proceed(if s != 0 then SetFlag(h, SHAPE).(spdOut := s) else h, used)
    case 'F' => Proceed(h, 0)
    case '>' => Accept(h)
    case _ => Refuse(h)
  }

  /** The loop of cf2bf from one position on. */
  function ParseFrom(s: string, h: Host): (bool, Host)
    decreases |s|
  {
    if s == "" then (false, h)
    else
      match Interpret(s[0], s[1..], h)
      case Refuse(h') => (false, h')
      case Accept(h') => (true, h')
      case Proceed(h', used) => ParseFrom(s[1 + used..], h')
  }

  /** strchr: the index of the first c, or |s|. */
  function Find(s: string, c: char): (k: nat)
    ensures k <= |s|
    ensures k < |s| ==> s[k] == c
    ensures forall i :: 0 <= i < k ==> s[i] != c
  {
    if s == "" || s[0] == c then 0 else 1 + Find(s[1..], c)
  }

  /** cf2bf: what stands before the first '<' is skipped. */
  function ParseFlags(s: string, h: Host): (bool, Host) {
    var k := Find(s, '<');
    if k == |s| then (false, h) else ParseFrom(s[k + 1..], h)
  }

  /* ---------- the round trip ---------- */

  /** What is to arrive of a server's flags. */
  function Restored(h: Host): word {
    ProtocolBits(h) | KindBits(h) | (h.flags & (ZLIB | LZO | KEEP_ALIVE | ENCRYPT)) | SpeedBits(h)
  }

  function ProtocolBits(h: Host): word {
    if Protocol(h.flags) != "" then h.flags & PROT_MASK else 0
  }

  function KindBits(h: Host): word {
    if Kind(h.flags) != "" then h.flags & TYPE_MASK else 0
  }

  /** A speed of 0 switches shaping off. */
  function SpeedBits(h: Host): word {
    if h.spdIn != 0 then h.flags & SHAPE else 0
  }

  /** No number that is printed is the one value that cf2bf takes for an error. */
  predicate NoErange(h: Host) {
    && (h.Has(SHAPE) ==> h.spdIn != ERANGE)
    && (h.Has(ZLIB) || h.Has(LZO) ==> h.zlevel != ERANGE)
    && (h.Has(ENCRYPT) ==> h.cipher != ERANGE)
  }

  /** One character without a number. */
  lemma ReadLetter(c: char, rest: string, h: Host)
    requires Interpret(c, rest, h).Proceed? && Interpret(c, rest, h).used == 0
    ensures ParseFrom([c] + rest, h) == ParseFrom(rest, Interpret(c, rest, h).h)
  {
    assert ([c] + rest)[1..] == rest;
  }

  function Numbered(c: char, n: int, h: Host): Host {
    match c
    case 'S' => if n != 0 then SetFlag(h, SHAPE).(spdOut := n) else h
    case 'C' => SetFlag(h, ZLIB).(zlevel := n)
    case 'L' => SetFlag(h, LZO).(zlevel := n)
    case _ => SetFlag(h, ENCRYPT).(cipher := if n == 0 then LEGACY_ENCRYPT else n)
  }

  /** One character with its number. */
  lemma ReadNumber(c: char, n: int, rest: string, h: Host)
    requires -0x8000_0000 <= n < 0x8000_0000 && rest != "" && !IsDigit(rest[0])
    requires c == 'S' || c == 'C' || c == 'L' || c == 'E'
    ensures ParseFrom([c] + Print(n) + rest, h)
      == if n == ERANGE then (false, h) else ParseFrom(rest, Numbered(c, n, h))
  {
    hide Print, Strtol, ToInt, IsDigit;
    ReadPrinted(n, rest);
    var s := [c] + Print(n) + rest;
    assert s[1..] == Print(n) + rest;
    assert s[1 + |Print(n)|..] == rest;
  }

  /** The client's host after each part of the string. */
  function AfterHead(h: Host, client: Host): Host {
    var c1 := match Protocol(h.flags)
      case "T" => SetProtocol(client, TCP)
      case "U" => SetProtocol(client, UDP)
      case _ => client;
    if Kind(h.flags) != "" then SetFlag(c1, h.flags & TYPE_MASK) else c1
  }

  function AfterShape(h: Host, c: Host): Host {
    if h.Has(SHAPE) then Numbered('S', h.spdIn, c) else c
  }

  function AfterZlib(h: Host, c: Host): Host {
    if h.Has(ZLIB) then Numbered('C', h.zlevel, c) else c
  }

  function AfterLzo(h: Host, c: Host): Host {
    if h.Has(LZO) then Numbered('L', h.zlevel, c) else c
  }

  function AfterKeepAlive(h: Host, c: Host): Host {
    if h.Has(KEEP_ALIVE) then SetFlag(c, KEEP_ALIVE) else c
  }

  function AfterCipher(h: Host, c: Host): Host {
    if h.Has(ENCRYPT) then Numbered('E', if h.cipher == LEGACY_ENCRYPT then 0 else h.cipher, c) else c
  }

  lemma ReadCipher(h: Host, tail: string, c: Host)
    requires h.Valid()
    ensures var (ok, r) := ParseFrom(FromCipher(h, tail), c);
      ok == (h.Has(ENCRYPT) ==> h.cipher != ERANGE) && (ok ==> r == AfterCipher(h, c))
  {
    hide Print, Strtol;
    var end := ">" + tail;
    ReadEnd(tail, c);
    ReadEnd(tail, AfterCipher(h, c));
    if h.Has(ENCRYPT) {
      if h.cipher == LEGACY_ENCRYPT {
        NoNumber(tail);
        assert "E" + "" + end == "E" + end;
        ReadLetter('E', end, c);
      } else {
        ReadNumber('E', h.cipher, end, c);
        assert ['E'] + Print(h.cipher) + end == "E" + Print(h.cipher) + end;
      }
    } else {
      assert "" + end == end;
    }
  }

  lemma NoNumber(tail: string)
    ensures Strtol(">" + tail) == (0, 0)
  {
    var s := ">" + tail;
    assert s[0] == '>';
    ReadNothing(s);
  }

  lemma ReadEnd(tail: string, c: Host)
    ensures ParseFrom(">" + tail, c) == (true, c)
  {
    hide Strtol;
  }

  lemma ReadKeepAlive(h: Host, tail: string, c: Host)
    ensures ParseFrom(FromKeepAlive(h, tail), c) == ParseFrom(FromCipher(h, tail), AfterKeepAlive(h, c))
  {
    hide FromCipher, Strtol;
    var rest := FromCipher(h, tail);
    if h.Has(KEEP_ALIVE) {
      ReadLetter('K', rest, c);
    } else {
      assert "" + rest == rest;
    }
  }

  lemma ReadLzo(h: Host, tail: string, c: Host)
    requires h.Valid()
    ensures ParseFrom(FromLzo(h, tail), c)
      == if h.Has(LZO) && h.zlevel == ERANGE then (false, c) else ParseFrom(FromKeepAlive(h, tail), AfterLzo(h, c))
  {
    hide FromKeepAlive, Print, ParseFrom;
    var rest := FromKeepAlive(h, tail);
    if h.Has(LZO) {
      ReadNumber('L', h.zlevel, rest, c);
      assert ['L'] + Print(h.zlevel) + rest == FromLzo(h, tail);
    } else {
      assert "" + rest == rest;
    }
  }

  lemma ReadZlib(h: Host, tail: string, c: Host)
    requires h.Valid()
    ensures ParseFrom(FromZlib(h, tail), c)
      == if h.Has(ZLIB) && h.zlevel == ERANGE then (false, c) else ParseFrom(FromLzo(h, tail), AfterZlib(h, c))
  {
    hide FromLzo, Print, ParseFrom;
    var rest := FromLzo(h, tail);
    if h.Has(ZLIB) {
      ReadNumber('C', h.zlevel, rest, c);
      assert ['C'] + Print(h.zlevel) + rest == FromZlib(h, tail);
    } else {
      assert "" + rest == rest;
    }
  }

  lemma ReadShape(h: Host, tail: string, c: Host)
    requires h.Valid()
    ensures ParseFrom(FromShape(h, tail), c)
      == if h.Has(SHAPE) && h.spdIn == ERANGE then (false, c) else ParseFrom(FromZlib(h, tail), AfterShape(h, c))
  {
    hide FromZlib, Print, ParseFrom;
    var rest := FromZlib(h, tail);
    if h.Has(SHAPE) {
      ReadNumber('S', h.spdIn, rest, c);
      assert ['S'] + Print(h.spdIn) + rest == FromShape(h, tail);
    } else {
      assert "" + rest == rest;
    }
  }

  lemma ReadKind(h: Host, rest: string, c: Host)
    ensures ParseFrom(Kind(h.flags) + rest, c)
      == ParseFrom(rest, if Kind(h.flags) != "" then SetFlag(c, h.flags & TYPE_MASK) else c)
  {
    var k := Kind(h.flags);
    if k == "" {
      assert "" + rest == rest;
    } else {
      hide Strtol;
      ReadLetter(k[0], rest, c);
      assert k + rest == [k[0]] + rest;
    }
  }

  lemma ReadHead(h: Host, rest: string, c: Host)
    ensures ParseFrom(Protocol(h.flags) + Kind(h.flags) + rest, c) == ParseFrom(rest, AfterHead(h, c))
  {
    hide Kind, Strtol;
    var p, more := Protocol(h.flags), Kind(h.flags) + rest;
    assert p + Kind(h.flags) + rest == p + more;
    if p == "" {
      assert "" + more == more;
      ReadKind(h, rest, c);
    } else {
      ReadLetter(p[0], more, c);
      assert p + more == [p[0]] + more;
      ReadKind(h, rest, SetProtocol(c, if p == "T" then TCP else UDP));
    }
  }

  /** The client's host after the whole string. */
  function AfterAll(h: Host, c: Host): Host {
    AfterCipher(h, AfterKeepAlive(h, AfterLzo(h, AfterZlib(h, AfterShape(h, AfterHead(h, c))))))
  }

  /** The parts follow each other up to the tail. */
  lemma PrintedParts(h: Host, tail: string)
    ensures PrintFlags(h) + tail == "<" + (Protocol(h.flags) + Kind(h.flags) + FromShape(h, tail))
  {
    hide Protocol, Kind, FromShape;
    TailOfShape(h, tail);
  }

  lemma TailOfCipher(h: Host, tail: string)
    ensures FromKeepAlive(h, tail) == FromKeepAlive(h, "") + tail
  {
    hide Print;
    assert FromCipher(h, tail) == FromCipher(h, "") + tail;
  }

  lemma TailOfShape(h: Host, tail: string)
    ensures FromShape(h, tail) == FromShape(h, "") + tail
  {
    hide Print, FromKeepAlive;
    TailOfCipher(h, tail);
    assert FromLzo(h, tail) == FromLzo(h, "") + tail;
    assert FromZlib(h, tail) == FromZlib(h, "") + tail;
  }

  /** Parsing succeeds exactly if no printed number is ERANGE, and then leaves AfterAll.  Text before the
      flags, such as the server's "OK FLAGS: ", and behind them does not matter. */
  lemma ReadFlags(before: string, h: Host, tail: string, client: Host)
    requires h.Valid() && '<' !in before
    ensures var (ok, r) := ParseFlags(before + PrintFlags(h) + tail, client);
      ok == NoErange(h) && (ok ==> r == AfterAll(h, client))
  {
    hide ParseFrom, FromShape, Protocol, Kind, AfterHead, PrintFlags;
    var body := Protocol(h.flags) + Kind(h.flags) + FromShape(h, tail);
    PrintedParts(h, tail);
    FindFlags(before, body);
    assert before + PrintFlags(h) + tail == before + ("<" + body);
    var c1 := AfterHead(h, client);
    ReadHead(h, FromShape(h, tail), client);
    ReadShape(h, tail, c1);
    var c2 := AfterShape(h, c1);
    ReadZlib(h, tail, c2);
    var c3 := AfterZlib(h, c2);
    ReadLzo(h, tail, c3);
    var c4 := AfterLzo(h, c3);
    ReadKeepAlive(h, tail, c4);
    ReadCipher(h, tail, AfterKeepAlive(h, c4));
  }

  lemma {:induction false} FindFlags(before: string, body: string)
    requires '<' !in before
    ensures var s := before + ("<" + body); Find(s, '<') == |before| < |s| && s[|before| + 1..] == body
  {
    var s := before + ("<" + body);
    if before != "" {
      assert s[1..] == before[1..] + ("<" + body);
      FindFlags(before[1..], body);
    }
  }

  /** Main result: a client whose flags have been cleared, parsing what the server prints, succeeds exactly if
      no printed number is ERANGE.  Then it has the server's protocol, device type, compression, encryption and
      keep-alive flags with their level and cipher, and shapes its output at the server's non-zero input speed. */
  lemma FlagsRoundTrip(before: string, h: Host, tail: string, client: Host)
    requires h.Valid() && '<' !in before && client.flags & !CLNT_MASK == 0 && client.spdOut == 0
    ensures var (ok, r) := ParseFlags(before + PrintFlags(h) + tail, client);
      && ok == NoErange(h)
      && (ok ==>
        && r.flags == client.flags | Restored(h)
        && r.zlevel == (if h.Has(ZLIB) || h.Has(LZO) then h.zlevel else client.zlevel)
        && r.cipher == (if !h.Has(ENCRYPT) then client.cipher else if h.cipher == 0 then LEGACY_ENCRYPT else h.cipher)
        && r.spdOut == (if h.Has(SHAPE) then h.spdIn else 0)
        && r.spdIn == client.spdIn)
  {
    ReadFlags(before, h, tail, client);
    FlagsBack(h, client);
    NumbersBack(h, client);
    hide ParseFlags, PrintFlags, AfterAll, Restored;
  }

  /** The numbers come along with their flags. */
  lemma NumbersBack(h: Host, client: Host)
    ensures var r := AfterAll(h, client);
      && r.zlevel == (if h.Has(ZLIB) || h.Has(LZO) then h.zlevel else client.zlevel)
      && r.cipher == (if !h.Has(ENCRYPT) then client.cipher else if h.cipher == 0 then LEGACY_ENCRYPT else h.cipher)
      && r.spdOut == (if h.Has(SHAPE) && h.spdIn != 0 then h.spdIn else client.spdOut)
      && r.spdIn == client.spdIn
  {
    hide SetFlag, SetProtocol, Protocol, Kind, Host.Has;
  }

  /** Each part sets the bits the server has. */
  lemma FlagsBack(h: Host, client: Host)
    requires client.flags & !CLNT_MASK == 0
    ensures AfterAll(h, client).flags == client.flags | Restored(h)
  {
    hide AfterHead, AfterShape, AfterZlib, AfterLzo, AfterKeepAlive, AfterCipher, Protocol, Kind;
    HeadBits(h, client);
    var c1 := AfterHead(h, client);
    var c2 := AfterShape(h, c1);
    var c3 := AfterZlib(h, c2);
    var c4 := AfterLzo(h, c3);
    var c5 := AfterKeepAlive(h, c4);
    ShapeBits(h, c1);
    ZlibBits(h, c2);
    LzoBits(h, c3);
    KeepAliveBits(h, c4);
    CipherBits(h, c5);
    Gather(client.flags, h.flags, ProtocolBits(h), KindBits(h), SpeedBits(h));
  }

  lemma ShapeFlag(h: Host, c: Host)
    ensures h.spdIn == 0 ==> AfterShape(h, c).flags == c.flags && SpeedBits(h) == 0
    ensures h.spdIn != 0 ==>
      AfterShape(h, c).flags == (if h.flags & SHAPE != 0 then c.flags | SHAPE else c.flags) && SpeedBits(h) == h.flags & SHAPE
  {
  }

  lemma ShapeBits(h: Host, c: Host)
    ensures AfterShape(h, c).flags == c.flags | SpeedBits(h)
  {
    ShapeFlag(h, c);
    if h.spdIn == 0 {
      hide AfterShape, SpeedBits;
      NoBit(c.flags);
    } else {
      hide AfterShape, SpeedBits;
      OneBit(c.flags, h.flags, SHAPE);
    }
  }

  lemma ZlibFlag(h: Host, c: Host)
    ensures AfterZlib(h, c).flags == if h.flags & ZLIB != 0 then c.flags | ZLIB else c.flags
  {
  }

  lemma ZlibBits(h: Host, c: Host)
    ensures AfterZlib(h, c).flags == c.flags | (h.flags & ZLIB)
  {
    hide AfterZlib;
    ZlibFlag(h, c);
    OneBit(c.flags, h.flags, ZLIB);
  }

  lemma LzoFlag(h: Host, c: Host)
    ensures AfterLzo(h, c).flags == if h.flags & LZO != 0 then c.flags | LZO else c.flags
  {
  }

  lemma LzoBits(h: Host, c: Host)
    ensures AfterLzo(h, c).flags == c.flags | (h.flags & LZO)
  {
    hide AfterLzo;
    LzoFlag(h, c);
    OneBit(c.flags, h.flags, LZO);
  }

  lemma KeepAliveFlag(h: Host, c: Host)
    ensures AfterKeepAlive(h, c).flags == if h.flags & KEEP_ALIVE != 0 then c.flags | KEEP_ALIVE else c.flags
  {
  }

  lemma KeepAliveBits(h: Host, c: Host)
    ensures AfterKeepAlive(h, c).flags == c.flags | (h.flags & KEEP_ALIVE)
  {
    hide AfterKeepAlive;
    KeepAliveFlag(h, c);
    OneBit(c.flags, h.flags, KEEP_ALIVE);
  }

  lemma CipherFlag(h: Host, c: Host)
    ensures AfterCipher(h, c).flags == if h.flags & ENCRYPT != 0 then c.flags | ENCRYPT else c.flags
  {
  }

  lemma CipherBits(h: Host, c: Host)
    ensures AfterCipher(h, c).flags == c.flags | (h.flags & ENCRYPT)
  {
    hide AfterCipher;
    CipherFlag(h, c);
    OneBit(c.flags, h.flags, ENCRYPT);
  }

  /** One bit of the server's flags, for each of the bits. */
  lemma OneBit(x: word, flags: word, bit: word)
    requires bit == SHAPE || bit == ZLIB || bit == LZO || bit == KEEP_ALIVE || bit == ENCRYPT
    ensures (if flags & bit != 0 then x | bit else x) == x | (flags & bit)
    ensures x | 0 == x
  {
    NoBit(x);
    SetOrClear(flags, bit);
  }

  lemma NoBit(x: word)
    ensures x | 0 == x
  {
  }

  lemma SetOrClear(flags: word, bit: word)
    requires bit == SHAPE || bit == ZLIB || bit == LZO || bit == KEEP_ALIVE || bit == ENCRYPT
    ensures flags & bit == 0 || flags & bit == bit
  {
    assert flags & SHAPE == 0 || flags & SHAPE == SHAPE;
    assert flags & ZLIB == 0 || flags & ZLIB == ZLIB;
    assert flags & LZO == 0 || flags & LZO == LZO;
    assert flags & KEEP_ALIVE == 0 || flags & KEEP_ALIVE == KEEP_ALIVE;
    assert flags & ENCRYPT == 0 || flags & ENCRYPT == ENCRYPT;
  }

  lemma HeadBits(h: Host, client: Host)
    requires client.flags & !CLNT_MASK == 0
    ensures AfterHead(h, client).flags == client.flags | ProtocolBits(h) | KindBits(h)
  {
    assert client.flags & !PROT_MASK == client.flags;
    hide Kind;
  }

  lemma Gather(c: word, f: word, p: word, t: word, s: word)
    ensures ((((c | p | t | s) | (f & ZLIB)) | (f & LZO)) | (f & KEEP_ALIVE)) | (f & ENCRYPT)
      == c | (p | t | (f & (ZLIB | LZO | KEEP_ALIVE | ENCRYPT)) | s)
  {
  }

  /* ---------- what the characters stand for ---------- */

  /** Without reference to the printer: exactly one protocol bit and one type bit. */
  predicate Definite(flags: word) {
    && (flags & PROT_MASK == TCP || flags & PROT_MASK == UDP)
    && (flags & TYPE_MASK == TTY || flags & TYPE_MASK == PIPE || flags & TYPE_MASK == ETHER || flags & TYPE_MASK == TUN)
  }

  lemma HeadRestored(client: word, h: Host)
    requires client & !CLNT_MASK == 0 && Definite(h.flags)
    ensures (client | Restored(h)) & (PROT_MASK | TYPE_MASK) == h.flags & (PROT_MASK | TYPE_MASK)
  {
    DefinitePrinted(h);
    HeadMask(client, h.flags, h.flags & PROT_MASK, h.flags & TYPE_MASK, SpeedBits(h));
  }

  lemma DefinitePrinted(h: Host)
    requires Definite(h.flags)
    ensures ProtocolBits(h) == h.flags & PROT_MASK && KindBits(h) == h.flags & TYPE_MASK
    ensures SpeedBits(h) & (PROT_MASK | TYPE_MASK) == 0
  {
  }

  lemma HeadMask(client: word, flags: word, p: word, t: word, s: word)
    requires client & !CLNT_MASK == 0 && s & (PROT_MASK | TYPE_MASK) == 0
    requires p == flags & PROT_MASK && t == flags & TYPE_MASK
    ensures (client | (p | t | (flags & (ZLIB | LZO | KEEP_ALIVE | ENCRYPT)) | s)) & (PROT_MASK | TYPE_MASK)
      == flags & (PROT_MASK | TYPE_MASK)
  {
  }

  /** The client ends with the server's protocol and device type. */
  lemma HeadArrives(before: string, h: Host, tail: string, client: Host)
    requires h.Valid() && NoErange(h) && Definite(h.flags)
    requires '<' !in before && client.flags & !CLNT_MASK == 0 && client.spdOut == 0
    ensures var (ok, r) := ParseFlags(before + PrintFlags(h) + tail, client);
      ok && r.flags & (PROT_MASK | TYPE_MASK) == h.flags & (PROT_MASK | TYPE_MASK)
  {
    hide ParseFlags, PrintFlags, Restored, Definite;
    FlagsRoundTrip(before, h, tail, client);
    HeadRestored(client.flags, h);
  }

  /** What a character in the printed flags is there for. */
  predicate StandsFor(x: char, h: Host) {
    match x
    case '<' => true
    case '>' => true
    case 'T' => h.flags & PROT_MASK == TCP
    case 'U' => h.flags & PROT_MASK == UDP
    case 't' => h.flags & TYPE_MASK == TTY
    case 'p' => h.flags & TYPE_MASK == PIPE
    case 'e' => h.flags & TYPE_MASK == ETHER
    case 'u' => h.flags & TYPE_MASK == TUN
    case 'S' => h.Has(SHAPE)
    case 'C' => h.Has(ZLIB)
    case 'L' => h.Has(LZO)
    case 'K' => h.Has(KEEP_ALIVE)
    case 'E' => h.Has(ENCRYPT)
    case _ => false
  }

  /** Apart from the characters of numbers, exactly those that stand for something the host has are printed. */
  lemma LettersPrinted(h: Host, x: char)
    requires !IsDigit(x) && x != '-'
    ensures x in PrintFlags(h) <==> StandsFor(x, h)
  {
    hide Host.Has, Protocol, Kind, IsDigit, Print;
    HeadLetter(h, x);
    NumberLetter(h.spdIn, x);
    NumberLetter(h.zlevel, x);
    NumberLetter(h.cipher, x);
    hide FromShape, FromZlib, FromLzo, FromKeepAlive, FromCipher, PrintFlags;
    PartsIn(h, x);
  }

  lemma HeadLetter(h: Host, x: char)
    ensures x in Protocol(h.flags) <==> (x == 'T' && h.flags & PROT_MASK == TCP) || (x == 'U' && h.flags & PROT_MASK == UDP)
    ensures x in Kind(h.flags) <==>
      || (x == 't' && h.flags & TYPE_MASK == TTY) || (x == 'p' && h.flags & TYPE_MASK == PIPE)
      || (x == 'e' && h.flags & TYPE_MASK == ETHER) || (x == 'u' && h.flags & TYPE_MASK == TUN)
  {
  }

  lemma NumberLetter(n: int, x: char)
    requires !IsDigit(x) && x != '-'
    ensures x !in Print(n)
  {
  }

  lemma PartsIn(h: Host, x: char)
    ensures x in PrintFlags(h) <==>
      || x == '<' || x in Protocol(h.flags) || x in Kind(h.flags)
      || (h.Has(SHAPE) && (x == 'S' || x in Print(h.spdIn)))
      || (h.Has(ZLIB) && (x == 'C' || x in Print(h.zlevel)))
      || (h.Has(LZO) && (x == 'L' || x in Print(h.zlevel)))
      || (h.Has(KEEP_ALIVE) && x == 'K')
      || (h.Has(ENCRYPT) && (x == 'E' || (h.cipher != LEGACY_ENCRYPT && x in Print(h.cipher))))
      || x == '>'
  {
    hide Host.Has, Protocol, Kind, Print;
    assert x in FromCipher(h, "") <==>
      (h.Has(ENCRYPT) && (x == 'E' || (h.cipher != LEGACY_ENCRYPT && x in Print(h.cipher)))) || x == '>';
    hide FromCipher;
    assert x in FromKeepAlive(h, "") <==> (h.Has(KEEP_ALIVE) && x == 'K') || x in FromCipher(h, "");
    hide FromKeepAlive;
    assert x in FromLzo(h, "") <==> (h.Has(LZO) && (x == 'L' || x in Print(h.zlevel))) || x in FromKeepAlive(h, "");
    hide FromLzo;
    assert x in FromZlib(h, "") <==> (h.Has(ZLIB) && (x == 'C' || x in Print(h.zlevel))) || x in FromLzo(h, "");
    hide FromZlib;
    assert x in FromShape(h, "") <==> (h.Has(SHAPE) && (x == 'S' || x in Print(h.spdIn))) || x in FromZlib(h, "");
    hide FromShape;
    assert x in PrintFlags(h) <==> x == '<' || x in Protocol(h.flags) || x in Kind(h.flags) || x in FromShape(h, "");
  }

  /** The example of the documentation, and the other letters. */
  lemma PrintedExamples()
    ensures PrintFlags(Host(TCP | TUN | ENCRYPT, 0, 1, 0, 0)) == "<TuE1>"
    ensures PrintFlags(Host(UDP | ETHER | SHAPE | KEEP_ALIVE, 0, 0, 7, 0)) == "<UeS7K>"
    ensures PrintFlags(Host(TCP | TTY | ZLIB, 9, 0, 0, 0)) == "<TtC9>"
    ensures PrintFlags(Host(TCP | PIPE | LZO | ENCRYPT, 1, LEGACY_ENCRYPT, 0, 0)) == "<TpL1E>"
  {
    assert Print(1) == "1" && Print(7) == "7" && Print(9) == "9";
    hide Print;
    Example1();
    Example2();
    Example3();
    Example4();
  }

  lemma Example1()
    requires Print(1) == "1"
    ensures PrintFlags(Host(TCP | TUN | ENCRYPT, 0, 1, 0, 0)) == "<TuE1>"
  {
    hide Print;
  }

  lemma Example2()
    requires Print(7) == "7"
    ensures PrintFlags(Host(UDP | ETHER | SHAPE | KEEP_ALIVE, 0, 0, 7, 0)) == "<UeS7K>"
  {
    hide Print;
  }

  lemma Example3()
    requires Print(9) == "9"
    ensures PrintFlags(Host(TCP | TTY | ZLIB, 9, 0, 0, 0)) == "<TtC9>"
  {
    hide Print;
  }

  lemma Example4()
    requires Print(1) == "1"
    ensures PrintFlags(Host(TCP | PIPE | LZO | ENCRYPT, 1, LEGACY_ENCRYPT, 0, 0)) == "<TpL1E>"
  {
    hide Print;
  }

  /* ---------- arbitrary text ---------- */

  /** Parsing needs both brackets, in order. */
  lemma {:induction false} ClosingNeeded(s: string, h: Host)
    requires ParseFrom(s, h).0
    ensures '>' in s
    decreases |s|
  {
    hide Strtol, ToInt;
    match Interpret(s[0], s[1..], h)
    case Accept(h') =>
    case Proceed(h', used) => ClosingNeeded(s[1 + used..], h');
  }

  lemma BracketsNeeded(s: string, h: Host)
    requires ParseFlags(s, h).0
    ensures exists i, j :: 0 <= i < j < |s| && s[i] == '<' && s[j] == '>'
  {
    hide Interpret;
    var k := Find(s, '<');
    ClosingNeeded(s[k + 1..], h);
    var j :| 0 <= j < |s[k + 1..]| && s[k + 1..][j] == '>';
    assert s[k] == '<' && s[k + 1 + j] == '>';
  }

  /** The first character of any text. */
  lemma FirstRead(c: char, rest: string, h: Host)
    ensures ParseFrom([c] + rest, h) ==
      match Interpret(c, rest, h)
      case Refuse(h') => (false, h')
      case Accept(h') => (true, h')
      case Proceed(h', used) => ParseFrom(rest[used..], h')
  {
    hide Interpret;
    var s, step := [c] + rest, Interpret(c, rest, h);
    assert s[0] == c && s[1..] == rest;
    if step.Proceed? {
      assert s[1 + step.used..] == rest[step.used..];
    }
  }

  /** The bit each letter sets. */
  function LetterBit(c: char): word {
    match c
    case 't' => TTY
    case 'p' => PIPE
    case 'e' => ETHER
    case 'u' => TUN
    case 'K' => KEEP_ALIVE
    case _ => 0
  }

  predicate IsLetter(c: char) {
    c == 't' || c == 'p' || c == 'e' || c == 'u' || c == 'K'
  }

  predicate Numeric(c: char) {
    c == 'C' || c == 'L' || c == 'E' || c == 'S'
  }

  /** What each character without a number does, in front of any text: the letters set their bits, a protocol letter
      in place of the protocol there was; 'F' is reserved and ignored; '>' ends the flags; every other is an error. */
  lemma CharacterRead(c: char, rest: string, h: Host)
    requires !Numeric(c)
    ensures ParseFrom([c] + rest, h) ==
      if c == '>' then (true, h)
      else if c == 'T' then ParseFrom(rest, SetProtocol(h, TCP))
      else if c == 'U' then ParseFrom(rest, SetProtocol(h, UDP))
      else if IsLetter(c) then ParseFrom(rest, SetFlag(h, LetterBit(c)))
      else if c == 'F' then ParseFrom(rest, h)
      else (false, h)
  {
    hide Interpret, ParseFrom, LetterBit, SetFlag, SetProtocol;
    FirstRead(c, rest, h);
    LetterStep(c, rest, h);
    assert rest[0..] == rest;
  }

  /** A bit is added; a protocol replaces the one there was. */
  lemma SetFlagIs(h: Host, flag: word)
    ensures SetFlag(h, flag) == h.(flags := h.flags | flag)
  {
  }

  lemma SetProtocolIs(h: Host, flag: word)
    ensures SetProtocol(h, flag) == h.(flags := (h.flags & !PROT_MASK) | flag)
  {
  }

  lemma LetterStep(c: char, rest: string, h: Host)
    requires !Numeric(c)
    ensures Interpret(c, rest, h) ==
      if c == '>' then Accept(h)
      else if c == 'T' then Proceed(SetProtocol(h, TCP), 0)
      else if c == 'U' then Proceed(SetProtocol(h, UDP), 0)
      else if IsLetter(c) then Proceed(SetFlag(h, LetterBit(c)), 0)
      else if c == 'F' then Proceed(h, 0)
      else Refuse(h)
  {
    hide Strtol, ToInt, SetFlag, SetProtocol;
  }

  /** And each with a number: what strtol reads of any text, as an int, goes into the field; a missing number is an
      error except behind 'E', where it means the legacy cipher, and so is ERANGE. */
  lemma NumberRead(c: char, rest: string, h: Host)
    requires Numeric(c)
    ensures var (n, used) := Strtol(rest);
      ParseFrom([c] + rest, h) ==
        if ToInt(n) == ERANGE || (used == 0 && c != 'E') then (false, h)
        else ParseFrom(rest[used..], Numbered(c, ToInt(n), h))
  {
    hide Strtol, ToInt, ParseFrom, Interpret, Numbered;
    FirstRead(c, rest, h);
    NumberStep(c, rest, h);
  }

  lemma NumberStep(c: char, rest: string, h: Host)
    requires Numeric(c)
    ensures var (n, used) := Strtol(rest);
      Interpret(c, rest, h)
      == if ToInt(n) == ERANGE || (used == 0 && c != 'E') then Refuse(h) else Proceed(Numbered(c, ToInt(n), h), used)
  {
    hide Strtol, ToInt, SetFlag;
  }
}
