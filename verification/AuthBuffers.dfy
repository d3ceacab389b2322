/** bf2cf, cf2bf and cl2cs (auth.c) on their static buffers and on the host record. */
module AuthBuffers {
  import opened Bytes
  import opened Decimal
  import opened F = Flags
  import H = Handshake

  /** A static string buffer and the pointer behind what is written. */
  class Buffer {
    const str: array<char>
    var ptr: nat

    /** Static storage is zero, and the pointer starts at the beginning. */
    constructor (size: nat)
      requires size > 0
      ensures fresh(str) && str.Length == size && ptr == 0 && Tidy()
    {
      str := new char[size](_ => '\0');
      ptr := 0;
    }

    /** Nothing is written behind the pointer. */
    ghost predicate Clear()
      reads this, str
    {
      ptr <= str.Length && forall i :: ptr <= i < str.Length ==> str[i] == '\0'
    }

    /** Nor behind the byte at the pointer, where strcat puts the closing '>'. */
    ghost predicate Tidy()
      reads this, str
    {
      ptr < str.Length && forall i :: ptr < i < str.Length ==> str[i] == '\0'
    }

    /** *(ptr++) = c for each c, or ptr += sprintf(ptr, ...) of the text. */
    method Put(text: string)
      requires Tidy() && ptr + |text| < str.Length && '\0' !in text && text != ""
      modifies this`ptr, str
      ensures Clear() && ptr == old(ptr) + |text| && str[..ptr] == old(str[..ptr]) + text
    {
      forall i | 0 <= i < |text| {
        str[ptr + i] := text[i];
      }
      ptr := ptr + |text|;
      assert str[..ptr] == str[..old(ptr)] + str[old(ptr)..ptr];
    }

    /** One part of a text: `all` is the whole of it, `rest` what is still to come after this part. */
    method PutIf(present: bool, text: string, ghost rest: string, ghost all: string)
      requires Clear() && |all| < str.Length && rest != "" && '\0' !in text
      requires present ==> text != ""
      requires str[..ptr] + (Optional(present, text) + rest) == all
      modifies this`ptr, str
      ensures Clear() && str[..ptr] + rest == all
    {
      ghost var before := str[..ptr];
      assert |all| == ptr + |Optional(present, text)| + |rest|;
      if present {
        Put(text);
      }
      assert before + Optional(present, text) + rest == all;
    }

    /** bf2cf.  The closing '>' is put there by strcat, which does not move the pointer; the next call begins
        with a '<' in its place. */
    method Bf2cf(h: Host)
      requires Tidy() && ptr + |PrintFlags(h)| < str.Length
      modifies this`ptr, str
      ensures Tidy() && ptr == old(ptr) + |PrintFlags(h)| - 1
      ensures str[..ptr + 1] == old(str[..ptr]) + PrintFlags(h) && str[ptr + 1] == '\0'
    {
      hide PrintFlags, Protocol, Kind, FromShape, Optional;
      ghost var all, before := str[..ptr] + PrintFlags(h), str[..ptr];
      ghost var rest := Protocol(h.flags) + (Kind(h.flags) + FromShape(h, ""));
      OpeningBracket(h);
      Put("<");
      assert str[..ptr] + rest == before + ("<" + rest) == all;
      PutParts(h, all);
      assert |all| == ptr + 1;
      ghost var written := str[..ptr];
      str[ptr] := '>';
      assert str[..ptr + 1] == written + ">";
    }

    /** All parts between the brackets. */
    method PutParts(h: Host, ghost all: string)
      requires Clear() && |all| < str.Length
      requires str[..ptr] + (Protocol(h.flags) + (Kind(h.flags) + FromShape(h, ""))) == all
      modifies this`ptr, str
      ensures Clear() && str[..ptr] + ">" == all
    {
      hide Print, Host.Has, Protocol, Kind, FromShape, FromZlib, FromLzo, FromKeepAlive, FromCipher, Optional;
      NoNul(h);
      Chain(h);
      OptionalText(Protocol(h.flags));
      OptionalText(Kind(h.flags));
      PutAny(Protocol(h.flags), Kind(h.flags) + FromShape(h, ""), all);
      PutAny(Kind(h.flags), FromShape(h, ""), all);
      PutIf(h.Has(SHAPE), "S" + Print(h.spdIn), FromZlib(h, ""), all);
      PutIf(h.Has(ZLIB), "C" + Print(h.zlevel), FromLzo(h, ""), all);
      PutIf(h.Has(LZO), "L" + Print(h.zlevel), FromKeepAlive(h, ""), all);
      PutIf(h.Has(KEEP_ALIVE), "K", FromCipher(h, ""), all);
      PutIf(h.Has(ENCRYPT), "E" + Optional(h.cipher != LEGACY_ENCRYPT, Print(h.cipher)), ">", all);
    }

    /** The first call of a process leaves exactly the printed flags; a second one leaves its own behind them, with
        the first closing bracket overwritten. */
    method Bf2cfTwice(h: Host, k: Host)
      requires Tidy() && ptr == 0 && |PrintFlags(h)| + |PrintFlags(k)| <= str.Length
      modifies this`ptr, str
      ensures var n := |PrintFlags(h)| - 1;
        && n + |PrintFlags(k)| < str.Length
        && str[..n + |PrintFlags(k)|] == PrintFlags(h)[..n] + PrintFlags(k) && str[n + |PrintFlags(k)|] == '\0'
    {
      hide PrintFlags;
      SomeFlags(h);
      SomeFlags(k);
      Bf2cf(h);
      assert str[..ptr] == str[..ptr + 1][..ptr] == ([] + PrintFlags(h))[..ptr] == PrintFlags(h)[..ptr];
      Bf2cf(k);
    }

    /** One part that may be empty. */
    method PutAny(text: string, ghost rest: string, ghost all: string)
      requires Clear() && |all| < str.Length && rest != "" && '\0' !in text
      requires str[..ptr] + (text + rest) == all
      modifies this`ptr, str
      ensures Clear() && str[..ptr] + rest == all
    {
      OptionalText(text);
      if text == "" {
        assert text + rest == rest;
      } else {
        PutIf(true, text, rest, all);
      }
    }
  }

  lemma OpeningBracket(h: Host)
    ensures PrintFlags(h) == "<" + (Protocol(h.flags) + (Kind(h.flags) + FromShape(h, "")))
  {
    hide Protocol, Kind, FromShape;
  }

  lemma OptionalText(text: string)
    ensures Optional(true, text) == text
  {
  }

  lemma SomeFlags(h: Host)
    ensures |PrintFlags(h)| >= 2
  {
    hide Protocol, Kind, Print;
  }

  lemma PowersOfTen()
    ensures Print(9) == "9" && Print(16) == "16" && Print(100000000) == "100000000"
  {
    assert Digits(10) == "10" && Digits(100) == "100" && Digits(1000) == "1000" && Digits(10000) == "10000";
    assert Digits(100000) == "100000" && Digits(1000000) == "1000000" && Digits(10000000) == "10000000";
  }

  function Talkative(): (h: Host)
    ensures h.Has(SHAPE) && h.Has(ZLIB) && h.Has(LZO) && h.Has(KEEP_ALIVE) && h.Has(ENCRYPT)
    ensures Protocol(h.flags) == "U" && Kind(h.flags) == "u"
    ensures h == Host(h.flags, 9, 16, 100000000, 0)
  {
    Host(UDP | TUN | SHAPE | ZLIB | LZO | KEEP_ALIVE | ENCRYPT, 9, 16, 100000000, 0)
  }

  /** The buffer of 20 bytes has room for the flags and their terminator exactly if they are fewer than 20
      characters, and there are hosts with more. */
  lemma FlagsTooLong()
    ensures var h := Talkative();
      h.Valid() && NoErange(h) && PrintFlags(h) == "<UuS100000000C9L9KE16>" && |PrintFlags(h)| + 1 > FLAGS_SIZE
  {
    hide Print, Host.Has, Protocol, Kind, Talkative;
    var h := Talkative();
    PowersOfTen();
    assert FromCipher(h, "") == "E16>";
    hide FromCipher;
    assert FromKeepAlive(h, "") == "KE16>";
    hide FromKeepAlive;
    assert FromLzo(h, "") == "L9KE16>";
    hide FromLzo;
    assert FromZlib(h, "") == "C9L9KE16>";
    hide FromZlib;
    assert FromShape(h, "") == "S100000000C9L9KE16>";
    hide FromShape;
  }

  /** cl2cs: two letters a byte between angle brackets, and the terminator. */
  method Cl2cs(chal: array<byte>, str: array<char>)
    requires chal.Length == H.CHAL_SIZE && str.Length == 2 * H.CHAL_SIZE + 3
    modifies str
    ensures str[..2 * H.CHAL_SIZE + 2] == H.Cl2cs(chal[..]) && str[2 * H.CHAL_SIZE + 2] == '\0'
  {
    str[0] := '<';
    var ptr := 1;
    for i := 0 to H.CHAL_SIZE
      invariant ptr == 1 + 2 * i && str[0] == '<'
      invariant forall j :: 0 <= j < 2 * i ==> str[1 + j] == H.LetterAt(chal[..], j)
    {
      str[ptr] := H.Letter(chal[i] / 16);
      str[ptr + 1] := H.Letter(chal[i] % 16);
      ptr := ptr + 2;
    }
    str[ptr] := '>';
    str[ptr + 1] := '\0';
    ghost var text := H.Cl2cs(chal[..]);
    forall j | 0 <= j < |text| ensures str[j] == text[j] {
      if 1 <= j <= 2 * H.CHAL_SIZE {
        assert text[j] == H.Letters(chal[..])[j - 1] == H.LetterAt(chal[..], j - 1);
        assert str[1 + (j - 1)] == H.LetterAt(chal[..], j - 1);
      }
    }
  }

  /** cs2cl: `chal` is filled in if the text holds a challenge, and left alone otherwise. */
  method Cs2cl(str: string, chal: array<byte>) returns (ok: bool)
    requires chal.Length == H.CHAL_SIZE
    modifies chal
    ensures ok == H.Cs2cl(str).Challenge?
    ensures chal[..] == if ok then H.Cs2cl(str).chal else old(chal[..])
  {
    hide H.TwoLetters;
    var start := Find(str, '<');
    if start == |str| {
      return false;
    }
    var ptr := str[start + 1..];
    var text := H.Cut(ptr, ">");
    if H.Token(ptr, ">").0 == |ptr| || |text| != 2 * H.CHAL_SIZE {
      return false;
    }
    hide H.Cut, H.Token;
    ReadLetters(text, chal);
    ok := true;
    assert chal[..] == H.Cs2cl(str).chal;
  }

  /** The loop of cs2cl. */
  method ReadLetters(text: string, chal: array<byte>)
    requires chal.Length == H.CHAL_SIZE && |text| == 2 * H.CHAL_SIZE
    modifies chal
    ensures forall j :: 0 <= j < H.CHAL_SIZE ==> chal[j] == H.TwoLetters(text[2 * j], text[2 * j + 1])
  {
    for i := 0 to H.CHAL_SIZE
      invariant forall j :: 0 <= j < i ==> chal[j] == H.TwoLetters(text[2 * j], text[2 * j + 1])
    {
      hide OrByte, H.LetterValue;
      chal[i] := H.LetterValue(text[2 * i]) * 16 % 256;
      chal[i] := OrByte(chal[i], H.LetterValue(text[2 * i + 1]));
    }
  }

  /** Each part of the printed flags and what follows it. */
  lemma Chain(h: Host)
    ensures FromShape(h, "") == Optional(h.Has(SHAPE), "S" + Print(h.spdIn)) + FromZlib(h, "")
    ensures FromZlib(h, "") == Optional(h.Has(ZLIB), "C" + Print(h.zlevel)) + FromLzo(h, "")
    ensures FromLzo(h, "") == Optional(h.Has(LZO), "L" + Print(h.zlevel)) + FromKeepAlive(h, "")
    ensures FromKeepAlive(h, "") == Optional(h.Has(KEEP_ALIVE), "K") + FromCipher(h, "")
    ensures FromCipher(h, "") == Optional(h.Has(ENCRYPT), "E" + Optional(h.cipher != LEGACY_ENCRYPT, Print(h.cipher))) + ">"
  {
    hide Print, Host.Has, Protocol, Kind;
    assert ">" + "" == ">";
  }

  lemma NoNul(h: Host)
    ensures '\0' !in Print(h.spdIn) && '\0' !in Print(h.zlevel) && '\0' !in Print(h.cipher)
    ensures '\0' !in Protocol(h.flags) && '\0' !in Kind(h.flags)
    ensures '\0' !in "E" + Optional(h.cipher != LEGACY_ENCRYPT, Print(h.cipher))
  {
  }

  /** The fields of struct vtun_host that cf2bf fills in. */
  class HostRecord {
    var flags: word
    var zlevel: int
    var cipher: int
    var spdIn: int
    var spdOut: int

    function View(): Host
      reads this
    {
      Host(flags, zlevel, cipher, spdIn, spdOut)
    }

    constructor (h: Host)
      ensures View() == h
    {
      flags, zlevel, cipher, spdIn, spdOut := h.flags, h.zlevel, h.cipher, h.spdIn, h.spdOut;
    }

    /** The flags with a number: strtol reads it from `rest`. */
    method TakeNumber(c: char, rest: string) returns (more: bool, used: nat)
      requires c == 'C' || c == 'L' || c == 'E' || c == 'S'
      modifies this
      ensures var step := Interpret(c, rest, old(View()));
        View() == step.h && more == step.Proceed? && (more ==> used == step.used) && !step.Accept?
    {
      hide Strtol, ToInt;
      var (n, end) := Strtol(rest);
      var s := ToInt(n);
      more, used := s != ERANGE && (c == 'E' || end != 0), end;
      if more {
        if c == 'C' {
          flags, zlevel := flags | ZLIB, s;
        } else if c == 'L' {
          flags, zlevel := flags | LZO, s;
        } else if c == 'E' {
          flags, cipher := flags | ENCRYPT, if s == 0 then LEGACY_ENCRYPT else s;
        } else if s != 0 {
          flags, spdOut := flags | SHAPE, s;
        }
      }
    }

    method Set(flag: word)
      modifies this`flags
      ensures View() == SetFlag(old(View()), flag)
    {
      flags := flags | flag;
    }

    method SetProt(flag: word)
      modifies this`flags
      ensures View() == SetProtocol(old(View()), flag)
    {
      hide WithProtocol;
      flags := WithProtocol(flags, flag);
    }

    /** The flags without one. */
    method TakeLetter(c: char, rest: string) returns (more: bool)
      requires c != 'C' && c != 'L' && c != 'E' && c != 'S'
      modifies this`flags
      ensures var step := Interpret(c, rest, old(View()));
        View() == step.h && more == step.Proceed? && (more ==> step.used == 0) && (step.Accept? <==> c == '>')
    {
      hide Strtol, ToInt, SetFlag, SetProtocol;
      more := true;
      match c {
        case 't' => Set(TTY);
        case 'p' => Set(PIPE);
        case 'e' => Set(ETHER);
        case 'u' => Set(TUN);
        case 'U' => SetProt(UDP);
        case 'T' => SetProt(TCP);
        case 'K' => Set(KEEP_ALIVE);
        case 'F' =>
        case _ => more := false;
      }
    }

    /** cf2bf */
    method Cf2bf(str: string) returns (ok: bool)
      modifies this
      ensures (ok, View()) == ParseFlags(str, old(View()))
    {
      hide Interpret, ParseFrom;
      var ptr := Find(str, '<');
      if ptr == |str| {
        return false;
      }
      ptr := ptr + 1;
      while ptr < |str|
        invariant 0 <= ptr <= |str|
        invariant ParseFrom(str[ptr..], View()) == ParseFlags(str, old(View()))
      {
        ParseAt(str, ptr, View());
        var c, more, used := str[ptr], true, 0;
        if c == 'C' || c == 'L' || c == 'E' || c == 'S' {
          more, used := TakeNumber(c, str[ptr + 1..]);
        } else {
          more := TakeLetter(c, str[ptr + 1..]);
        }
        if !more {
          return c == '>';
        }
        ptr := ptr + 1 + used;
      }
      assert str[ptr..] == "";
      ParseEmpty(View());
      return false;
    }
  }

  lemma ParseAt(s: string, p: nat, h: Host)
    requires p < |s|
    ensures ParseFrom(s[p..], h) ==
      match Interpret(s[p], s[p + 1..], h)
      case Refuse(h') => (false, h')
      case Accept(h') => (true, h')
      case Proceed(h', used) => ParseFrom(s[p + 1 + used..], h')
  {
    hide Interpret;
    assert s[p..][0] == s[p] && s[p..][1..] == s[p + 1..];
    var step := Interpret(s[p], s[p + 1..], h);
    if step.Proceed? {
      assert s[p..][1 + step.used..] == s[p + 1 + step.used..];
    }
  }

  lemma ParseEmpty(h: Host)
    ensures ParseFrom("", h) == (false, h)
  {
  }
}
