/** subst_opt (lib.c): expanding the %X options of a command template in a growing buffer. */
module Template {
  import Decimal

  /** A string of struct vtun_sopt. */
  datatype CString = Null | Str(value: string)

  datatype Options = Options(dev: CString, laddr: CString, lport: int, raddr: CString, rport: int, host: CString)

  /** The values %X can stand for: known options, some of them NULL, and unknown ones. */
  datatype Lookup = Unknown | Known(value: CString)

  function Option(opts: Options, x: char): Lookup {
    match x
    case '%' => Known(opts.dev)
    case 'd' => Known(opts.dev)
    case 'A' => Known(opts.laddr)
    case 'P' => Known(Str(Decimal.Print(opts.lport)))
    case 'a' => Known(opts.raddr)
    case 'p' => Known(Str(Decimal.Print(opts.rport)))
    case 'h' => Known(opts.host)
    case _ => Unknown
  }

  /** What a known option contributes: NULL contributes nothing. */
  function Text(value: CString): string {
    match value
    case Null => ""
    case Str(t) => t
  }

  /** The meaning of a template without backslashes: known options are replaced, an unknown %X loses its
      percent sign. */
  function Expand(s: string, opts: Options): string
    decreases |s|
  {
    if s == "" then ""
    else if s[0] != '%' then [s[0]] + Expand(s[1..], opts)
    else if |s| == 1 then ""
    else
      match Option(opts, s[1])
      case Unknown => Expand(s[1..], opts)
      case Known(value) => Text(value) + Expand(s[2..], opts)
  }

  /* ---------- the loop, backslashes included ---------- */

  /** How a run ends: it copies the terminator of the template and goes on behind it, or it is done.  `inside`
      says that every byte it read of the new buffer lay in that buffer. */
  datatype Outcome = Overrun | Done(text: string, inside: bool)

  /** Byte i of the new buffer when `written` has been written: behind that it holds what memory held. */
  function ByteAt(memory: nat -> char, written: string, i: nat): char {
    if i < |written| then written[i] else memory(i)
  }

  /** After a backslash the code tests a byte of the new buffer, not of the template: if it is zero, the next
      character is not taken along with the backslash. */
  function Walk(str: string, opts: Options, memory: nat -> char, sp: nat, written: string, slen: int, inside: bool): (r: Outcome)
    requires sp <= |str|
    decreases |str| - sp
  {
    if sp == |str| then Done(written, inside)
    else if str[sp] == '%' then
      match if sp + 1 < |str| then Option(opts, str[sp + 1]) else Unknown
      case Unknown => Walk(str, opts, memory, sp + 1, written, slen, inside)
      case Known(Null) => Walk(str, opts, memory, sp + 2, written, slen, inside)
      case Known(Str(t)) => Walk(str, opts, memory, sp + 2, written + t, slen - 2 + |t|, inside)
    else if str[sp] == '\\' then
      var copied := written + ['\\'];
      var still := inside && sp + 1 < slen;
      if ByteAt(memory, copied, sp + 1) == '\0' then Walk(str, opts, memory, sp + 1, copied, slen, still)
      else if sp + 1 == |str| then Overrun
      else Walk(str, opts, memory, sp + 2, copied + [str[sp + 1]], slen, still)
    else Walk(str, opts, memory, sp + 1, written + [str[sp]], slen, inside)
  }

  function Run(str: string, opts: Options, memory: nat -> char): Outcome {
    Walk(str, opts, memory, 0, "", |str| + 1, true)
  }

  lemma AtPercent(str: string, opts: Options, memory: nat -> char, sp: nat, written: string, slen: int, inside: bool)
    requires sp < |str| && str[sp] == '%'
    ensures Walk(str, opts, memory, sp, written, slen, inside) ==
      match if sp + 1 < |str| then Option(opts, str[sp + 1]) else Unknown
      case Unknown => Walk(str, opts, memory, sp + 1, written, slen, inside)
      case Known(Null) => Walk(str, opts, memory, sp + 2, written, slen, inside)
      case Known(Str(t)) => Walk(str, opts, memory, sp + 2, written + t, slen - 2 + |t|, inside)
  {
  }

  lemma AtBackslash(str: string, opts: Options, memory: nat -> char, sp: nat, written: string, slen: int, inside: bool)
    requires sp < |str| && str[sp] == '\\'
    ensures var (copied, still) := (written + ['\\'], inside && sp + 1 < slen);
      Walk(str, opts, memory, sp, written, slen, inside) ==
      if ByteAt(memory, copied, sp + 1) == '\0' then Walk(str, opts, memory, sp + 1, copied, slen, still)
      else if sp + 1 == |str| then Overrun
      else Walk(str, opts, memory, sp + 2, copied + [str[sp + 1]], slen, still)
  {
  }

  lemma AtOther(str: string, opts: Options, memory: nat -> char, sp: nat, written: string, slen: int, inside: bool)
    requires sp < |str| && str[sp] != '%' && str[sp] != '\\'
    ensures Walk(str, opts, memory, sp, written, slen, inside)
      == Walk(str, opts, memory, sp + 1, written + [str[sp]], slen, inside)
  {
  }

  lemma AtEnd(str: string, opts: Options, memory: nat -> char, written: string, slen: int, inside: bool)
    ensures Walk(str, opts, memory, |str|, written, slen, inside) == Done(written, inside)
  {
  }

  /** realloc to `size` characters, and memcpy of optr behind the np characters written. */
  method Grow(nstr: array<char>, np: nat, optr: string, size: nat, memory: nat -> char) returns (a: array<char>)
    requires np <= nstr.Length && np + |optr| <= size
    requires forall i :: np <= i < nstr.Length ==> nstr[i] == memory(i)
    ensures fresh(a) && a.Length == size && a[..np + |optr|] == nstr[..np] + optr
    ensures forall i :: np + |optr| <= i < size ==> a[i] == memory(i)
  {
    a := new char[size](i requires 0 <= i => memory(i));
    forall i | 0 <= i < size && i < nstr.Length {
      a[i] := nstr[i];
    }
    forall i | 0 <= i < |optr| {
      a[np + i] := optr[i];
    }
  }

  /** nstr[sp], wherever that is. */
  method Peek(nstr: array<char>, np: nat, sp: nat, memory: nat -> char) returns (byte: char)
    requires np <= nstr.Length && forall i :: np <= i < nstr.Length ==> nstr[i] == memory(i)
    ensures byte == ByteAt(memory, nstr[..np], sp)
  {
    byte := if sp < nstr.Length then nstr[sp] else memory(sp);
  }

  /** subst_opt.  `memory` is what the bytes of the new buffer, and those behind it, hold before they are
      written.  The buffer always has room for what is written, the characters still unread and the terminator,
      through every reallocation.  `failed` says that an allocation failed, and then the template itself is
      returned; `overrun` that the run leaves the template, which is where the method stops. */
  method SubstOpt(str: string, opts: Options, memory: nat -> char)
    returns (nstr: array<char>, failed: bool, overrun: bool, inside: bool)
    requires '\0' !in str
    ensures fresh(nstr)
    ensures failed ==> nstr[..] == str && !overrun
    ensures !failed ==>
      match Run(str, opts, memory)
      case Overrun => overrun
      case Done(text, within) =>
        !overrun && inside == within && nstr.Length > |text| && nstr[..|text|] == text && nstr[|text|] == '\0'
  {
    hide Option, Walk, ByteAt;
    var slen := |str| + 1;
    failed, overrun, inside := *, false, true;
    if failed {
      nstr := new char[|str|](i requires 0 <= i < |str| => str[i]);
      return;
    }
    nstr := new char[slen](i requires 0 <= i => memory(i));
    var sp, np := 0, 0;
    assert nstr[..0] == "";
    while sp < |str|
      invariant 0 <= sp <= |str| && 0 <= np && fresh(nstr) && nstr.Length == slen && !failed && !overrun
      invariant slen - np >= |str| - sp + 1
      invariant forall i :: np <= i < slen ==> nstr[i] == memory(i)
      invariant Walk(str, opts, memory, sp, nstr[..np], slen, inside) == Run(str, opts, memory)
      decreases |str| - sp
    {
      ghost var written := nstr[..np];
      if str[sp] == '%' {
        AtPercent(str, opts, memory, sp, written, slen, inside);
        var x := if sp + 1 < |str| then Option(opts, str[sp + 1]) else Unknown;
        if x.Unknown? {
          sp := sp + 1;
          continue;
        }
        if x.value.Str? {
          var optr := x.value.value;
          slen := slen - 2 + |optr|;
          failed := *;
          if failed {
            nstr := new char[|str|](i requires 0 <= i < |str| => str[i]);
            return;
          }
          nstr := Grow(nstr, np, optr, slen, memory);
          np := np + |optr|;
        }
        sp := sp + 2;
        continue;
      }
      if str[sp] == '\\' {
        AtBackslash(str, opts, memory, sp, written, slen, inside);
        nstr[np] := '\\';
        np, sp := np + 1, sp + 1;
        ghost var copied := written + ['\\'];
        assert nstr[..np] == copied;
        var byte := Peek(nstr, np, sp, memory);
        inside := inside && sp < slen;
        if byte == '\0' {
          continue;
        }
        if sp == |str| {
          overrun := true;
          return;
        }
        nstr[np] := str[sp];
        assert nstr[..np + 1] == copied + [str[sp]];
        np, sp := np + 1, sp + 1;
        continue;
      }
      AtOther(str, opts, memory, sp, written, slen, inside);
      nstr[np] := str[sp];
      assert nstr[..np + 1] == written + [str[sp]];
      np, sp := np + 1, sp + 1;
    }
    AtEnd(str, opts, memory, nstr[..np], slen, inside);
    ghost var text := nstr[..np];
    nstr[np] := '\0';
    assert nstr[..np] == text;
  }

  /* ---------- templates without backslashes ---------- */

  /** One step of the expansion at position p. */
  lemma ExpandAt(str: string, p: nat, opts: Options)
    requires p < |str|
    ensures Expand(str[p..], opts) ==
      if str[p] != '%' then [str[p]] + Expand(str[p + 1..], opts)
      else if p + 1 == |str| then ""
      else
        match Option(opts, str[p + 1])
        case Unknown => Expand(str[p + 1..], opts)
        case Known(value) => Text(value) + Expand(str[p + 2..], opts)
  {
    assert str[p..][0] == str[p] && str[p..][1..] == str[p + 1..];
    assert p + 1 < |str| ==> str[p..][1] == str[p + 1] && str[p..][2..] == str[p + 2..];
  }

  lemma {:induction false} WalkExpands(str: string, opts: Options, memory: nat -> char, sp: nat, written: string, slen: int)
    requires sp <= |str| && '\\' !in str[sp..]
    ensures Walk(str, opts, memory, sp, written, slen, true) == Done(written + Expand(str[sp..], opts), true)
    decreases |str| - sp
  {
    if sp == |str| {
      assert str[sp..] == "" && written + "" == written;
    } else {
      hide Option, Expand;
      assert str[sp..][0] == str[sp] && str[sp + 1..] == str[sp..][1..];
      ExpandAt(str, sp, opts);
      var x := if sp + 1 < |str| then Option(opts, str[sp + 1]) else Unknown;
      if str[sp] != '%' {
        WalkExpands(str, opts, memory, sp + 1, written + [str[sp]], slen);
        Regroup(written, [str[sp]], Expand(str[sp + 1..], opts));
      } else if x.Unknown? {
        WalkExpands(str, opts, memory, sp + 1, written, slen);
        LastPercent(str, sp, opts);
      } else {
        var more := Text(x.value);
        assert str[sp + 2..] == str[sp..][2..];
        WalkExpands(str, opts, memory, sp + 2, written + more, slen - (if x.value.Str? then 2 - |more| else 0));
        Regroup(written, more, Expand(str[sp + 2..], opts));
        assert written + "" == written;
      }
    }
  }

  lemma Regroup(a: string, b: string, c: string)
    ensures a + (b + c) == a + b + c
  {
  }

  lemma LastPercent(str: string, sp: nat, opts: Options)
    requires sp < |str|
    ensures sp + 1 == |str| ==> Expand(str[sp + 1..], opts) == ""
  {
  }

  /** Main result: a template without backslashes is expanded, whatever memory holds, and nothing is read outside. */
  lemma RunExpands(str: string, opts: Options, memory: nat -> char)
    requires '\\' !in str
    ensures Run(str, opts, memory) == Done(Expand(str, opts), true)
  {
    assert str[0..] == str;
    WalkExpands(str, opts, memory, 0, "", |str| + 1);
    assert str[0..] == str && "" + Expand(str, opts) == Expand(str, opts);
  }

  /* ---------- which templates stay in their buffers ---------- */

  predicate EndsInBackslash(str: string) {
    str != "" && str[|str| - 1] == '\\'
  }

  lemma {:induction false} WalkIsDone(str: string, opts: Options, memory: nat -> char, sp: nat, written: string, slen: int, inside: bool)
    requires sp <= |str| && !EndsInBackslash(str)
    ensures Walk(str, opts, memory, sp, written, slen, inside).Done?
    decreases |str| - sp
  {
    hide Option, ByteAt;
    if sp == |str| {
    } else if str[sp] == '%' {
      match if sp + 1 < |str| then Option(opts, str[sp + 1]) else Unknown
      case Unknown => WalkIsDone(str, opts, memory, sp + 1, written, slen, inside);
      case Known(Null) => WalkIsDone(str, opts, memory, sp + 2, written, slen, inside);
      case Known(Str(t)) => WalkIsDone(str, opts, memory, sp + 2, written + t, slen - 2 + |t|, inside);
    } else if str[sp] == '\\' {
      var copied, still := written + ['\\'], inside && sp + 1 < slen;
      WalkIsDone(str, opts, memory, sp + 1, copied, slen, still);
      WalkIsDone(str, opts, memory, sp + 2, copied + [str[sp + 1]], slen, still);
    } else {
      WalkIsDone(str, opts, memory, sp + 1, written + [str[sp]], slen, inside);
    }
  }

  /** Options and memory with which a last backslash is fatal: no string is long enough to be written ahead of
      what is read, and memory is zero up to the end of the template and not zero there. */
  function Bare(): Options {
    Options(Null, Null, 0, Null, 0, Null)
  }

  function ZeroUpTo(n: nat): nat -> char {
    i => if i == n then 'x' else '\0'
  }

  lemma {:induction false} WalkOverruns(str: string, sp: nat, written: string, slen: int, inside: bool)
    requires sp < |str| && EndsInBackslash(str) && |written| <= sp
    ensures Walk(str, Bare(), ZeroUpTo(|str|), sp, written, slen, inside).Overrun?
    decreases |str| - sp
  {
    if str[sp] == '%' {
      match Option(Bare(), str[sp + 1])
      case Unknown => WalkOverruns(str, sp + 1, written, slen, inside);
      case Known(Null) => WalkOverruns(str, sp + 2, written, slen, inside);
      case Known(Str(t)) => WalkOverruns(str, sp + 2, written + t, slen - 2 + |t|, inside);
    } else if str[sp] == '\\' {
      if sp + 1 < |str| {
        WalkOverruns(str, sp + 1, written + ['\\'], slen, inside && sp + 1 < slen);
      }
    } else {
      WalkOverruns(str, sp + 1, written + [str[sp]], slen, inside);
    }
  }

  /** Main result: a template is safe with all options and all contents of memory exactly if its last character is
      no backslash. */
  lemma SafeExactly(str: string)
    ensures (forall opts, memory {:trigger Run(str, opts, memory)} :: Run(str, opts, memory).Done?) <==> !EndsInBackslash(str)
  {
    hide Walk;
    if EndsInBackslash(str) {
      WalkOverruns(str, 0, "", |str| + 1, true);
      assert Run(str, Bare(), ZeroUpTo(|str|)).Overrun?;
    } else {
      forall opts, memory ensures Run(str, opts, memory).Done? {
        WalkIsDone(str, opts, memory, 0, "", |str| + 1, true);
      }
    }
  }

  /* ---------- where the byte is read ---------- */

  /** No value is shorter than the two characters %X that it replaces. */
  ghost predicate Long(opts: Options) {
    forall x: char :: Option(opts, x).Known? && Option(opts, x).value.Str? ==> |Option(opts, x).value.value| >= 2
  }

  lemma {:induction false} WalkReadsInside(str: string, opts: Options, memory: nat -> char, sp: nat, written: string, slen: int)
    requires sp <= |str| && Long(opts) && slen > |str|
    ensures var r := Walk(str, opts, memory, sp, written, slen, true); r.Done? ==> r.inside
    decreases |str| - sp
  {
    hide Option, ByteAt;
    if sp == |str| {
    } else if str[sp] == '%' {
      match if sp + 1 < |str| then Option(opts, str[sp + 1]) else Unknown
      case Unknown => WalkReadsInside(str, opts, memory, sp + 1, written, slen);
      case Known(Null) => WalkReadsInside(str, opts, memory, sp + 2, written, slen);
      case Known(Str(t)) => WalkReadsInside(str, opts, memory, sp + 2, written + t, slen - 2 + |t|);
    } else if str[sp] == '\\' {
      var copied := written + ['\\'];
      WalkReadsInside(str, opts, memory, sp + 1, copied, slen);
      if sp + 1 < |str| {
        WalkReadsInside(str, opts, memory, sp + 2, copied + [str[sp + 1]], slen);
      }
    } else {
      WalkReadsInside(str, opts, memory, sp + 1, written + [str[sp]], slen);
    }
  }

  /** The failing template: two short values in front of a backslash. */
  function Shrinking(x: char): string {
    ['%', x, '%', x, '\\', 'y']
  }

  lemma ShrinkingReadsOutside(opts: Options, x: char, memory: nat -> char)
    requires Option(opts, x).Known? && Option(opts, x).value.Str? && |Option(opts, x).value.value| < 2
    ensures Run(Shrinking(x), opts, memory).Done? && !Run(Shrinking(x), opts, memory).inside
  {
    hide Option, ByteAt;
    var str, t := Shrinking(x), Option(opts, x).value.value;
    var l := 3 + 2 * |t|;
    assert Run(str, opts, memory) == Walk(str, opts, memory, 2, "" + t, 5 + |t|, true);
    assert Walk(str, opts, memory, 2, "" + t, 5 + |t|, true) == Walk(str, opts, memory, 4, "" + t + t, l, true);
    var w := "" + t + t + ['\\'];
    assert Walk(str, opts, memory, 5, w, l, false) == Walk(str, opts, memory, 6, w + ['y'], l, false) == Done(w + ['y'], false);
  }

  /** With given options, the tested byte lies in the buffer for all templates and all contents of memory exactly
      if none of the values is shorter than two characters. */
  lemma ReadsInsideExactly(opts: Options)
    ensures (forall str, memory {:trigger Run(str, opts, memory)} :: Run(str, opts, memory).Done? ==> Run(str, opts, memory).inside)
      <==> Long(opts)
  {
    hide Walk, Option;
    if Long(opts) {
      forall str, memory ensures Run(str, opts, memory).Done? ==> Run(str, opts, memory).inside {
        WalkReadsInside(str, opts, memory, 0, "", |str| + 1);
      }
    } else {
      var x :| Option(opts, x).Known? && Option(opts, x).value.Str? && |Option(opts, x).value.value| < 2;
      ShrinkingReadsOutside(opts, x, i => '\0');
      assert !Run(Shrinking(x), opts, i => '\0').inside;
    }
  }

  /* ---------- what the letters stand for ---------- */

  /** Each option, and a percent sign in front of anything else is lost. */
  lemma LettersExpand(opts: Options, x: char)
    ensures Expand("%%", opts) == Expand("%d", opts) == Text(opts.dev)
    ensures Expand("%A", opts) == Text(opts.laddr) && Expand("%a", opts) == Text(opts.raddr)
    ensures Expand("%P", opts) == Decimal.Print(opts.lport) && Expand("%p", opts) == Decimal.Print(opts.rport)
    ensures Expand("%h", opts) == Text(opts.host)
    ensures x != '%' && x != 'd' && x != 'A' && x != 'a' && x != 'P' && x != 'p' && x != 'h' ==> Expand(['%', x], opts) == [x]
    ensures Expand("%", opts) == ""
  {
    hide Decimal.Print;
    OneOption('%', opts);
    OneOption('d', opts);
    OneOption('A', opts);
    OneOption('a', opts);
    OneOption('P', opts);
    OneOption('p', opts);
    OneOption('h', opts);
    OneOption(x, opts);
  }

  lemma OneOption(x: char, opts: Options)
    ensures Expand(['%', x], opts) ==
      match Option(opts, x)
      case Unknown => Expand([x], opts)
      case Known(value) => Text(value)
    ensures x != '%' ==> Expand([x], opts) == [x]
  {
    hide Option;
    var s := ['%', x];
    assert s[1..] == [x] && s[2..] == "" && [x][1..] == "";
    assert forall t: string :: t + "" == t;
  }

  /** A backslash is kept.  If the tested byte is not zero the next character is kept with it, whatever it is; if it is
      zero, the next character is read like any other. */
  lemma BackslashKeeps(x: char, rest: string, opts: Options, memory: nat -> char)
    requires '\\' !in rest
    ensures memory(1) != '\0' ==>
      Run(['\\', x] + rest, opts, memory) == Done(['\\', x] + Expand(rest, opts), true)
    ensures memory(1) == '\0' && x != '\\' ==>
      Run(['\\', x] + rest, opts, memory) == Done(['\\'] + Expand([x] + rest, opts), true)
  {
    var str := ['\\', x] + rest;
    var n := |str| + 1;
    assert str[2..] == rest && str[1..] == [x] + rest;
    if memory(1) != '\0' {
      WalkExpands(str, opts, memory, 2, ['\\', x], n);
      assert ['\\'] + [x] == ['\\', x] && "" + ['\\'] == ['\\'];
    } else if x != '\\' {
      WalkExpands(str, opts, memory, 1, ['\\'], n);
      assert "" + ['\\'] == ['\\'];
    }
  }
}
