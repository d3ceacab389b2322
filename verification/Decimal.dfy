/** Decimal numbers as printf's %d prints them and strtol reads them. */
module Decimal {

  function Digit(d: nat): char
    requires d < 10
  {
    '0' + d as char
  }

  predicate IsDigit(c: char) {
    '0' <= c <= '9'
  }

  function DigitValue(c: char): (d: nat)
    requires IsDigit(c)
    ensures d < 10
  {
    (c - '0') as nat
  }

  function Digits(n: nat): (r: string)
    ensures |r| > 0
    ensures forall i :: 0 <= i < |r| ==> IsDigit(r[i])
  {
    if n < 10 then [Digit(n)] else Digits(n / 10) + [Digit(n % 10)]
  }

  /** %d */
  function Print(n: int): (r: string)
    ensures r != ""
  {
    if n < 0 then "-" + Digits(-n) else Digits(n)
  }

  /** How many digits s starts with. */
  function DigitRun(s: string): (k: nat)
    ensures k <= |s|
    ensures forall i :: 0 <= i < k ==> IsDigit(s[i])
    ensures k < |s| ==> !IsDigit(s[k])
  {
    if s == "" || !IsDigit(s[0]) then 0 else 1 + DigitRun(s[1..])
  }

  function NatValue(s: string): nat
    requires forall i :: 0 <= i < |s| ==> IsDigit(s[i])
  {
    if s == "" then 0 else NatValue(s[..|s| - 1]) * 10 + DigitValue(s[|s| - 1])
  }

  lemma {:induction false} DigitsValue(n: nat)
    ensures NatValue(Digits(n)) == n
  {
    if n >= 10 {
      var r := Digits(n);
      assert r[..|r| - 1] == Digits(n / 10);
      DigitsValue(n / 10);
    } else {
      assert Digits(n)[..0] == "";
    }
  }

  lemma {:induction false} RunOfDigits(s: string, rest: string)
    requires forall i :: 0 <= i < |s| ==> IsDigit(s[i])
    requires rest == "" || !IsDigit(rest[0])
    ensures DigitRun(s + rest) == |s|
  {
    if s == "" {
      assert s + rest == rest;
    } else {
      assert (s + rest)[1..] == s[1..] + rest;
      RunOfDigits(s[1..], rest);
    }
  }

  const LONG_MAX := 0x7FFF_FFFF_FFFF_FFFF

  /** The nearest long. */
  function Clamp(n: int): (r: int)
    ensures -LONG_MAX - 1 <= r <= LONG_MAX
    ensures -LONG_MAX - 1 <= n <= LONG_MAX ==> r == n
    ensures (n > LONG_MAX ==> r == LONG_MAX) && (n < -LONG_MAX - 1 ==> r == -LONG_MAX - 1)
  {
    if n > LONG_MAX then LONG_MAX else if n < -LONG_MAX - 1 then -LONG_MAX - 1 else n
  }

  predicate IsBlank(c: char) {
    c == ' ' || '\t' <= c <= '\r'
  }

  function Blanks(s: string): (k: nat)
    ensures k <= |s|
  {
    if s == "" || !IsBlank(s[0]) then 0 else 1 + Blanks(s[1..])
  }

  /** A number with its sign at index b of s: its value, kept within a 64-bit long, and where it ends; 0 and 0 if there
      is none. */
  function SignedAt(s: string, b: nat): (r: (int, nat))
    requires b <= |s|
    ensures r.1 <= |s|
  {
    var sign: nat := if b < |s| && (s[b] == '-' || s[b] == '+') then 1 else 0;
    var start := b + sign;
    var k := DigitRun(s[start..]);
    if k == 0 then (0, 0)
    else
      var n: int := NatValue(s[start..start + k]);
      (Clamp(if sign == 1 && s[b] == '-' then -n else n), start + k)
  }

  /** strtol(s, &end, 10): the number, and the index of `end`. */
  function Strtol(s: string): (r: (int, nat))
    ensures r.1 <= |s|
  {
    SignedAt(s, Blanks(s))
  }

  /** The long converted to a 32-bit int. */
  function ToInt(n: int): (r: int)
    ensures -0x8000_0000 <= r < 0x8000_0000
    ensures -0x8000_0000 <= n < 0x8000_0000 ==> r == n
    ensures (r - n) % 0x1_0000_0000 == 0
  {
    var low := n % 0x1_0000_0000;
    if low < 0x8000_0000 then low else low - 0x1_0000_0000
  }

  lemma NoBlanks(s: string)
    requires s != "" && !IsBlank(s[0])
    ensures Blanks(s) == 0
  {
  }

  /** strtol on a string without leading blanks, cut into sign, digits d and the rest. */
  lemma StrtolParts(s: string, sign: nat, d: string)
    requires s != "" && !IsBlank(s[0]) && d != "" && sign + |d| <= |s| && s[sign..sign + |d|] == d
    requires sign == (if s[0] == '-' || s[0] == '+' then 1 else 0) && DigitRun(s[sign..]) == |d|
    requires forall i :: 0 <= i < |d| ==> IsDigit(d[i])
    ensures var n: int := NatValue(d); Strtol(s) == (Clamp(if s[0] == '-' then -n else n), sign + |d|)
  {
    hide Blanks, DigitRun, NatValue, Clamp, IsBlank;
    NoBlanks(s);
  }

  lemma PrintParts(n: int, rest: string)
    ensures var (s, sign, m) := (Print(n) + rest, if n < 0 then 1 else 0, if n < 0 then -n else n);
      && |s| >= sign + |Digits(m)| && s[sign..] == Digits(m) + rest && s[sign..sign + |Digits(m)|] == Digits(m)
      && s[0] == if n < 0 then '-' else Digits(m)[0]
  {
    hide Digits;
  }

  /** What %d prints of an int, strtol reads, up to exactly the next character. */
  lemma ReadPrinted(n: int, rest: string)
    requires -0x8000_0000 <= n < 0x8000_0000
    requires rest == "" || !IsDigit(rest[0])
    ensures Strtol(Print(n) + rest) == (n, |Print(n)|)
  {
    hide Strtol, DigitRun, NatValue, Digits;
    var m: nat := if n < 0 then -n else n;
    PrintParts(n, rest);
    DigitsValue(m);
    RunOfDigits(Digits(m), rest);
    StrtolParts(Print(n) + rest, if n < 0 then 1 else 0, Digits(m));
  }

  /** Where no number starts, strtol consumes nothing. */
  lemma ReadNothing(s: string)
    requires s != "" && s[0] != ' ' && !(9 <= s[0] as int <= 13) && !('0' <= s[0] <= '9') && s[0] != '-' && s[0] != '+'
    ensures Strtol(s) == (0, 0)
  {
  }

  /** Blanks are the space and the characters 9 to 13. */
  lemma BlanksAre(x: char)
    ensures IsBlank(x) <==> x == ' ' || 9 <= x as int <= 13
  {
  }

  /** They are skipped at the front: they only move the end. */
  lemma BlanksSkipped(blank: char, s: string)
    requires blank == ' ' || 9 <= blank as int <= 13
    ensures var (n, end) := Strtol(s); Strtol([blank] + s) == (n, if end == 0 then 0 else end + 1)
  {
    BlanksAre(blank);
    SkipOne(blank, s);
  }

  lemma SkipOne(blank: char, s: string)
    requires IsBlank(blank)
    ensures var (n, end) := Strtol(s); Strtol([blank] + s) == (n, if end == 0 then 0 else end + 1)
  {
    hide SignedAt, IsBlank;
    var t := [blank] + s;
    assert t[1..] == s && t[0] == blank && Blanks(t) == Blanks(s) + 1;
    ShiftOne(blank, s, Blanks(s));
  }

  lemma ShiftOne(x: char, s: string, b: nat)
    requires b <= |s|
    ensures var (n, end) := SignedAt(s, b); SignedAt([x] + s, b + 1) == (n, if end == 0 then 0 else end + 1)
  {
    hide DigitRun, NatValue, Clamp;
    var t := [x] + s;
    var start := b + if b < |s| && (s[b] == '-' || s[b] == '+') then 1 else 0;
    assert b < |s| ==> t[b + 1] == s[b];
    assert t[start + 1..] == s[start..];
    var k := DigitRun(s[start..]);
    assert t[start + 1..start + 1 + k] == s[start..start + k];
  }

  /** A number ends before the first character that is no digit, and needs one digit. */
  lemma NumberEnds(s: string)
    ensures var (n, end) := Strtol(s); end > 0 ==> IsDigit(s[end - 1]) && (end < |s| ==> !IsDigit(s[end]))
  {
    hide NatValue, Clamp, IsBlank, IsDigit;
    var b := Blanks(s);
    var start := b + if b < |s| && (s[b] == '-' || s[b] == '+') then 1 else 0;
    var k := DigitRun(s[start..]);
    assert k > 0 ==> s[start..][k - 1] == s[start + k - 1];
    assert k < |s[start..]| ==> s[start..][k] == s[start + k];
  }
}
