/** split_args (lib.c): cutting a command line into arguments inside the string itself. */
module Splitter {

  /** How far an argument has got: none begun, begun, begun and inside quotes. */
  datatype Mode = Outside | Plain | Quoted

  /** The arguments still to come when `cur` has been read of the current one. */
  function Tokens(s: string, mode: Mode, cur: string): (r: seq<string>)
    decreases |s|
  {
    if s == "" then if mode.Outside? then [] else [cur]
    else
      match s[0]
      case ' ' =>
        if mode.Outside? then Tokens(s[1..], Outside, "")
        else if mode.Plain? then [cur] + Tokens(s[1..], Outside, "")
        else Tokens(s[1..], Quoted, cur + " ")
      case '\'' =>
        if mode.Outside? then Tokens(s[1..], Quoted, "")
        else Tokens(s[1..], if mode.Plain? then Quoted else Plain, cur)
      case '\\' =>
        if |s| == 1 then Tokens("", mode, cur)
        else Tokens(s[2..], if mode.Outside? then Plain else mode, (if mode.Outside? then "" else cur) + [s[1]])
      case _ =>
        Tokens(s[1..], if mode.Outside? then Plain else mode, (if mode.Outside? then "" else cur) + [s[0]])
  }

  /** The arguments of a command line. */
  function Arguments(s: string): seq<string> {
    Tokens(s, Outside, "")
  }

  /** An argument in quotes, with a backslash before every quote and backslash. */
  function Escaped(t: string): string
    decreases |t|
  {
    if t == "" then ""
    else (if t[0] == '\'' || t[0] == '\\' then ['\\', t[0]] else [t[0]]) + Escaped(t[1..])
  }

  function CommandLine(args: seq<string>): string
    decreases |args|
  {
    if args == [] then "" else "'" + Escaped(args[0]) + "' " + CommandLine(args[1..])
  }

  lemma ReadQuotedCharacter(c: char, more: string, cur: string)
    ensures var s := if c == '\'' || c == '\\' then ['\\', c] + more else [c] + more;
      Tokens(s, Quoted, cur) == Tokens(more, Quoted, cur + [c])
  {
    assert (['\\', c] + more)[2..] == more && ([c] + more)[1..] == more;
  }

  lemma {:induction false} ReadEscaped(t: string, rest: string, cur: string)
    ensures Tokens(Escaped(t) + rest, Quoted, cur) == Tokens(rest, Quoted, cur + t)
    decreases |t|
  {
    hide Tokens;
    if t == "" {
      assert Escaped(t) + rest == rest && cur + t == cur;
    } else {
      var more := Escaped(t[1..]) + rest;
      assert Escaped(t) + rest == if t[0] == '\'' || t[0] == '\\' then ['\\', t[0]] + more else [t[0]] + more;
      ReadQuotedCharacter(t[0], more, cur);
      ReadEscaped(t[1..], rest, cur + [t[0]]);
      assert cur + [t[0]] + t[1..] == cur + t;
    }
  }

  /** Any list of arguments can be written as a command line that is split into exactly those arguments. */
  lemma {:induction false} SplitCommandLine(args: seq<string>)
    ensures Arguments(CommandLine(args)) == args
    decreases |args|
  {
    if args != [] {
      var more := CommandLine(args[1..]);
      var s := CommandLine(args);
      assert s[1..] == Escaped(args[0]) + ("' " + more);
      ReadEscaped(args[0], "' " + more, "");
      assert "" + args[0] == args[0];
      assert ("' " + more)[1..] == " " + more && (" " + more)[1..] == more;
      SplitCommandLine(args[1..]);
    }
  }

  /** The C string that starts at index a of b is t. */
  ghost predicate ReadsAs(b: seq<char>, a: int, t: string) {
    0 <= a && a + |t| < |b| && b[a..a + |t|] == t && b[a + |t|] == '\0' && '\0' !in t
  }

  /** The finished arguments all end before `limit`. */
  ghost predicate Finished(b: seq<char>, argv: seq<int>, done: seq<string>, limit: int) {
    |done| <= |argv| &&
    forall j :: 0 <= j < |done| ==> ReadsAs(b, argv[j], done[j]) && argv[j] + |done[j]| < limit
  }

  /** Nothing below `limit` changed, nor did the finished entries of argv. */
  lemma FinishedFrame(b: seq<char>, b': seq<char>, argv: seq<int>, argv': seq<int>, done: seq<string>, limit: int, limit': int)
    requires Finished(b, argv, done, limit) && 0 <= limit <= limit' && limit <= |b| == |b'| && b[..limit] == b'[..limit]
    requires |done| <= |argv'| && argv[..|done|] == argv'[..|done|]
    ensures Finished(b', argv', done, limit')
  {
    forall j | 0 <= j < |done| ensures ReadsAs(b', argv'[j], done[j]) && argv'[j] + |done[j]| < limit' {
      assert argv'[..|done|][j] == argv[..|done|][j];
      var a, t := argv[j], done[j];
      assert ReadsAs(b, a, t);
      forall k | a <= k <= a + |t| ensures b'[k] == b[k] {
        assert b'[k] == b'[..limit][k];
      }
    }
  }

  /** memmove(a + 1, a, p - a): the argument moves one place to the right, over what stood at p. */
  method ShiftRight(buf: array<char>, a: nat, p: nat)
    requires a <= p < buf.Length
    modifies buf
    ensures buf[a + 1..p + 1] == old(buf[a..p])
    ensures buf[..a] == old(buf[..a]) && buf[p + 1..] == old(buf[p + 1..])
  {
    forall k | a < k <= p {
      buf[k] := buf[k - 1];
    }
  }

  /** The layout after p characters: `done` are the finished arguments, `cur` is the current one, which
      ends where reading goes on. */
  ghost predicate Layout(s: string, b: seq<char>, argv: seq<int>, p: nat, mode: Mode, done: seq<string>, cur: string) {
    && p <= |s| < |b| && b[p..|s|] == s[p..] && b[|s|] == '\0' && '\0' !in s
    && '\0' !in cur
    && if mode.Outside? then cur == "" && Finished(b, argv, done, p)
       else
         |done| < |argv| &&
         var a := argv[|done|];
         0 <= a <= p && b[a..p] == cur && Finished(b, argv, done, a)
  }

  lemma NextCharacter(s: string, b: seq<char>, argv: seq<int>, p: nat, mode: Mode, done: seq<string>, cur: string)
    requires Layout(s, b, argv, p, mode, done, cur)
    ensures b[p] == '\0' <==> p == |s|
    ensures p < |s| ==> b[p] == s[p] && b[p + 1..|s|] == s[p + 1..]
  {
    if p < |s| {
      assert b[p] == b[p..|s|][0];
      assert b[p + 1..|s|] == b[p..|s|][1..];
    }
  }

  lemma SkipBlank(s: string, b: seq<char>, argv: seq<int>, p: nat, done: seq<string>)
    requires Layout(s, b, argv, p, Outside, done, "") && p < |s|
    ensures Layout(s, b, argv, p + 1, Outside, done, "")
  {
    NextCharacter(s, b, argv, p, Outside, done, "");
    FinishedFrame(b, b, argv, argv, done, p, p + 1);
  }

  /** A blank after a plain argument becomes its terminator. */
  lemma EndArgument(s: string, b: seq<char>, argv: seq<int>, p: nat, done: seq<string>, cur: string)
    requires Layout(s, b, argv, p, Plain, done, cur) && p < |s|
    ensures Layout(s, b[p := '\0'], argv, p + 1, Outside, done + [cur], "")
  {
    NextCharacter(s, b, argv, p, Plain, done, cur);
    var a, b' := argv[|done|], b[p := '\0'];
    FinishedFrame(b, b', argv, argv, done, a, a);
    assert ReadsAs(b', a, cur);
    assert Finished(b', argv, done + [cur], p + 1);
  }

  lemma OpenQuote(s: string, b: seq<char>, argv: seq<int>, p: nat, done: seq<string>)
    requires Layout(s, b, argv, p, Outside, done, "") && p < |s| && |done| < |argv|
    ensures Layout(s, b, argv[|done| := p + 1], p + 1, Quoted, done, "")
  {
    NextCharacter(s, b, argv, p, Outside, done, "");
    FinishedFrame(b, b, argv, argv[|done| := p + 1], done, p, p + 1);
  }

  lemma TakeCharacter(s: string, b: seq<char>, argv: seq<int>, p: nat, mode: Mode, done: seq<string>, cur: string)
    requires Layout(s, b, argv, p, mode, done, cur) && p < |s| && |done| < |argv|
    ensures var argv' := if mode.Outside? then argv[|done| := p] else argv;
      Layout(s, b, argv', p + 1, if mode.Outside? then Plain else mode, done, cur + [s[p]])
  {
    NextCharacter(s, b, argv, p, mode, done, cur);
    var argv' := if mode.Outside? then argv[|done| := p] else argv;
    if mode.Outside? {
      FinishedFrame(b, b, argv, argv', done, p, p);
    }
    var a := argv'[|done|];
    assert b[a..p + 1] == b[a..p] + [b[p]];
  }

  /** The current argument has moved one place to the right, over the quote or backslash at p. */
  lemma Squeezed(s: string, b: seq<char>, b': seq<char>, argv: seq<int>, p: nat, mode: Mode, mode': Mode,
                 done: seq<string>, cur: string)
    requires Layout(s, b, argv, p, mode, done, cur) && p < |s| && !mode.Outside? && !mode'.Outside?
    requires var a := argv[|done|];
      |b'| == |b| && b'[a + 1..p + 1] == b[a..p] && b'[..a] == b[..a] && b'[p + 1..] == b[p + 1..]
    ensures Layout(s, b', argv[|done| := argv[|done|] + 1], p + 1, mode', done, cur)
  {
    NextCharacter(s, b, argv, p, mode, done, cur);
    var a := argv[|done|];
    FinishedFrame(b, b', argv, argv[|done| := a + 1], done, a, a + 1);
    assert b'[p + 1..|s|] == b'[p + 1..][..|s| - p - 1] == b[p + 1..|s|];
    assert b'[|s|] == b'[p + 1..][|s| - p - 1];
  }

  /** The loop of split_args over argument i. */
  method Squeeze(buf: array<char>, argv: array<int>, i: nat, p: nat, mode: Mode, mode': Mode,
                 ghost s: string, ghost done: seq<string>, ghost cur: string)
    requires Layout(s, buf[..], argv[..], p, mode, done, cur) && i == |done| && p < |s|
    requires !mode.Outside? && !mode'.Outside?
    modifies buf, argv
    ensures Layout(s, buf[..], argv[..], p + 1, mode', done, cur)
    ensures argv[..] == old(argv[..])[i := old(argv[i]) + 1]
    ensures buf[|s|..] == old(buf[|s|..])
  {
    var a := argv[i];
    ghost var b, v := buf[..], argv[..];
    ShiftRight(buf, a, p);
    argv[i] := a + 1;
    assert argv[..] == v[i := a + 1];
    assert buf[..][a + 1..p + 1] == buf[a + 1..p + 1] && buf[..][..a] == buf[..a] && buf[..][p + 1..] == buf[p + 1..];
    Squeezed(s, b, buf[..], v, p, mode, mode', done, cur);
    assert buf[|s|..] == buf[p + 1..][|s| - p - 1..];
  }

  /** The default branch: the character at p is taken. */
  method Take(buf: array<char>, argv: array<int>, i: nat, p: nat, mode: Mode,
              ghost s: string, ghost done: seq<string>, ghost cur: string) returns (mode': Mode)
    requires Layout(s, buf[..], argv[..], p, mode, done, cur) && i == |done| < argv.Length && p < |s|
    modifies argv
    ensures mode' == if mode.Outside? then Plain else mode
    ensures Layout(s, buf[..], argv[..], p + 1, mode', done, cur + [s[p]])
  {
    TakeCharacter(s, buf[..], argv[..], p, mode, done, cur);
    mode' := mode;
    if mode.Outside? {
      ghost var v := argv[..];
      argv[i] := p;
      mode' := Plain;
      assert argv[..] == v[i := p];
    }
  }

  /** One step of the tokenizer, in terms of positions. */
  lemma TokensAt(s: string, p: nat, mode: Mode, cur: string)
    requires p < |s| && (mode.Outside? ==> cur == "")
    ensures Tokens(s[p..], mode, cur) ==
      match s[p]
      case ' ' =>
        if mode.Outside? then Tokens(s[p + 1..], Outside, "")
        else if mode.Plain? then [cur] + Tokens(s[p + 1..], Outside, "")
        else Tokens(s[p + 1..], Quoted, cur + " ")
      case '\'' =>
        if mode.Outside? then Tokens(s[p + 1..], Quoted, "")
        else Tokens(s[p + 1..], if mode.Plain? then Quoted else Plain, cur)
      case '\\' =>
        if p + 1 == |s| then Tokens(s[p + 1..], mode, cur)
        else Tokens(s[p + 2..], if mode.Outside? then Plain else mode, cur + [s[p + 1]])
      case _ => Tokens(s[p + 1..], if mode.Outside? then Plain else mode, cur + [s[p]])
  {
    assert s[p..][0] == s[p] && s[p..][1..] == s[p + 1..];
    assert p + 1 < |s| ==> s[p..][2..] == s[p + 2..] && s[p..][1] == s[p + 1];
  }

  /** The layout together with what is still to be read. */
  ghost predicate Halfway(s: string, b: seq<char>, argv: seq<int>, p: nat, mode: Mode, done: seq<string>, cur: string) {
    && Layout(s, b, argv, p, mode, done, cur) && (mode.Outside? ==> cur == "")
    && done + Tokens(s[p..], mode, cur) == Arguments(s)
  }

  lemma Started(s: string, b: seq<char>, argv: seq<int>)
    requires |s| < |b| && b[..|s|] == s && b[|s|] == '\0' && '\0' !in s
    ensures Halfway(s, b, argv, 0, Outside, [], "")
  {
    assert s[0..] == s;
  }

  lemma Ended(s: string, b: seq<char>, argv: seq<int>, mode: Mode, done: seq<string>, cur: string)
    requires Halfway(s, b, argv, |s|, mode, done, cur)
    ensures |Arguments(s)| == (if mode.Outside? then |done| else |done| + 1) <= |argv|
    ensures forall j :: 0 <= j < |Arguments(s)| ==> ReadsAs(b, argv[j], Arguments(s)[j])
  {
    assert s[|s|..] == "";
  }

  lemma Position(s: string, b: seq<char>, argv: seq<int>, p: nat, mode: Mode, done: seq<string>, cur: string)
    requires Halfway(s, b, argv, p, mode, done, cur)
    ensures p <= |s| < |b| && (b[p] == '\0' <==> p == |s|) && (p < |s| ==> b[p] == s[p])
    ensures |done| <= |argv| && (!mode.Outside? ==> |done| < |argv|)
  {
    NextCharacter(s, b, argv, p, mode, done, cur);
  }

  method Blank(buf: array<char>, argv: array<int>, i: nat, p: nat, mode: Mode,
               ghost s: string, ghost done: seq<string>, ghost cur: string)
    returns (i': nat, mode': Mode, ghost done': seq<string>, ghost cur': string)
    requires Halfway(s, buf[..], argv[..], p, mode, done, cur) && i == |done| && p < |s| && s[p] == ' '
    modifies buf, argv
    ensures Halfway(s, buf[..], argv[..], p + 1, mode', done', cur') && i' == |done'|
    ensures match mode
      case Outside => mode' == Outside && done' == done && buf[..] == old(buf[..]) && argv[..] == old(argv[..])
      case Plain => mode' == Outside && done' == done + [cur] && buf[..] == old(buf[..])[p := '\0'] && argv[..] == old(argv[..])
      case Quoted => mode' == Quoted && done' == done && cur' == cur + [' '] && buf[..] == old(buf[..])
    ensures buf[|s|..] == old(buf[|s|..])
  {
    hide Layout, Tokens;
    TokensAt(s, p, mode, cur);
    Position(s, buf[..], argv[..], p, mode, done, cur);
    i', mode', done', cur' := i, mode, done, cur;
    match mode {
      case Plain =>
        EndArgument(s, buf[..], argv[..], p, done, cur);
        ghost var b := buf[..];
        buf[p] := '\0';
        assert buf[..] == b[p := '\0'];
        i', mode', done', cur' := i + 1, Outside, done + [cur], "";
        assert done + ([cur] + Tokens(s[p + 1..], Outside, "")) == done' + Tokens(s[p + 1..], Outside, "");
      case Outside =>
        SkipBlank(s, buf[..], argv[..], p, done);
      case Quoted =>
        mode' := Take(buf, argv, i, p, mode, s, done, cur);
        cur' := cur + [s[p]];
    }
  }

  method Quote(buf: array<char>, argv: array<int>, i: nat, p: nat, mode: Mode,
               ghost s: string, ghost done: seq<string>, ghost cur: string) returns (mode': Mode)
    requires Halfway(s, buf[..], argv[..], p, mode, done, cur) && i == |done| < argv.Length && p < |s| && s[p] == '\''
    modifies buf, argv
    ensures Halfway(s, buf[..], argv[..], p + 1, mode', done, cur)
    ensures mode' == (if mode.Quoted? then Plain else Quoted)
    ensures argv[..] == old(argv[..])[i := if mode.Outside? then p + 1 else old(argv[i]) + 1]
    ensures buf[|s|..] == old(buf[|s|..])
  {
    TokensAt(s, p, mode, cur);
    if mode.Outside? {
      OpenQuote(s, buf[..], argv[..], p, done);
      ghost var v := argv[..];
      argv[i] := p + 1;
      assert argv[..] == v[i := p + 1];
      mode' := Quoted;
    } else {
      mode' := if mode.Plain? then Quoted else Plain;
      hide Layout, Tokens;
      Squeeze(buf, argv, i, p, mode, mode', s, done, cur);
    }
  }

  /** A backslash, and the character behind it unless the string ends there. */
  method Backslash(buf: array<char>, argv: array<int>, i: nat, p: nat, mode: Mode,
                   ghost s: string, ghost done: seq<string>, ghost cur: string)
    returns (p': nat, mode': Mode, ghost cur': string)
    requires Halfway(s, buf[..], argv[..], p, mode, done, cur) && i == |done| && p < |s| && s[p] == '\\'
    requires mode.Outside? && p + 1 < |s| ==> i < argv.Length
    modifies buf, argv
    ensures Halfway(s, buf[..], argv[..], p', mode', done, cur') && p < p' <= |s|
    ensures if p + 1 == |s| then p' == p + 1 && mode' == mode && cur' == cur
            else p' == p + 2 && mode' == (if mode.Outside? then Plain else mode) && cur' == cur + [s[p + 1]]
    ensures buf[|s|..] == old(buf[|s|..])
  {
    hide Layout, Tokens;
    TokensAt(s, p, mode, cur);
    p', mode', cur' := p + 1, mode, cur;
    if mode.Outside? {
      SkipBlank(s, buf[..], argv[..], p, done);
    } else {
      Squeeze(buf, argv, i, p, mode, mode, s, done, cur);
    }
    NextCharacter(s, buf[..], argv[..], p', mode, done, cur);
    if buf[p'] == '\0' {
      return;
    }
    mode' := Take(buf, argv, i, p', mode, s, done, cur);
    p', cur' := p' + 1, cur + [s[p']];
  }

  method Ordinary(buf: array<char>, argv: array<int>, i: nat, p: nat, mode: Mode,
                  ghost s: string, ghost done: seq<string>, ghost cur: string)
    returns (mode': Mode, ghost cur': string)
    requires Halfway(s, buf[..], argv[..], p, mode, done, cur) && i == |done| < argv.Length && p < |s|
    requires s[p] != ' ' && s[p] != '\'' && s[p] != '\\'
    modifies argv
    ensures Halfway(s, buf[..], argv[..], p + 1, mode', done, cur')
    ensures mode' == (if mode.Outside? then Plain else mode) && cur' == cur + [s[p]]
  {
    hide Layout, Tokens;
    TokensAt(s, p, mode, cur);
    mode' := Take(buf, argv, i, p, mode, s, done, cur);
    cur' := cur + [s[p]];
  }

  /** Once an argument has begun, it comes. */
  lemma {:induction false} BegunComes(s: string, mode: Mode, cur: string)
    requires !mode.Outside?
    ensures |Tokens(s, mode, cur)| >= 1
    decreases |s|
  {
    if s == "" {
    } else if s[0] == ' ' {
      if mode.Quoted? {
        BegunComes(s[1..], mode, cur + " ");
      }
    } else if s[0] == '\'' {
      BegunComes(s[1..], if mode.Plain? then Quoted else Plain, cur);
    } else if s[0] == '\\' {
      if |s| == 1 {
        BegunComes("", mode, cur);
      } else {
        BegunComes(s[2..], mode, cur + [s[1]]);
      }
    } else {
      BegunComes(s[1..], mode, cur + [s[0]]);
    }
  }

  /** A string of n characters has at most (n + 1) / 2 arguments. */
  lemma {:induction false} ArgumentsBound(s: string, mode: Mode, cur: string)
    ensures 2 * |Tokens(s, mode, cur)| <= |s| + if mode.Outside? then 1 else 2
    decreases |s|
  {
    if s == "" {
    } else if s[0] == ' ' {
      ArgumentsBound(s[1..], if mode.Quoted? then Quoted else Outside, if mode.Quoted? then cur + " " else "");
    } else if s[0] == '\'' {
      ArgumentsBound(s[1..], if mode.Quoted? then Plain else Quoted, if mode.Outside? then "" else cur);
    } else if s[0] == '\\' {
      if |s| == 1 {
        ArgumentsBound("", mode, cur);
      } else {
        ArgumentsBound(s[2..], if mode.Outside? then Plain else mode, (if mode.Outside? then "" else cur) + [s[1]]);
      }
    } else {
      ArgumentsBound(s[1..], if mode.Outside? then Plain else mode, (if mode.Outside? then "" else cur) + [s[0]]);
    }
  }

  /** Whether the character at p begins an argument. */
  predicate Begins(s: string, p: nat, mode: Mode)
    requires p < |s|
  {
    mode.Outside? && s[p] != ' ' && (s[p] == '\\' ==> p + 1 < |s|)
  }

  /** Then there are more arguments than those that are finished; and inside one there is room for it in argv. */
  lemma BeginsAnother(s: string, b: seq<char>, argv: seq<int>, p: nat, mode: Mode, done: seq<string>, cur: string)
    requires Halfway(s, b, argv, p, mode, done, cur) && p < |s|
    ensures Begins(s, p, mode) ==> |Arguments(s)| > |done|
    ensures !mode.Outside? ==> |done| < |argv|
    ensures |b| > p + 1 && (b[p + 1] == '\0' <==> p + 1 == |s|)
  {
    NextCharacter(s, b, argv, p, mode, done, cur);
    assert p + 1 < |s| ==> b[p + 1] == b[p + 1..|s|][0];
    if Begins(s, p, mode) {
      TokensAt(s, p, mode, cur);
      hide Tokens;
      if s[p] == '\'' {
        BegunComes(s[p + 1..], Quoted, "");
      } else if s[p] == '\\' {
        BegunComes(s[p + 2..], Plain, cur + [s[p + 1]]);
      } else {
        BegunComes(s[p + 1..], Plain, cur + [s[p]]);
      }
    }
  }

  /** split_args on the string of n characters at the start of buf, and on an argv of any length.  `outside` says
      that the run writes outside argv, which is where the method stops: exactly if argv has no room for the
      arguments and NULL.  Otherwise every entry of argv reads as the argument the tokenizer finds, and NULL (-1)
      follows them; and nothing behind the string is touched. */
  method SplitArgs(buf: array<char>, ghost n: nat, argv: array<int>) returns (count: nat, outside: bool)
    requires n < buf.Length && buf[n] == '\0' && '\0' !in buf[..n]
    modifies buf, argv
    ensures outside <==> argv.Length <= |Arguments(old(buf[..n]))|
    ensures !outside ==> count == |Arguments(old(buf[..n]))| < argv.Length && argv[count] == -1
    ensures !outside ==> forall j :: 0 <= j < count ==> ReadsAs(buf[..], argv[j], Arguments(old(buf[..n]))[j])
    ensures buf[n..] == old(buf[n..])
  {
    hide Layout, ReadsAs, Arguments, Halfway;
    ghost var s := buf[..n];
    ghost var done: seq<string>, cur: string := [], "";
    var i, p, mode := 0, 0, Outside;
    count, outside := 0, false;
    Started(s, buf[..], argv[..]);
    Position(s, buf[..], argv[..], p, mode, done, cur);
    while buf[p] != '\0'
      invariant p <= n && i == |done| && Halfway(s, buf[..], argv[..], p, mode, done, cur)
      invariant p < n ==> buf[p] == s[p]
      invariant buf[p] == '\0' <==> p == n
      invariant buf[n..] == old(buf[n..])
      invariant i <= argv.Length && !outside
      decreases n - p
    {
      BeginsAnother(s, buf[..], argv[..], p, mode, done, cur);
      if mode.Outside? && i == argv.Length && buf[p] != ' ' && (buf[p] != '\\' || buf[p + 1] != '\0') {
        outside := true;
        return;
      }
      match buf[p] {
        case ' ' =>
          i, mode, done, cur := Blank(buf, argv, i, p, mode, s, done, cur);
          p := p + 1;
        case '\'' =>
          mode := Quote(buf, argv, i, p, mode, s, done, cur);
          p := p + 1;
        case '\\' =>
          p, mode, cur := Backslash(buf, argv, i, p, mode, s, done, cur);
        case _ =>
          mode, cur := Ordinary(buf, argv, i, p, mode, s, done, cur);
          p := p + 1;
      }
      Position(s, buf[..], argv[..], p, mode, done, cur);
    }
    Ended(s, buf[..], argv[..], mode, done, cur);
    count := if mode.Outside? then i else i + 1;
    if count == argv.Length {
      outside := true;
      return;
    }
    argv[count] := -1;
  }

  /* ---------- how a command line is written ---------- */

  /** A character inside quotes, with a backslash in front or not. */
  datatype Quotable = Quotable(backslash: bool, c: char)

  /** An argument is written in pieces: bare characters, characters behind a backslash, and quotations. */
  datatype Piece = Bare(c: char) | Backslashed(c: char) | Quotation(text: seq<Quotable>)

  predicate WellQuoted(text: seq<Quotable>) {
    forall i :: 0 <= i < |text| && !text[i].backslash ==> text[i].c != '\'' && text[i].c != '\\'
  }

  predicate WellWritten(p: Piece) {
    match p
    case Bare(c) => c != ' ' && c != '\'' && c != '\\'
    case Backslashed(c) => true
    case Quotation(text) => WellQuoted(text)
  }

  function QuotedText(text: seq<Quotable>): string
    decreases |text|
  {
    if text == [] then ""
    else (if text[0].backslash then ['\\', text[0].c] else [text[0].c]) + QuotedText(text[1..])
  }

  function Characters(text: seq<Quotable>): string
    decreases |text|
  {
    if text == [] then "" else [text[0].c] + Characters(text[1..])
  }

  function Written(p: Piece): string {
    match p
    case Bare(c) => [c]
    case Backslashed(c) => ['\\', c]
    case Quotation(text) => "'" + QuotedText(text) + "'"
  }

  function Meant(p: Piece): string {
    match p
    case Bare(c) => [c]
    case Backslashed(c) => [c]
    case Quotation(text) => Characters(text)
  }

  function WrittenArg(ps: seq<Piece>): string
    decreases |ps|
  {
    if ps == [] then "" else Written(ps[0]) + WrittenArg(ps[1..])
  }

  function MeantArg(ps: seq<Piece>): string
    decreases |ps|
  {
    if ps == [] then "" else Meant(ps[0]) + MeantArg(ps[1..])
  }

  function BlankRun(n: nat): string {
    if n == 0 then "" else " " + BlankRun(n - 1)
  }

  /** An argument with the blanks in front of it. */
  datatype Spaced = Spaced(blanks: nat, pieces: seq<Piece>)

  /** Arguments with one blank at least between them, and blanks behind the last. */
  function WrittenLine(args: seq<Spaced>, blanks: nat): string
    decreases |args|
  {
    if args == [] then BlankRun(blanks)
    else BlankRun(args[0].blanks) + (WrittenArg(args[0].pieces) + (" " + WrittenLine(args[1..], blanks)))
  }

  function MeantLine(args: seq<Spaced>): (r: seq<string>)
    ensures |r| == |args|
  {
    seq(|args|, i requires 0 <= i < |args| => MeantArg(args[i].pieces))
  }

  lemma {:induction false} ReadQuotation(text: seq<Quotable>, rest: string, cur: string)
    requires WellQuoted(text)
    ensures Tokens(QuotedText(text) + rest, Quoted, cur) == Tokens(rest, Quoted, cur + Characters(text))
    decreases |text|
  {
    hide Tokens;
    if text == [] {
      assert QuotedText(text) + rest == rest && cur + Characters(text) == cur;
    } else {
      var q, more := text[0], QuotedText(text[1..]) + rest;
      Regroup(if q.backslash then ['\\', q.c] else [q.c], QuotedText(text[1..]), rest);
      ReadQuotable(q, more, cur);
      ReadQuotation(text[1..], rest, cur + [q.c]);
      Regroup(cur, [q.c], Characters(text[1..]));
    }
  }

  lemma Regroup(a: string, b: string, c: string)
    ensures a + b + c == a + (b + c)
  {
  }

  lemma ReadQuotable(q: Quotable, more: string, cur: string)
    requires !q.backslash ==> q.c != '\'' && q.c != '\\'
    ensures Tokens((if q.backslash then ['\\', q.c] else [q.c]) + more, Quoted, cur) == Tokens(more, Quoted, cur + [q.c])
  {
    assert (['\\', q.c] + more)[2..] == more && ([q.c] + more)[1..] == more;
  }

  lemma ReadPiece(p: Piece, rest: string, mode: Mode, cur: string)
    requires WellWritten(p) && !mode.Quoted? && (mode.Outside? ==> cur == "")
    ensures Tokens(Written(p) + rest, mode, cur) == Tokens(rest, Plain, cur + Meant(p))
  {
    match p
    case Bare(c) => ReadBare(c, rest, mode, cur);
    case Backslashed(c) => ReadBackslashed(c, rest, mode, cur);
    case Quotation(text) =>
      hide Tokens;
      var more := "'" + rest;
      ReadOpening(QuotedText(text) + more, mode, cur);
      ReadQuotation(text, more, cur);
      ReadClosing(rest, cur + Characters(text));
      Regroup("'" + QuotedText(text), "'", rest);
      Regroup("'", QuotedText(text), more);
  }

  lemma ReadBare(c: char, rest: string, mode: Mode, cur: string)
    requires c != ' ' && c != '\'' && c != '\\' && !mode.Quoted? && (mode.Outside? ==> cur == "")
    ensures Tokens([c] + rest, mode, cur) == Tokens(rest, Plain, cur + [c])
  {
    assert ([c] + rest)[1..] == rest;
  }

  lemma ReadBackslashed(c: char, rest: string, mode: Mode, cur: string)
    requires !mode.Quoted? && (mode.Outside? ==> cur == "")
    ensures Tokens(['\\', c] + rest, mode, cur) == Tokens(rest, Plain, cur + [c])
  {
    assert (['\\', c] + rest)[2..] == rest;
  }

  lemma ReadOpening(rest: string, mode: Mode, cur: string)
    requires !mode.Quoted? && (mode.Outside? ==> cur == "")
    ensures Tokens("'" + rest, mode, cur) == Tokens(rest, Quoted, cur)
  {
    assert ("'" + rest)[1..] == rest;
  }

  lemma ReadClosing(rest: string, cur: string)
    ensures Tokens("'" + rest, Quoted, cur) == Tokens(rest, Plain, cur)
  {
    assert ("'" + rest)[1..] == rest;
  }

  lemma {:induction false} ReadArg(ps: seq<Piece>, rest: string, mode: Mode, cur: string)
    requires (forall i :: 0 <= i < |ps| ==> WellWritten(ps[i])) && !mode.Quoted? && (mode.Outside? ==> cur == "") && ps != []
    ensures Tokens(WrittenArg(ps) + rest, mode, cur) == Tokens(rest, Plain, cur + MeantArg(ps))
    decreases |ps|
  {
    hide Tokens, Written, Meant, WellWritten;
    var more := WrittenArg(ps[1..]) + rest;
    assert WrittenArg(ps) + rest == Written(ps[0]) + more;
    ReadPiece(ps[0], more, mode, cur);
    assert cur + MeantArg(ps) == cur + Meant(ps[0]) + MeantArg(ps[1..]);
    if |ps| == 1 {
      assert more == rest && cur + Meant(ps[0]) + MeantArg(ps[1..]) == cur + Meant(ps[0]);
    } else {
      ReadArg(ps[1..], rest, Plain, cur + Meant(ps[0]));
    }
  }

  lemma {:induction false} ReadBlanks(n: nat, rest: string)
    ensures Tokens(BlankRun(n) + rest, Outside, "") == Tokens(rest, Outside, "")
  {
    if n == 0 {
      assert BlankRun(0) + rest == rest;
    } else {
      var s := BlankRun(n) + rest;
      assert s[0] == ' ' && s[1..] == BlankRun(n - 1) + rest;
      ReadBlanks(n - 1, rest);
    }
  }

  /** However a list of arguments is written, with bare characters, backslashes and quotations in any mixture and any
      number of blanks between them, it is split into what was meant. */
  lemma {:induction false} SplitWritten(args: seq<Spaced>, blanks: nat)
    requires forall a :: a in args ==> a.pieces != [] && forall i :: 0 <= i < |a.pieces| ==> WellWritten(a.pieces[i])
    ensures Arguments(WrittenLine(args, blanks)) == MeantLine(args)
    decreases |args|
  {
    hide WellWritten;
    if args == [] {
      assert BlankRun(blanks) + "" == BlankRun(blanks);
      ReadBlanks(blanks, "");
    } else {
      var a, more := args[0], " " + WrittenLine(args[1..], blanks);
      assert a in args;
      ReadBlanks(a.blanks, WrittenArg(a.pieces) + more);
      ReadArg(a.pieces, more, Outside, "");
      assert "" + MeantArg(a.pieces) == MeantArg(a.pieces);
      assert more[0] == ' ' && more[1..] == WrittenLine(args[1..], blanks);
      SplitWritten(args[1..], blanks);
      assert MeantLine(args) == [MeantArg(a.pieces)] + MeantLine(args[1..]);
    }
  }

  /** A quotation that is not closed ends with the string, and a backslash at the end of it stands for nothing. */
  lemma Unfinished(text: seq<Quotable>, cur: string)
    requires WellQuoted(text)
    ensures Tokens(QuotedText(text), Quoted, cur) == [cur + Characters(text)]
    ensures Tokens("\\", Outside, "") == [] && Tokens("\\", Plain, cur) == [cur] && Tokens("\\", Quoted, cur) == [cur]
  {
    ReadQuotation(text, "", cur);
    assert QuotedText(text) + "" == QuotedText(text);
  }
}
