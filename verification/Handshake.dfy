/** The challenge handshake (auth_server and auth_client in auth.c). */
module Handshake {
  import opened Bytes
  import opened BlockCipher
  import L = Legacy
  import F = Flags

  const MESG_SIZE := 50
  const CHAL_SIZE := 16

  /** print_p: vsnprintf with a size of MESG_SIZE - 1 keeps two bytes less than the message holds. */
  function Message(text: string): (r: string)
    ensures r <= text && |r| == if |text| < 48 then |text| else 48
  {
    if |text| <= MESG_SIZE - 2 then text else text[..MESG_SIZE - 2]
  }

  /* ---------- strtok ---------- */

  /** The length of the longest prefix of s inside, or outside, the delimiters. */
  function Span(s: string, delims: string, inside: bool): (k: nat)
    ensures k <= |s|
    ensures forall i :: 0 <= i < k ==> (s[i] in delims) == inside
    ensures k < |s| ==> (s[k] in delims) != inside
  {
    if s == "" || (s[0] in delims) != inside then 0 else 1 + Span(s[1..], delims, inside)
  }

  lemma SpanIs(s: string, delims: string, inside: bool, k: nat)
    requires k <= |s| && (forall i :: 0 <= i < k ==> (s[i] in delims) == inside)
    requires k < |s| ==> (s[k] in delims) != inside
    ensures Span(s, delims, inside) == k
  {
    if k > 0 {
      SpanIs(s[1..], delims, inside, k - 1);
    }
  }

  /** strtok(s, delims): where the token begins and ends; there is none if begin == |s|. */
  function Token(s: string, delims: string): (r: (nat, nat))
    ensures r.0 <= r.1 <= |s|
  {
    var begin := Span(s, delims, true);
    (begin, begin + Span(s[begin..], delims, false))
  }

  /** The string s once strtok has put its terminator behind the first token. */
  function Cut(s: string, delims: string): string {
    s[..Token(s, delims).1]
  }

  datatype Words = NoWords | Words(first: string, second: string)

  /** The message as auth_server takes it apart: the line, then two words. */
  function Split(msg: string): Words {
    var line := if Token(msg, "\r\n").0 == |msg| then msg else Cut(msg, "\r\n");
    var (b1, e1) := Token(line, " :");
    if b1 == |line| then NoWords
    else
      var rest := if e1 < |line| then line[e1 + 1..] else "";
      var (b2, e2) := Token(rest, " :");
      if b2 == |rest| then NoWords else Words(line[b1..e1], rest[b2..e2])
  }

  /* ---------- the challenge as text ---------- */

  function Letter(nibble: nat): (c: char)
    requires nibble < 16
    ensures 'a' <= c <= 'p'
  {
    'a' + nibble as char
  }

  /** What cs2cl takes a character for, modulo 256. */
  function LetterValue(c: char): byte {
    (c as int - 'a' as int) % 256
  }

  /** (high - 'a') << 4, as a byte, with low - 'a' put in. */
  function TwoLetters(high: char, low: char): byte {
    OrByte(LetterValue(high) * 16 % 256, LetterValue(low))
  }

  function LetterAt(chal: bytes, i: nat): char
    requires i < 2 * |chal|
  {
    Letter(if i % 2 == 0 then chal[i / 2] / 16 else chal[i / 2] % 16)
  }

  function Letters(chal: bytes): (r: string)
    ensures |r| == 2 * |chal|
    ensures forall i :: 0 <= i < |r| ==> 'a' <= r[i] <= 'p'
  {
    seq(2 * |chal|, i requires 0 <= i < 2 * |chal| => LetterAt(chal, i))
  }

  /** cl2cs */
  function Cl2cs(chal: bytes): string {
    "<" + Letters(chal) + ">"
  }

  datatype Challenge = NoChallenge | Challenge(chal: bytes)

  /** cs2cl */
  function Cs2cl(s: string): (r: Challenge)
    ensures r.Challenge? ==> |r.chal| == CHAL_SIZE
  {
    var k := F.Find(s, '<');
    if k == |s| then NoChallenge
    else
      var t := s[k + 1..];
      var text := Cut(t, ">");
      if Token(t, ">").0 == |t| || |text| != 2 * CHAL_SIZE then NoChallenge
      else Challenge(seq(CHAL_SIZE, i requires 0 <= i < CHAL_SIZE => TwoLetters(text[2 * i], text[2 * i + 1])))
  }

  lemma LettersBack(chal: bytes, i: nat)
    requires i < |chal|
    ensures TwoLetters(Letters(chal)[2 * i], Letters(chal)[2 * i + 1]) == chal[i]
  {
    hide OrByte;
    OrNibbles(chal[i] / 16, chal[i] % 16);
  }

  lemma ChallengeRoundTrip(before: string, chal: bytes, after: string)
    requires |chal| == CHAL_SIZE && '<' !in before
    ensures Cs2cl(before + Cl2cs(chal) + after) == Challenge(chal)
  {
    hide TwoLetters, Letters, Token, Span, F.Find;
    var s := before + Cl2cs(chal) + after;
    var t := s[|before| + 1..];
    assert s[|before|] == '<' && t == Letters(chal) + (">" + after);
    FindIs(s, |before|);
    ChallengeToken(Letters(chal), after);
    var back := Cs2cl(s);
    assert back.Challenge?;
    forall i | 0 <= i < CHAL_SIZE ensures back.chal[i] == chal[i] {
      LettersBack(chal, i);
    }
  }

  lemma ChallengeToken(text: string, after: string)
    requires text != "" && forall i :: 0 <= i < |text| ==> 'a' <= text[i] <= 'p'
    ensures var t := text + (">" + after); Token(t, ">") == (0, |text|) && Cut(t, ">") == text
  {
    var t := text + (">" + after);
    SpanIs(t, ">", true, 0);
    assert t[0..] == t;
    SpanIs(t, ">", false, |text|);
  }

  lemma FindIs(s: string, k: nat)
    requires k < |s| && s[k] == '<' && forall i :: 0 <= i < k ==> s[i] != '<'
    ensures F.Find(s, '<') == k
  {
  }

  predicate IsWord(w: string) {
    w != "" && forall i :: 0 <= i < |w| ==> w[i] !in " :\r\n"
  }

  lemma CutLine(line: string, tail: string)
    requires line != "" && (forall i :: 0 <= i < |line| ==> line[i] !in "\r\n") && (tail == "" || tail == "\n")
    ensures var msg := line + tail; Token(msg, "\r\n") == (0, |line|) && Cut(msg, "\r\n") == line
  {
    var msg := line + tail;
    assert msg[0] == line[0];
    SpanIs(msg, "\r\n", true, 0);
    assert msg[0..] == msg;
    SpanIs(msg, "\r\n", false, |line|);
  }

  lemma FirstWord(w: string, rest: string)
    requires IsWord(w) && (rest == "" || rest[0] in " :")
    ensures Token(w + rest, " :") == (0, |w|)
  {
    var s := w + rest;
    assert s[0] == w[0] && s[0..] == s;
    SpanIs(s, " :", true, 0);
    SpanIs(s, " :", false, |w|);
  }

  lemma SecondWord(w: string)
    requires IsWord(w)
    ensures Token(" " + w, " :") == (1, 1 + |w|)
  {
    var s := " " + w;
    assert s[1] == w[0] && s[1..] == w;
    SpanIs(s, " :", true, 1);
    SpanIs(w, " :", false, |w|);
  }

  /** A message of the form "first: second" is taken apart into its two words. */
  lemma SplitMessage(first: string, second: string, tail: string)
    requires IsWord(first) && IsWord(second) && (tail == "" || tail == "\n")
    ensures Split(first + ": " + second + tail) == Words(first, second)
  {
    hide Token;
    var line := first + ": " + second;
    CutLine(line, tail);
    assert line == first + (": " + second);
    FirstWord(first, ": " + second);
    assert line[|first| + 1..] == " " + second;
    SecondWord(second);
  }

  /* ---------- the two ends ---------- */

  /** What find_host knows of a name. */
  datatype Account = NoAccount | Account(passwd: string, host: F.Host)

  /** The server's surroundings: the accounts, the cipher keyed by the digest of a password, the random
      challenge, whether lock_host grants the lock, and the version it greets with. */
  datatype Site = Site(accounts: string -> Account, key: string -> Cipher, chal: bytes, granted: bool, version: string) {
    ghost predicate Valid() {
      |chal| == CHAL_SIZE && ValidKeys(key)
    }
  }

  ghost predicate ValidKeys(key: string -> Cipher) {
    forall p {:trigger key(p)} :: key(p).Valid() && key(p).bs == L.BLOCK
  }

  function EncryptChal(c: Cipher, chal: bytes): (r: bytes)
    requires c.Valid() && c.bs == L.BLOCK && |chal| == CHAL_SIZE
    ensures |r| == CHAL_SIZE
  {
    Encrypt(c, ECB, L.NONE, chal).0
  }

  function DecryptChal(c: Cipher, chal: bytes): (r: bytes)
    requires c.Valid() && c.bs == L.BLOCK && |chal| == CHAL_SIZE
    ensures |r| == CHAL_SIZE
  {
    Decrypt(c, ECB, L.NONE, chal).0
  }

  datatype Stage = StInit | StHost | StChal

  /** The reaction to one message: an answer and a further read, or the end. */
  datatype Server = Listening(stage: Stage, name: string) | Granted(host: F.Host) | Denied

  const ERR := "ERR\n"

  function Greeting(site: Site): string {
    Message("VTUN server ver " + site.version + "\n")
  }

  /** One turn of the loop of auth_server, together with the final "ERR" if it ends without a host. */
  function Serve(site: Site, st: Server, msg: string): (r: (Server, string))
    requires site.Valid() && st.Listening?
  {
    match Split(msg)
    case NoWords => (Denied, ERR)
    case Words(str1, str2) =>
      if st.stage == StHost && str1 == "HOST" then
        (Listening(StChal, str2), Message("OK CHAL: " + Cl2cs(site.chal) + "\n"))
      else if st.stage == StChal && str1 == "CHAL" then
        match Cs2cl(str2)
        case NoChallenge => (Denied, ERR)
        case Challenge(res) =>
          match site.accounts(st.name)
          case NoAccount => (Denied, ERR)
          case Account(passwd, host) =>
            if DecryptChal(site.key(passwd), res) == site.chal && site.granted then
              (Granted(host), Message("OK FLAGS: " + F.PrintFlags(host) + "\n"))
            else (Denied, ERR)
      else (Denied, ERR)
  }

  /** The client: its name for the host, its password, and the host whose flags it is to fill in. */
  datatype Client = Waiting(stage: Stage) | Done(success: bool, host: F.Host)

  datatype Login = Login(name: string, passwd: string, key: string -> Cipher, host: F.Host)

  predicate StartsWith(s: string, t: string) {
    |t| <= |s| && s[..|t|] == t
  }

  /** One turn of the loop of auth_client; the answer is empty when there is none. */
  function Respond(me: Login, st: Client, msg: string): (r: (Client, string))
    requires ValidKeys(me.key) && st.Waiting?
  {
    match st.stage
    case StInit =>
      if StartsWith(msg, "VTUN") then (Waiting(StHost), Message("HOST: " + me.name + "\n")) else (Done(false, me.host), "")
    case StHost =>
      if !StartsWith(msg, "OK") then (Done(false, me.host), "")
      else
        var c := Cs2cl(msg);
        if c.NoChallenge? then (Done(false, me.host), "")
        else (Waiting(StChal), Message("CHAL: " + Cl2cs(EncryptChal(me.key(me.passwd), c.chal)) + "\n"))
    case StChal =>
      if !StartsWith(msg, "OK") then (Done(false, me.host), "")
      else
        var (ok, host) := F.ParseFlags(msg, me.host);
        (Done(ok, host), "")
  }

  /* ---------- the loops ---------- */

  /** auth_server on the messages that arrive before the peer falls silent: what it sends after the greeting,
      and the host it returns. */
  function ServerRun(site: Site, st: Server, inbox: seq<string>): (r: (Server, seq<string>))
    requires site.Valid()
    decreases |inbox|
  {
    if !st.Listening? then (st, [])
    else if inbox == [] then (Denied, [ERR])
    else
      var (st', answer) := Serve(site, st, inbox[0]);
      var (end, answers) := ServerRun(site, st', inbox[1..]);
      (end, [answer] + answers)
  }

  function ClientRun(me: Login, st: Client, inbox: seq<string>): (r: (Client, seq<string>))
    requires ValidKeys(me.key)
    decreases |inbox|
  {
    if !st.Waiting? then (st, [])
    else if inbox == [] then (Done(false, me.host), [])
    else
      var (st', answer) := Respond(me, st, inbox[0]);
      var (end, answers) := ClientRun(me, st', inbox[1..]);
      (end, (if st'.Waiting? then [answer] else []) + answers)
  }

  /** encrypt_chal, in place. */
  method EncryptInPlace(c: Cipher, chal: array<byte>)
    requires c.Valid() && c.bs == L.BLOCK && chal.Length == CHAL_SIZE
    modifies chal
    ensures chal[..] == EncryptChal(c, old(chal[..]))
  {
    hide Encrypt;
    ghost var pt := chal[..];
    L.EncryptNothing(c);
    assert chal[..0] == pt[..0] == [];
    var i := 0;
    while i < CHAL_SIZE
      invariant i == 0 || i == 8 || i == 16
      invariant chal[..i] == Encrypt(c, ECB, L.NONE, pt[..i]).0 && chal[i..] == pt[i..]
    {
      var b := chal[i..i + 8];
      assert b == chal[i..][..8] == pt[i..i + 8];
      L.EncryptNext(c, chal, i, b, pt);
      i := i + 8;
    }
    assert chal[..16] == chal[..] && pt[..16] == pt;
  }

  /** decrypt_chal, in place. */
  method DecryptInPlace(c: Cipher, chal: array<byte>)
    requires c.Valid() && c.bs == L.BLOCK && chal.Length == CHAL_SIZE
    modifies chal
    ensures chal[..] == DecryptChal(c, old(chal[..]))
  {
    hide Decrypt;
    ghost var wire := chal[..];
    L.DecryptNothing(c);
    assert wire[..0] == [] && [] + [] + wire[0..] + [] == wire;
    var i := 0;
    while i < CHAL_SIZE
      invariant i == 0 || i == 8 || i == 16
      invariant chal[..] == [] + Decrypt(c, ECB, L.NONE, wire[..i]).0 + wire[i..] + []
    {
      L.DecryptNext(c, chal, 0, i, wire, [], []);
      i := i + 8;
    }
    assert wire[..16] == wire && wire[16..] == [];
  }

  /** auth_server: the greeting, then the loop.  At most two messages are read. */
  method AuthServer(site: Site, inbox: seq<string>) returns (outbox: seq<string>, result: Server, taken: nat)
    requires site.Valid()
    ensures (result, outbox) == (ServerRun(site, Listening(StHost, ""), inbox).0,
                                 [Greeting(site)] + ServerRun(site, Listening(StHost, ""), inbox).1)
    ensures taken <= 2
  {
    hide Serve;
    outbox := [Greeting(site)];
    result := Listening(StHost, "");
    taken := 0;
    assert inbox[0..] == inbox;
    while result.Listening? && taken < |inbox|
      invariant taken <= |inbox| && taken <= 2
      invariant result.Listening? ==> taken == (if result.stage == StHost then 0 else 1) && result.stage != StInit
      invariant ServerRun(site, Listening(StHost, ""), inbox).0 == ServerRun(site, result, inbox[taken..]).0
      invariant [Greeting(site)] + ServerRun(site, Listening(StHost, ""), inbox).1
        == outbox + ServerRun(site, result, inbox[taken..]).1
    {
      ServeAdvances(site, result, inbox[taken]);
      var st, answer := Serve(site, result, inbox[taken]).0, Serve(site, result, inbox[taken]).1;
      assert inbox[taken..][0] == inbox[taken] && inbox[taken..][1..] == inbox[taken + 1..];
      ghost var more := ServerRun(site, st, inbox[taken + 1..]).1;
      assert outbox + ([answer] + more) == outbox + [answer] + more;
      result, outbox := st, outbox + [answer];
      taken := taken + 1;
    }
    assert inbox[taken..] == [] || !result.Listening?;
    assert outbox + [] == outbox;
    if result.Listening? {
      result, outbox := Denied, outbox + [ERR];
    }
  }

  /** A server that goes on listening waits for the challenge. */
  lemma ServeAdvances(site: Site, st: Server, msg: string)
    requires site.Valid() && st.Listening?
    ensures var st' := Serve(site, st, msg).0; st'.Listening? ==> st.stage == StHost && st'.stage == StChal
  {
  }

  /** auth_client: at most three messages are read. */
  method AuthClient(me: Login, inbox: seq<string>) returns (outbox: seq<string>, result: Client, taken: nat)
    requires ValidKeys(me.key)
    ensures (result, outbox) == ClientRun(me, Waiting(StInit), inbox) && result.Done?
    ensures taken <= 3
  {
    hide Respond;
    outbox, result, taken := [], Waiting(StInit), 0;
    assert inbox[0..] == inbox;
    while result.Waiting? && taken < |inbox|
      invariant taken <= |inbox| && taken <= 3
      invariant result.Waiting? ==> taken == Turn(result.stage)
      invariant ClientRun(me, Waiting(StInit), inbox).0 == ClientRun(me, result, inbox[taken..]).0
      invariant ClientRun(me, Waiting(StInit), inbox).1 == outbox + ClientRun(me, result, inbox[taken..]).1
    {
      RespondAdvances(me, result, inbox[taken]);
      var st, answer := Respond(me, result, inbox[taken]).0, Respond(me, result, inbox[taken]).1;
      assert inbox[taken..][0] == inbox[taken] && inbox[taken..][1..] == inbox[taken + 1..];
      var said := if st.Waiting? then [answer] else [];
      ghost var more := ClientRun(me, st, inbox[taken + 1..]).1;
      assert outbox + (said + more) == outbox + said + more;
      result, outbox := st, outbox + said;
      taken := taken + 1;
    }
    assert inbox[taken..] == [] || !result.Waiting?;
    assert outbox + [] == outbox;
    if result.Waiting? {
      result := Done(false, me.host);
    }
  }

  function Turn(stage: Stage): (t: nat)
    ensures t <= 2
  {
    match stage
    case StInit => 0
    case StHost => 1
    case StChal => 2
  }

  lemma RespondAdvances(me: Login, st: Client, msg: string)
    requires ValidKeys(me.key) && st.Waiting?
    ensures var st' := Respond(me, st, msg).0; st'.Waiting? ==> Turn(st'.stage) == Turn(st.stage) + 1
  {
  }

  /* ---------- the two loops composed ---------- */

  /** Over an honest channel each answer is the other end's next message; msg is on its way to the client.
      An end that is left waiting gets nothing more and gives up. */
  function Converse(site: Site, me: Login, sv: Server, cl: Client, msg: string): (r: (Server, Client))
    requires site.Valid() && ValidKeys(me.key) && cl.Waiting?
    ensures !r.0.Listening? && r.1.Done?
    decreases 3 - Turn(cl.stage)
  {
    var (cl', answer) := Respond(me, cl, msg);
    RespondAdvances(me, cl, msg);
    if cl'.Done? then (if sv.Listening? then Denied else sv, cl')
    else if !sv.Listening? then (sv, Done(false, me.host))
    else
      var (sv', reply) := Serve(site, sv, answer);
      Converse(site, me, sv', cl', reply)
  }

  function Handshake(site: Site, me: Login): (Server, Client)
    requires site.Valid() && ValidKeys(me.key)
  {
    Converse(site, me, Listening(StHost, ""), Waiting(StInit), Greeting(site))
  }

  /** A host name that fits its message and contains no separator. */
  predicate ValidName(name: string) {
    IsWord(name) && |name| <= MESG_SIZE - 2 - 6
  }

  /** What the server decrypts from the client's answer. */
  function Returned(site: Site, me: Login, passwd: string): bytes
    requires site.Valid() && ValidKeys(me.key)
  {
    DecryptChal(site.key(passwd), EncryptChal(me.key(me.passwd), site.chal))
  }

  /** The server knows the host, what it decrypts from the client's answer under the host's password is this
      session's challenge, and the lock is granted. */
  predicate Admitted(site: Site, me: Login)
    requires site.Valid() && ValidKeys(me.key)
  {
    var account := site.accounts(me.name);
    account.Account? && Returned(site, me, account.passwd) == site.chal && site.granted
  }

  lemma GreetingRead(site: Site, me: Login)
    requires site.Valid() && ValidKeys(me.key)
    ensures Respond(me, Waiting(StInit), Greeting(site)) == (Waiting(StHost), Message("HOST: " + me.name + "\n"))
  {
    var text := "VTUN server ver " + site.version + "\n";
    assert text[..4] == "VTUN";
  }

  lemma NameRead(site: Site, name: string)
    requires site.Valid() && ValidName(name)
    ensures Serve(site, Listening(StHost, ""), Message("HOST: " + name + "\n"))
      == (Listening(StChal, name), Message("OK CHAL: " + Cl2cs(site.chal) + "\n"))
  {
    hide Split;
    var tail := if |name| == MESG_SIZE - 2 - 6 then "" else "\n";
    assert Message("HOST: " + name + "\n") == "HOST" + ": " + name + tail;
    SplitMessage("HOST", name, tail);
  }

  lemma ChallengeRead(site: Site, me: Login)
    requires site.Valid() && ValidKeys(me.key)
    ensures Respond(me, Waiting(StHost), Message("OK CHAL: " + Cl2cs(site.chal) + "\n"))
      == (Waiting(StChal), Message("CHAL: " + Cl2cs(EncryptChal(me.key(me.passwd), site.chal)) + "\n"))
  {
    hide Cs2cl, EncryptChal;
    var msg := "OK CHAL: " + Cl2cs(site.chal) + "\n";
    assert |msg| == 44 && msg[..2] == "OK";
    ChallengeRoundTrip("OK CHAL: ", site.chal, "\n");
  }

  lemma ResponseRead(site: Site, name: string, res: bytes)
    requires site.Valid() && |res| == CHAL_SIZE
    ensures var account := site.accounts(name);
      Serve(site, Listening(StChal, name), Message("CHAL: " + Cl2cs(res) + "\n"))
      == if account.Account? && DecryptChal(site.key(account.passwd), res) == site.chal && site.granted
         then (Granted(account.host), Message("OK FLAGS: " + F.PrintFlags(account.host) + "\n"))
         else (Denied, ERR)
  {
    hide Split, Cs2cl, DecryptChal, F.PrintFlags;
    var text := Cl2cs(res);
    var msg := "CHAL: " + text + "\n";
    assert |msg| == 41 && msg == "CHAL" + ": " + text + "\n";
    assert IsWord(text);
    SplitMessage("CHAL", text, "\n");
    ChallengeRoundTrip("", res, "");
    assert "" + text + "" == text;
  }

  /** Main result: over an honest channel the server accepts exactly the clients that are to be admitted, with
      the host they named; the client succeeds exactly if the server accepts and the flags in the message it gets can be parsed. */
  lemma HandshakeAgreement(site: Site, me: Login)
    requires site.Valid() && ValidKeys(me.key) && ValidName(me.name)
    ensures var (sv, cl) := Handshake(site, me);
      && (sv == if Admitted(site, me) then Granted(site.accounts(me.name).host) else Denied)
      && cl.Done?
      && (cl.success <==>
          sv.Granted? && F.ParseFlags(Message("OK FLAGS: " + F.PrintFlags(sv.host) + "\n"), me.host).0)
      && (sv.Granted? ==>
          cl.host == F.ParseFlags(Message("OK FLAGS: " + F.PrintFlags(sv.host) + "\n"), me.host).1)
  {
    hide Respond, Serve, F.PrintFlags, F.ParseFlags, EncryptChal, DecryptChal, Cl2cs;
    var res := EncryptChal(me.key(me.passwd), site.chal);
    GreetingRead(site, me);
    NameRead(site, me.name);
    ChallengeRead(site, me);
    ResponseRead(site, me.name, res);
    var (sv, reply) := Serve(site, Listening(StChal, me.name), Message("CHAL: " + Cl2cs(res) + "\n"));
    FlagsRead(me, sv, reply);
  }

  lemma FlagsRead(me: Login, sv: Server, reply: string)
    requires ValidKeys(me.key)
    requires (sv.Granted? && reply == Message("OK FLAGS: " + F.PrintFlags(sv.host) + "\n")) || (sv.Denied? && reply == ERR)
    ensures var (cl, _) := Respond(me, Waiting(StChal), reply);
      cl.Done? && (cl.success <==> sv.Granted? && F.ParseFlags(reply, me.host).0)
      && (sv.Granted? ==> cl.host == F.ParseFlags(reply, me.host).1)
  {
    hide F.PrintFlags, F.ParseFlags;
    if sv.Granted? {
      var text := "OK FLAGS: " + F.PrintFlags(sv.host) + "\n";
      assert text[..2] == "OK";
    } else {
      assert ERR[0] == 'E';
    }
  }

  /** Equal passwords satisfy the cryptographic check. */
  lemma EqualPasswords(site: Site, me: Login)
    requires site.Valid() && ValidKeys(me.key) && me.key == site.key
    ensures Returned(site, me, me.passwd) == site.chal
  {
    RoundTrip(site.key(me.passwd), ECB, L.NONE, site.chal);
  }

  /* ---------- what arbitrary messages lead to ---------- */

  /** The answer to a challenge: "CHAL" and a text that holds one. */
  predicate Answer(msg: string, r: bytes) {
    var w := Split(msg);
    w.Words? && w.first == "CHAL" && Cs2cl(w.second) == Challenge(r)
  }

  /** r is what the account's password makes of this session's challenge, and the lock is granted. */
  predicate Deserved(site: Site, account: Account, r: bytes)
    requires site.Valid() && |r| == CHAL_SIZE
  {
    account.Account? && DecryptChal(site.key(account.passwd), r) == site.chal && site.granted
  }

  /** The message is an answer that earns the host of this name. */
  ghost predicate Earned(site: Site, name: string, msg: string, h: F.Host)
    requires site.Valid()
  {
    exists r, p :: |r| == CHAL_SIZE && Answer(msg, r) && site.accounts(name) == Account(p, h) && Deserved(site, Account(p, h), r)
  }

  /** The second message, for a host of which the name is known. */
  lemma SecondTurn(site: Site, name: string, msg: string)
    requires site.Valid()
    ensures !Serve(site, Listening(StChal, name), msg).0.Listening?
    ensures forall h :: Serve(site, Listening(StChal, name), msg).0 == Granted(h) <==> Earned(site, name, msg, h)
    ensures var st := Serve(site, Listening(StChal, name), msg).0;
      Serve(site, Listening(StChal, name), msg).1
      == if st.Granted? then Message("OK FLAGS: " + F.PrintFlags(st.host) + "\n") else "ERR\n"
  {
    hide Split, Cs2cl, DecryptChal, F.PrintFlags, Message;
    var w, st := Split(msg), Serve(site, Listening(StChal, name), msg).0;
    if w.Words? && w.first == "CHAL" && Cs2cl(w.second).Challenge? {
      var r, account := Cs2cl(w.second).chal, site.accounts(name);
      assert Answer(msg, r);
      if account.Account? {
        assert st == Granted(account.host) <==> Deserved(site, account, r);
        assert Account(account.passwd, account.host) == account;
      }
    }
  }

  /** The first message: the server goes on exactly if it names a host. */
  lemma FirstTurn(site: Site, msg: string)
    requires site.Valid()
    ensures var (st, answer) := Serve(site, Listening(StHost, ""), msg);
      var w := Split(msg);
      if w.Words? && w.first == "HOST" then
        st == Listening(StChal, w.second) && answer == Message("OK CHAL: " + Cl2cs(site.chal) + "\n")
      else st == Denied && answer == "ERR\n"
  {
    hide Split, Cs2cl, Cl2cs, DecryptChal, Message;
  }

  /** Main result: for every sequence of messages, a server grants a host exactly if the first names it, the second
      is an answer that its password makes of this session's challenge, and the lock is granted. */
  lemma GrantedExactly(site: Site, inbox: seq<string>, h: F.Host)
    requires site.Valid()
    ensures ServerRun(site, Listening(StHost, ""), inbox).0 == Granted(h) <==>
      && |inbox| >= 2
      && Split(inbox[0]).Words? && Split(inbox[0]).first == "HOST"
      && Earned(site, Split(inbox[0]).second, inbox[1], h)
  {
    hide Serve, Split, Earned;
    var st0 := Listening(StHost, "");
    if inbox != [] {
      FirstTurn(site, inbox[0]);
      var st1 := Serve(site, st0, inbox[0]).0;
      RunFirst(site, st0, inbox);
      if st1.Listening? {
        if |inbox| >= 2 {
          SecondTurn(site, st1.name, inbox[1]);
          assert inbox[1..][0] == inbox[1];
          RunFirst(site, st1, inbox[1..]);
        }
      }
    }
  }

  lemma RunFirst(site: Site, st: Server, inbox: seq<string>)
    requires site.Valid() && st.Listening? && inbox != []
    ensures var (st', answer) := Serve(site, st, inbox[0]);
      && ServerRun(site, st, inbox).0 == ServerRun(site, st', inbox[1..]).0
      && ServerRun(site, st, inbox).1 == [answer] + ServerRun(site, st', inbox[1..]).1
      && (!st'.Listening? ==> ServerRun(site, st', inbox[1..]) == (st', []))
      && (st'.Listening? ==> ServerRun(site, st', []) == (Denied, [ERR]))
  {
    hide Serve;
  }

  /** What the server sends after its greeting, for every sequence of messages. */
  lemma ServerAnswers(site: Site, inbox: seq<string>)
    requires site.Valid()
    ensures var (end, answers) := ServerRun(site, Listening(StHost, ""), inbox);
      var challenge := Message("OK CHAL: " + Cl2cs(site.chal) + "\n");
      var last := if end.Granted? then Message("OK FLAGS: " + F.PrintFlags(end.host) + "\n") else "ERR\n";
      && !end.Listening?
      && answers == if inbox != [] && Split(inbox[0]).Words? && Split(inbox[0]).first == "HOST" then [challenge, last] else [last]
  {
    hide Serve, Split, Message, Cl2cs, F.PrintFlags;
    var st0 := Listening(StHost, "");
    if inbox != [] {
      FirstTurn(site, inbox[0]);
      var st1 := Serve(site, st0, inbox[0]).0;
      RunFirst(site, st0, inbox);
      if st1.Listening? && |inbox| >= 2 {
        SecondTurn(site, st1.name, inbox[1]);
        assert inbox[1..][0] == inbox[1];
        RunFirst(site, st1, inbox[1..]);
      }
    }
  }

  /** Main result: for every sequence of messages, a client succeeds exactly if the first is a greeting, the second
      an "OK" with a challenge, and the third an "OK" with flags that parse, which are then the host's; and it answers
      the first with its name and the second with the encrypted challenge. */
  lemma SucceedsExactly(me: Login, inbox: seq<string>)
    requires ValidKeys(me.key)
    ensures var (end, answers) := ClientRun(me, Waiting(StInit), inbox);
      && end.Done?
      && (end.success <==>
          && |inbox| >= 3 && StartsWith(inbox[0], "VTUN")
          && StartsWith(inbox[1], "OK") && Cs2cl(inbox[1]).Challenge?
          && StartsWith(inbox[2], "OK") && F.ParseFlags(inbox[2], me.host).0)
      && (end.success ==> end.host == F.ParseFlags(inbox[2], me.host).1)
      && answers ==
         if inbox == [] || !StartsWith(inbox[0], "VTUN") then []
         else
           [Message("HOST: " + me.name + "\n")] +
           if |inbox| < 2 || !StartsWith(inbox[1], "OK") || Cs2cl(inbox[1]).NoChallenge? then []
           else [Message("CHAL: " + Cl2cs(EncryptChal(me.key(me.passwd), Cs2cl(inbox[1]).chal)) + "\n")]
  {
    hide Respond, Cs2cl, Cl2cs, Message, EncryptChal, F.ParseFlags;
    var s0 := Waiting(StInit);
    if inbox != [] {
      Turns(me, inbox[0]);
      ClientFirst(me, s0, inbox);
      if StartsWith(inbox[0], "VTUN") && |inbox| >= 2 {
        Turns(me, inbox[1]);
        assert inbox[1..][0] == inbox[1] && inbox[1..][1..] == inbox[2..];
        ClientFirst(me, Waiting(StHost), inbox[1..]);
        if |inbox| >= 3 {
          Turns(me, inbox[2]);
          assert inbox[2..][0] == inbox[2];
          ClientFirst(me, Waiting(StChal), inbox[2..]);
        }
      }
    }
  }

  /** Each turn of the client. */
  lemma Turns(me: Login, msg: string)
    requires ValidKeys(me.key)
    ensures Respond(me, Waiting(StInit), msg) == if StartsWith(msg, "VTUN")
      then (Waiting(StHost), Message("HOST: " + me.name + "\n")) else (Done(false, me.host), "")
    ensures Respond(me, Waiting(StHost), msg) == if StartsWith(msg, "OK") && Cs2cl(msg).Challenge?
      then (Waiting(StChal), Message("CHAL: " + Cl2cs(EncryptChal(me.key(me.passwd), Cs2cl(msg).chal)) + "\n"))
      else (Done(false, me.host), "")
    ensures Respond(me, Waiting(StChal), msg).1 == "" && Respond(me, Waiting(StChal), msg).0.Done?
    ensures Respond(me, Waiting(StChal), msg).0.success <==> StartsWith(msg, "OK") && F.ParseFlags(msg, me.host).0
    ensures Respond(me, Waiting(StChal), msg).0.success ==>
      Respond(me, Waiting(StChal), msg).0.host == F.ParseFlags(msg, me.host).1
  {
    hide Message, Cs2cl, Cl2cs, EncryptChal, F.ParseFlags;
  }

  lemma ClientFirst(me: Login, st: Client, inbox: seq<string>)
    requires ValidKeys(me.key) && st.Waiting? && inbox != []
    ensures var (st', answer) := Respond(me, st, inbox[0]);
      && ClientRun(me, st, inbox).0 == ClientRun(me, st', inbox[1..]).0
      && ClientRun(me, st, inbox).1 == (if st'.Waiting? then [answer] else []) + ClientRun(me, st', inbox[1..]).1
      && (!st'.Waiting? ==> ClientRun(me, st', inbox[1..]) == (st', []))
      && (st'.Waiting? ==> ClientRun(me, st', []) == (Done(false, me.host), []))
  {
    hide Respond;
  }

  /* ---------- the texts ---------- */

  /** The greeting, cut to 48 characters like every message. */
  lemma GreetingText(site: Site)
    ensures Greeting(site) <= "VTUN server ver " + site.version + "\n"
    ensures |Greeting(site)| == if |site.version| <= 31 then |site.version| + 17 else 48
  {
  }

  /** The letters of a challenge: high nibble first, 'a' for 0 to 'p' for 15. */
  lemma LettersAre(chal: bytes, i: nat)
    requires i < |chal|
    ensures Cl2cs(chal)[1 + 2 * i] == "abcdefghijklmnop"[chal[i] / 16]
    ensures Cl2cs(chal)[2 + 2 * i] == "abcdefghijklmnop"[chal[i] % 16]
    ensures Cl2cs(chal)[0] == '<' && Cl2cs(chal)[|Cl2cs(chal)| - 1] == '>' && |Cl2cs(chal)| == 2 * |chal| + 2
  {
    LetterIs(chal[i] / 16);
    LetterIs(chal[i] % 16);
    hide Letter;
    var text := Cl2cs(chal);
    assert text[1 + 2 * i] == Letters(chal)[2 * i] == LetterAt(chal, 2 * i);
    assert text[2 + 2 * i] == Letters(chal)[2 * i + 1] == LetterAt(chal, 2 * i + 1);
  }

  lemma LetterIs(n: nat)
    requires n < 16
    ensures Letter(n) == "abcdefghijklmnop"[n]
  {
  }

  /** The 32 characters behind the first '<' at k, up to a '>' or the end, are chal in pairs of nibbles from 'a' on. */
  predicate HeldAt(s: string, k: nat, chal: bytes) {
    && |chal| == 16 && k + 32 < |s| && s[k] == '<' && '<' !in s[..k] && (k + 33 == |s| || s[k + 33] == '>')
    && forall i :: 0 <= i < 16 ==> chal[i] == TwoLetters(s[k + 1 + 2 * i], s[k + 2 + 2 * i])
  }

  /** Any text that is read as a challenge holds it there. */
  lemma ChallengeHeld(s: string, chal: bytes)
    requires Cs2cl(s) == Challenge(chal)
    ensures HeldAt(s, F.Find(s, '<'), chal)
  {
    hide TwoLetters, Token;
    var k := F.Find(s, '<');
    var t := s[k + 1..];
    var text := Cut(t, ">");
    assert |text| == 32 && text == t[..32];
    TokenEnd(t, ">");
    forall i | 0 <= i < 16 ensures chal[i] == TwoLetters(s[k + 1 + 2 * i], s[k + 2 + 2 * i]) {
      assert text[2 * i] == s[k + 1 + 2 * i] && text[2 * i + 1] == s[k + 2 + 2 * i];
    }
    assert k + 33 < |s| ==> t[32] == s[k + 33];
  }

  /** A token ends at a delimiter or at the end of the text, contains none, and only delimiters stand before it. */
  lemma TokenEnd(s: string, delims: string)
    ensures forall i :: 0 <= i < Token(s, delims).0 ==> s[i] in delims
    ensures forall i :: Token(s, delims).0 <= i < Token(s, delims).1 ==> s[i] !in delims
    ensures Token(s, delims).0 < |s| ==> Token(s, delims).0 < Token(s, delims).1
    ensures Token(s, delims).1 < |s| ==> s[Token(s, delims).1] in delims
  {
    var begin := Span(s, delims, true);
    var k := Span(s[begin..], delims, false);
    forall i | begin <= i < begin + k ensures s[i] !in delims {
      assert s[begin..][i - begin] == s[i];
    }
    if begin + k < |s| {
      assert s[begin..][k] == s[begin + k];
    }
  }

  predicate Separator(x: char) {
    x == ' ' || x == ':'
  }

  /** The first word of a line. */
  lemma OneWord(line: string) returns (pre: string, word: string, behind: string)
    requires Token(line, " :").0 < |line|
    ensures line == pre + word + behind && Token(line, " :") == (|pre|, |pre| + |word|)
    ensures word != "" && (forall x :: x in word ==> !Separator(x)) && (forall x :: x in pre ==> Separator(x))
    ensures behind != "" ==> Separator(behind[0])
  {
    hide Token;
    TokenEnd(line, " :");
    var b, e := Token(line, " :").0, Token(line, " :").1;
    pre, word, behind := line[..b], line[b..e], line[e..];
  }

  /** The line is followed by its end, if by anything. */
  lemma LineEnd(msg: string) returns (line: string, tail: string)
    ensures line == if Token(msg, "\r\n").0 == |msg| then msg else Cut(msg, "\r\n")
    ensures msg == line + tail && (tail != "" ==> tail[0] == '\r' || tail[0] == '\n')
  {
    TokenEnd(msg, "\r\n");
    hide Token;
    line := if Token(msg, "\r\n").0 == |msg| then msg else Cut(msg, "\r\n");
    tail := msg[|line|..];
  }

  /** Any message that is taken apart into two words: neither contains a blank or a colon, only these stand before the
      first and between the two, and the second ends at one, at the end of the line, or at the end of the message. */
  lemma WordsFound(msg: string) returns (pre: string, mid: string, post: string)
    requires Split(msg).Words?
    ensures var w := Split(msg);
      && msg == pre + w.first + mid + w.second + post
      && w.first != "" && w.second != "" && mid != ""
      && (forall x :: x in w.first || x in w.second ==> !Separator(x))
      && (forall x :: x in pre || x in mid ==> Separator(x))
      && (post != "" ==> Separator(post[0]) || post[0] == '\r' || post[0] == '\n')
  {
    hide Token, Cut;
    var line, tail := LineEnd(msg);
    var first, behind, mid1, second, behind2: string;
    pre, first, behind := OneWord(line);
    SplitParts(line, pre, first, behind);
    var rest := behind[1..];
    mid1, second, behind2 := OneWord(rest);
    assert rest[|mid1|..|mid1| + |second|] == second;
    mid, post := [behind[0]] + mid1, behind2 + tail;
    assert Split(msg) == Words(first, second);
    hide Split;
    Reassembled(pre, first, behind, mid1, second, behind2, tail);
  }

  lemma SplitParts(line: string, pre: string, first: string, behind: string)
    requires line == pre + first + behind
    ensures line[|pre|..|pre| + |first|] == first
    ensures |pre| + |first| < |line| ==> behind != "" && line[|pre| + |first| + 1..] == behind[1..]
  {
  }

  lemma Reassembled(pre: string, first: string, behind: string, mid: string, second: string, more: string, tail: string)
    requires behind != "" && behind[1..] == mid + second + more
    ensures pre + first + behind + tail == pre + first + ([behind[0]] + mid) + second + (more + tail)
  {
    assert behind == [behind[0]] + behind[1..];
  }
}
