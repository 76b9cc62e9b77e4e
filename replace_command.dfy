/** replace_command: turning one catalog line into a runnable command. */
module Templating {
  import opened Wrappers
  import opened Builtins
  import opened CliArgs

  /** The seven placeholder tokens a catalog line may hold. */
  datatype Placeholder =
    | TargetHost | LoginUsername | LoginPassword | Kerberos
    | TestUserFile | TestPasswordFile | Dns

  function Token(p: Placeholder): (t: string)
    ensures |t| > 0
  {
    match p
    case TargetHost => "TARGET_HOST"
    case LoginUsername => "LOGIN_USERNAME"
    case LoginPassword => "LOGIN_PASSWORD"
    case Kerberos => "KERBEROS "
    case TestUserFile => "TEST_USER_FILE"
    case TestPasswordFile => "TEST_PASSWORD_FILE"
    case Dns => "{DNS}"
  }

  /** The text that replaces a placeholder: the target verbatim, the
      credentials in double quotes, "-k " or nothing for Kerberos, the two
      list-file paths, and "--dns-server <v>" or nothing for {DNS}. */
  function Value(p: Placeholder, args: Args): string
  {
    match p
    case TargetHost => args.target
    case LoginUsername => "\"" + args.username + "\""
    case LoginPassword => "\"" + args.password + "\""
    case Kerberos => if args.kerberos then "-k " else ""
    case TestUserFile => args.testUserFile
    case TestPasswordFile => args.testPasswordFile
    case Dns =>
      // `if args.dns_server`: both None and "" are false
      if args.dnsServer.Some? && args.dnsServer.value != "" then "--dns-server " + args.dnsServer.value
      else ""
  }

  /** The order of the chained str.replace calls. */
  const ORDER: seq<Placeholder> :=
    [TargetHost, LoginUsername, LoginPassword, Kerberos, TestUserFile, TestPasswordFile, Dns]

  /** The replacements for ps applied one after the other, each to the result of the one before. */
  function Substitute(line: string, args: Args, ps: seq<Placeholder>): string
    decreases |ps|
  {
    if ps == [] then line
    else Substitute(ReplaceAll(line, Token(ps[0]), Value(ps[0], args)), args, ps[1..])
  }

  /** replace_command(args, line) */
  function ReplaceCommand(args: Args, line: string): string
  {
    var body := Substitute(line, args, ORDER);
    if args.poetry then "poetry run " + body else body
  }

  // ------------------------------------------------------------ properties

  /** Running ps then qs is running ps + qs. */
  lemma {:induction false} SubstituteAppend(line: string, args: Args, ps: seq<Placeholder>, qs: seq<Placeholder>)
    ensures Substitute(line, args, ps + qs) == Substitute(Substitute(line, args, ps), args, qs)
    decreases |ps|
  {
    if ps != [] {
      assert (ps + qs)[0] == ps[0];
      assert (ps + qs)[1..] == ps[1..] + qs;
      SubstituteAppend(ReplaceAll(line, Token(ps[0]), Value(ps[0], args)), args, ps[1..], qs);
    } else {
      assert ps + qs == qs;
    }
  }

  /** A line holding none of the tokens of ps is left alone by them. */
  lemma {:induction false} SubstituteAbsent(line: string, args: Args, ps: seq<Placeholder>)
    requires forall k | 0 <= k < |ps| :: !Contains(line, Token(ps[k]))
    ensures Substitute(line, args, ps) == line
    decreases |ps|
  {
    if ps != [] {
      assert ReplaceAll(line, Token(ps[0]), Value(ps[0], args)) == line;
      assert forall k | 0 <= k < |ps[1..]| :: ps[1..][k] == ps[k + 1];
      SubstituteAbsent(line, args, ps[1..]);
    }
  }

  /** A character of each token that no later token of the chain holds. */
  function Marker(p: Placeholder): char
  {
    match p
    case TargetHost => 'H'
    case LoginUsername => 'M'
    case LoginPassword => 'G'
    case Kerberos => 'K'
    case TestUserFile => 'U'
    case TestPasswordFile => 'T'
    case Dns => '{'
  }

  lemma MarkerIn(p: Placeholder)
    ensures Marker(p) in Token(p)
  {
    match p
    case TargetHost => assert Token(p)[7] == 'H';
    case LoginUsername => assert Token(p)[12] == 'M';
    case LoginPassword => assert Token(p)[2] == 'G';
    case Kerberos => assert Token(p)[0] == 'K';
    case TestUserFile => assert Token(p)[5] == 'U';
    case TestPasswordFile => assert Token(p)[0] == 'T';
    case Dns => assert Token(p)[0] == '{';
  }

  lemma MarkerAbsent(i: nat, j: nat)
    requires i < j < |ORDER|
    ensures Marker(ORDER[i]) !in Token(ORDER[j])
  {
    if j == 1 {
      MarkersNotInUsername();
    } else if j == 2 {
      MarkersNotInPassword();
    } else if j == 3 {
      MarkersNotInKerberos();
    } else if j == 4 {
      MarkersNotInUserFile();
    } else if j == 5 {
      MarkersNotInPasswordFile();
    } else {
      MarkersNotInDns();
    }
  }

  lemma MarkersNotInUsername()
    ensures 'H' !in "LOGIN_USERNAME"
  {
  }

  lemma MarkersNotInPassword()
    ensures 'H' !in "LOGIN_PASSWORD" && 'M' !in "LOGIN_PASSWORD"
  {
  }

  lemma MarkersNotInKerberos()
    ensures 'H' !in "KERBEROS " && 'M' !in "KERBEROS " && 'G' !in "KERBEROS "
  {
  }

  lemma MarkersNotInUserFile()
    ensures 'H' !in "TEST_USER_FILE" && 'M' !in "TEST_USER_FILE" && 'G' !in "TEST_USER_FILE"
    ensures 'K' !in "TEST_USER_FILE"
  {
  }

  lemma MarkersNotInPasswordFile()
    ensures 'H' !in "TEST_PASSWORD_FILE" && 'M' !in "TEST_PASSWORD_FILE" && 'G' !in "TEST_PASSWORD_FILE"
    ensures 'K' !in "TEST_PASSWORD_FILE" && 'U' !in "TEST_PASSWORD_FILE"
  {
    var t := "TEST_PASSWORD_FILE";
    assert t == "TEST_" + "PASSWORD_FILE";
    MarkersNotInHalf("TEST_");
    MarkersNotInHalf("PASSWORD_FILE");
  }

  lemma MarkersNotInHalf(t: string)
    requires t == "TEST_" || t == "PASSWORD_FILE"
    ensures 'H' !in t && 'M' !in t && 'G' !in t && 'K' !in t && 'U' !in t
  {
  }

  lemma MarkersNotInDns()
    ensures 'H' !in "{DNS}" && 'M' !in "{DNS}" && 'G' !in "{DNS}"
    ensures 'K' !in "{DNS}" && 'U' !in "{DNS}" && 'T' !in "{DNS}"
  {
  }

  /** No token contains a token that the chain replaces before it. */
  lemma TokensApart(i: nat, j: nat)
    requires i < j < |ORDER|
    ensures !Contains(Token(ORDER[j]), Token(ORDER[i]))
  {
    MarkerIn(ORDER[i]);
    MarkerAbsent(i, j);
    AbsentChar(Token(ORDER[j]), Token(ORDER[i]), Marker(ORDER[i]));
  }

  /** A line without the first character of any token holds no token. */
  lemma NoTokenStart(s: string)
    requires forall p: Placeholder :: Token(p)[0] !in s
    ensures forall p: Placeholder :: !Contains(s, Token(p))
  {
    forall p: Placeholder ensures !Contains(s, Token(p)) {
      AbsentChar(s, Token(p), Token(p)[0]);
    }
  }

  /** From its own step on, the chain turns the token of step k into its
      value, provided the value holds none of the later tokens. */
  lemma FromStep(args: Args, k: nat)
    requires k < |ORDER|
    requires forall j | k < j < |ORDER| :: !Contains(Value(ORDER[k], args), Token(ORDER[j]))
    ensures Substitute(Token(ORDER[k]), args, ORDER[k..]) == Value(ORDER[k], args)
  {
    var p := ORDER[k];
    var v := Value(p, args);
    ReplaceHead("", Token(p), v);
    assert Token(p) + "" == Token(p);
    assert ReplaceAll(Token(p), Token(p), v) == v;
    assert ORDER[k..][0] == p && ORDER[k..][1..] == ORDER[k + 1..];
    SubstituteAbsent(v, args, ORDER[k + 1..]);
  }

  /** Each placeholder on its own becomes its value (the target verbatim, a
      credential in double quotes, "-k " or nothing, a path, the DNS flag or
      nothing), provided the value holds none of the tokens replaced after it. */
  lemma TokenBecomesValue(args: Args, k: nat)
    requires k < |ORDER|
    requires forall j | k < j < |ORDER| :: !Contains(Value(ORDER[k], args), Token(ORDER[j]))
    ensures Substitute(Token(ORDER[k]), args, ORDER) == Value(ORDER[k], args)
  {
    assert ORDER == ORDER[..k] + ORDER[k..];
    SubstituteAppend(Token(ORDER[k]), args, ORDER[..k], ORDER[k..]);
    forall i | 0 <= i < k ensures !Contains(Token(ORDER[k]), Token(ORDER[..k][i])) {
      TokensApart(i, k);
    }
    SubstituteAbsent(Token(ORDER[k]), args, ORDER[..k]);
    FromStep(args, k);
  }

  /** A line with none of the seven tokens comes back unchanged when poetry is off. */
  lemma NoPlaceholderUnchanged(args: Args, line: string)
    requires forall p: Placeholder :: !Contains(line, Token(p))
    requires !args.poetry
    ensures ReplaceCommand(args, line) == line
  {
    SubstituteAbsent(line, args, ORDER);
  }

  /** The substitutions read the arguments only through the seven values. */
  lemma {:induction false} SubstituteSameValues(line: string, a: Args, b: Args, ps: seq<Placeholder>)
    requires forall p: Placeholder :: Value(p, a) == Value(p, b)
    ensures Substitute(line, a, ps) == Substitute(line, b, ps)
    decreases |ps|
  {
    if ps != [] {
      SubstituteSameValues(ReplaceAll(line, Token(ps[0]), Value(ps[0], a)), a, b, ps[1..]);
    }
  }

  /** Arguments that agree on the template values and on poetry give the same commands. */
  lemma ReplaceCommandSameValues(a: Args, b: Args, line: string)
    requires forall p: Placeholder :: Value(p, a) == Value(p, b)
    requires a.poetry == b.poetry
    ensures ReplaceCommand(a, line) == ReplaceCommand(b, line)
  {
    SubstituteSameValues(line, a, b, ORDER);
  }

  /** With poetry on, the command is "poetry run " followed by the command poetry off would give. */
  lemma PoetryPrefix(args: Args, line: string)
    requires args.poetry
    ensures ReplaceCommand(args, line) == "poetry run " + ReplaceCommand(args.(poetry := false), line)
  {
    SubstituteSameValues(line, args, args.(poetry := false), ORDER);
  }

  /** The TARGET_HOST step applied to a line that is just that token. */
  lemma TargetStep(args: Args, rest: seq<Placeholder>)
    ensures Substitute("TARGET_HOST", args, [TargetHost] + rest) == Substitute(args.target, args, rest)
  {
    ReplaceHead("", "TARGET_HOST", args.target);
    assert "TARGET_HOST" + "" == "TARGET_HOST";
    assert args.target + "" == args.target;
    assert ([TargetHost] + rest)[1..] == rest;
  }

  /** The quoted username "u" holds none of the tokens. */
  lemma QuotedUHoldsNoToken()
    ensures forall p: Placeholder :: !Contains("\"u\"", Token(p))
  {
    assert forall p: Placeholder :: Token(p)[0] !in "\"u\"";
    NoTokenStart("\"u\"");
  }

  /** The chain is sequential: a target that spells LOGIN_USERNAME is itself
      replaced by the quoted username one step later. */
  lemma LaterStepsSeeEarlierValues(args: Args)
    requires args.target == "LOGIN_USERNAME" && args.username == "u" && !args.poetry
    ensures ReplaceCommand(args, "TARGET_HOST") == "\"u\""
  {
    TargetThenUsername(args);
  }

  lemma TargetThenUsername(args: Args)
    requires args.target == "LOGIN_USERNAME" && args.username == "u"
    ensures Substitute("TARGET_HOST", args, ORDER) == "\"u\""
  {
    OrderHead();
    TargetStep(args, ORDER[1..]);
    UsernameStepFacts(args);
    QuotedUHoldsNoToken();
    FromStep(args, 1);
  }

  // ------------------------------------------------- whole catalog lines

  /** The step of the chain that replaces p. */
  function Rank(p: Placeholder): (j: nat)
    ensures j < |ORDER| && ORDER[j] == p
  {
    match p
    case TargetHost => 0
    case LoginUsername => 1
    case LoginPassword => 2
    case Kerberos => 3
    case TestUserFile => 4
    case TestPasswordFile => 5
    case Dns => 6
  }

  lemma RankOfOrder(j: nat)
    requires j < |ORDER|
    ensures Rank(ORDER[j]) == j
  {
  }

  /** Text that holds no token's first character ('T', 'L', 'K' or '{'). */
  predicate Clean(s: string) {
    forall p: Placeholder :: Token(p)[0] !in s
  }

  /** A catalog line read as literal text and placeholders. */
  datatype Segment = Text(text: string) | Slot(slot: Placeholder)

  /** The catalog line: each placeholder written as its token. */
  function Template(segs: seq<Segment>): string {
    if segs == [] then ""
    else (match segs[0] case Text(t) => t case Slot(p) => Token(p)) + Template(segs[1..])
  }

  /** The intended command: each placeholder written as its value. */
  function Filled(segs: seq<Segment>, args: Args): string {
    if segs == [] then ""
    else (match segs[0] case Text(t) => t case Slot(p) => Value(p, args)) + Filled(segs[1..], args)
  }

  /** A segment after the first n steps of the chain. */
  function Shown(seg: Segment, args: Args, n: nat): string {
    match seg
    case Text(t) => t
    case Slot(p) => if Rank(p) < n then Value(p, args) else Token(p)
  }

  /** The line after the first n steps, if each step replaced exactly its own placeholders. */
  function Partly(segs: seq<Segment>, args: Args, n: nat): string {
    if segs == [] then "" else Shown(segs[0], args, n) + Partly(segs[1..], args, n)
  }

  /** The literal text and the values of the placeholders present are clean. */
  predicate Fillable(segs: seq<Segment>, args: Args) {
    forall k | 0 <= k < |segs| :: Clean(Shown(segs[k], args, |ORDER|))
  }

  lemma {:induction false} PartlyNone(segs: seq<Segment>, args: Args)
    ensures Partly(segs, args, 0) == Template(segs)
    decreases |segs|
  {
    if segs != [] {
      PartlyNone(segs[1..], args);
    }
  }

  lemma {:induction false} PartlyAll(segs: seq<Segment>, args: Args)
    ensures Partly(segs, args, |ORDER|) == Filled(segs, args)
    decreases |segs|
  {
    if segs != [] {
      PartlyAll(segs[1..], args);
    }
  }

  /** The later tokens of the chain, checked character by character, start no
      occurrence of an earlier token, whatever text follows them. */
  lemma UsernameGuarded(q: Placeholder)
    requires Rank(q) < 1
    ensures Guarded(Token(LoginUsername), Token(q), 0)
  {
  }

  lemma PasswordGuarded(q: Placeholder)
    requires Rank(q) < 2
    ensures Guarded(Token(LoginPassword), Token(q), 0)
  {
    assert Guarded(Token(LoginPassword), Token(q), 7);
  }

  lemma KerberosGuarded(q: Placeholder)
    requires Rank(q) < 3
    ensures Guarded(Token(Kerberos), Token(q), 0)
  {
  }

  lemma UserFileGuarded(q: Placeholder)
    requires Rank(q) < 4
    ensures Guarded(Token(TestUserFile), Token(q), 0)
  {
    assert Guarded(Token(TestUserFile), Token(q), 7);
  }

  lemma PasswordFileGuarded(q: Placeholder)
    requires Rank(q) < 5
    ensures Guarded(Token(TestPasswordFile), Token(q), 0)
  {
    PasswordFileMiddleGuarded(q);
  }

  lemma PasswordFileMiddleGuarded(q: Placeholder)
    requires Rank(q) < 5
    ensures Guarded(Token(TestPasswordFile), Token(q), 4)
  {
    PasswordFileTailGuarded(q);
  }

  lemma PasswordFileTailGuarded(q: Placeholder)
    requires Rank(q) < 5
    ensures Guarded(Token(TestPasswordFile), Token(q), 9)
  {
    assert Guarded(Token(TestPasswordFile), Token(q), 14);
  }

  lemma DnsGuarded(q: Placeholder)
    requires Rank(q) < 6
    ensures Guarded(Token(Dns), Token(q), 0)
  {
  }

  /** The token of a later step passes unchanged through the step of q. */
  lemma LaterTokenPasses(p: Placeholder, q: Placeholder, y: string, v: string)
    requires Rank(q) < Rank(p)
    ensures ReplaceAll(Token(p) + y, Token(q), v) == Token(p) + ReplaceAll(y, Token(q), v)
  {
    match p {
      case LoginUsername => UsernameGuarded(q);
      case LoginPassword => PasswordGuarded(q);
      case Kerberos => KerberosGuarded(q);
      case TestUserFile => UserFileGuarded(q);
      case TestPasswordFile => PasswordFileGuarded(q);
      case Dns => DnsGuarded(q);
    }
    GuardedPasses(Token(p), y, Token(q), v, 0);
    assert Token(p)[0..] == Token(p);
  }

  /** Step j of the chain replaces exactly the placeholders of step j in a fillable line. */
  lemma {:induction false} StepPartly(segs: seq<Segment>, args: Args, j: nat)
    requires j < |ORDER| && Fillable(segs, args)
    ensures ReplaceAll(Partly(segs, args, j), Token(ORDER[j]), Value(ORDER[j], args)) == Partly(segs, args, j + 1)
    decreases |segs|
  {
    var q := ORDER[j];
    var pat, v := Token(q), Value(q, args);
    if segs != [] {
      var rest := segs[1..];
      assert Fillable(rest, args) by {
        forall k | 0 <= k < |rest| ensures Clean(Shown(rest[k], args, |ORDER|)) {
          assert rest[k] == segs[k + 1];
        }
      }
      StepPartly(rest, args, j);
      var y := Partly(rest, args, j);
      assert Clean(Shown(segs[0], args, |ORDER|));
      RankOfOrder(j);
      match segs[0]
      case Text(t) =>
        ReplaceSkip(t, y, pat, v);
      case Slot(p) =>
        if Rank(p) < j {
          ReplaceSkip(Value(p, args), y, pat, v);
        } else if Rank(p) == j {
          ReplaceHead(y, pat, v);
        } else {
          LaterTokenPasses(p, q, y, v);
        }
    }
  }

  lemma {:induction false} FillFrom(segs: seq<Segment>, args: Args, j: nat)
    requires j <= |ORDER| && Fillable(segs, args)
    ensures Substitute(Partly(segs, args, j), args, ORDER[j..]) == Partly(segs, args, |ORDER|)
    decreases |ORDER| - j
  {
    if j < |ORDER| {
      assert ORDER[j..][0] == ORDER[j] && ORDER[j..][1..] == ORDER[j + 1..];
      SubstituteStep(Partly(segs, args, j), args, ORDER[j..]);
      StepPartly(segs, args, j);
      FillFrom(segs, args, j + 1);
    }
  }

  /** The chain's first step, then the rest of it. */
  lemma SubstituteStep(line: string, args: Args, ps: seq<Placeholder>)
    requires |ps| > 0
    ensures Substitute(line, args, ps) == Substitute(ReplaceAll(line, Token(ps[0]), Value(ps[0], args)), args, ps[1..])
  {
  }

  /** A catalog line whose literal text and placeholder values hold no token's
      first character becomes the line with every placeholder, wherever and
      however often it occurs, written as its value. */
  lemma FillTemplate(segs: seq<Segment>, args: Args)
    requires Fillable(segs, args)
    ensures Substitute(Template(segs), args, ORDER) == Filled(segs, args)
    ensures ReplaceCommand(args, Template(segs)) == (if args.poetry then "poetry run " else "") + Filled(segs, args)
  {
    PartlyNone(segs, args);
    PartlyAll(segs, args);
    FillFrom(segs, args, 0);
    assert ORDER[0..] == ORDER;
  }

  /** A line of clean text followed by one placeholder with a clean value
      becomes the text followed by the value. */
  lemma TextThenSlot(args: Args, t: string, p: Placeholder)
    requires Clean(t) && Clean(Value(p, args))
    ensures Substitute(t + Token(p), args, ORDER) == t + Value(p, args)
  {
    var segs := [Text(t), Slot(p)];
    TwoSegments(t, p, args);
    TwoFillable(t, p, args);
    FillTemplate(segs, args);
  }

  lemma TwoSegments(t: string, p: Placeholder, args: Args)
    ensures Template([Text(t), Slot(p)]) == t + Token(p)
    ensures Filled([Text(t), Slot(p)], args) == t + Value(p, args)
  {
    var segs := [Text(t), Slot(p)];
    var last := segs[1..];
    assert last == [Slot(p)] && last[1..] == [];
    assert Template(last) == Token(p) + "" == Token(p);
    assert Filled(last, args) == Value(p, args) + "" == Value(p, args);
  }

  lemma TwoFillable(t: string, p: Placeholder, args: Args)
    requires Clean(t) && Clean(Value(p, args))
    ensures Fillable([Text(t), Slot(p)], args)
  {
    var segs := [Text(t), Slot(p)];
    assert Shown(segs[0], args, |ORDER|) == t;
    assert Shown(segs[1], args, |ORDER|) == Value(p, args);
  }

  /** Every token starts with 'T', 'L', 'K' or '{'. */
  lemma FirstChars(p: Placeholder)
    ensures Token(p)[0] in "TLK{"
  {
  }

  /** A string checked character by character to avoid 'T', 'L', 'K' and '{' is clean. */
  lemma CleanByChars(s: string)
    requires NoneOf(s, "TLK{", 0)
    ensures Clean(s)
  {
    NoneOfMeans(s, "TLK{", 0);
    forall p: Placeholder ensures Token(p)[0] !in s {
      FirstChars(p);
    }
  }

  lemma SmbTextClean()
    ensures Clean("netexec smb ")
  {
    assert NoneOf("netexec smb ", "TLK{", 0);
    CleanByChars("netexec smb ");
  }

  /** With target 10.0.0.1: "netexec smb TARGET_HOST" becomes "netexec smb 10.0.0.1". */
  lemma SmbExample(args: Args)
    requires args.target == "10.0.0.1" && !args.poetry
    ensures ReplaceCommand(args, "netexec smb TARGET_HOST") == "netexec smb 10.0.0.1"
  {
    TargetClean(args);
    SmbTargetLine(args);
    SmbIpJoin();
  }

  /** The catalog line "netexec smb TARGET_HOST" becomes "netexec smb " and a clean target. */
  lemma SmbTargetLine(args: Args)
    requires Clean(args.target) && !args.poetry
    ensures ReplaceCommand(args, "netexec smb TARGET_HOST") == "netexec smb " + args.target
  {
    SmbTextClean();
    SmbLineSplit();
    TextThenTarget(args, "netexec smb ", "netexec smb TARGET_HOST");
  }

  /** Without poetry, clean text followed by TARGET_HOST becomes the text and a clean target. */
  lemma TextThenTarget(args: Args, t: string, line: string)
    requires Clean(t) && Clean(args.target) && !args.poetry && line == t + Token(TargetHost)
    ensures ReplaceCommand(args, line) == t + args.target
  {
    TextThenSlot(args, t, TargetHost);
    assert Substitute(line, args, ORDER) == t + args.target;
  }

  lemma TargetClean(args: Args)
    requires args.target == "10.0.0.1"
    ensures Clean(args.target)
  {
    assert NoneOf("10.0.0.1", "TLK{", 0);
    CleanByChars("10.0.0.1");
  }

  /** The first three steps leave text without 'T' and 'L' alone. */
  lemma FirstStepsLeave(s: string, args: Args)
    requires NoneOf(s, "TL", 0)
    ensures Substitute(s, args, ORDER[..3]) == s
  {
    NoneOfMeans(s, "TL", 0);
    forall k | 0 <= k < |ORDER[..3]| ensures !Contains(s, Token(ORDER[..3][k])) {
      var p := ORDER[..3][k];
      assert Token(p)[0] == 'T' || Token(p)[0] == 'L';
      AbsentChar(s, Token(p), Token(p)[0]);
    }
    SubstituteAbsent(s, args, ORDER[..3]);
  }

  /** The last three steps leave text without 'T' and '{' alone. */
  lemma LastStepsLeave(s: string, args: Args)
    requires NoneOf(s, "T{", 0)
    ensures Substitute(s, args, ORDER[4..]) == s
  {
    NoneOfMeans(s, "T{", 0);
    forall k | 0 <= k < |ORDER[4..]| ensures !Contains(s, Token(ORDER[4..][k])) {
      var p := ORDER[4..][k];
      assert Token(p)[0] == 'T' || Token(p)[0] == '{';
      AbsentChar(s, Token(p), Token(p)[0]);
    }
    SubstituteAbsent(s, args, ORDER[4..]);
  }

  /** Replacing the inner "KERBEROS " of "KERBKERBEROS EROS " by v gives "KERB" + v + "EROS ". */
  lemma KerberosCollapse(v: string)
    ensures ReplaceAll("KERBKERBEROS EROS ", "KERBEROS ", v) == "KERB" + v + "EROS "
  {
    CollapseWords();
    SkipStep("KERB" + "KERBEROS ", "EROS ", "KERBEROS ", v, 4);
    CollapseRest(v);
    Regroup(v);
  }

  lemma CollapseRest(v: string)
    ensures ReplaceAll("ERB" + ("KERBEROS " + "EROS "), "KERBEROS ", v) == "ERB" + (v + "EROS ")
  {
    var pat := "KERBEROS ";
    ReplaceSkip("ERB", pat + "EROS ", pat, v);
    ReplaceHead("EROS ", pat, v);
    AbsentChar("EROS ", pat, 'K');
  }

  /** Clean text is needed: with Kerberos off, removing an inner "KERBEROS "
      joins the text around it into a new token, which the chain leaves in place. */
  lemma RemovalJoinsToken(args: Args)
    requires !args.kerberos && !args.poetry
    ensures ReplaceCommand(args, "KERBKERBEROS EROS ") == "KERBEROS "
  {
    RemovalJoinsChain(args);
  }

  lemma RemovalJoinsChain(args: Args)
    requires !args.kerberos
    ensures Substitute("KERBKERBEROS EROS ", args, ORDER) == "KERBEROS "
  {
    CollapseLeftAlone();
    FirstStepsLeave("KERBKERBEROS EROS ", args);
    KerberosStep("KERBKERBEROS EROS ", args);
    KerberosCollapse(Value(Kerberos, args));
    KerberosOffJoin(args);
    CollapsedLeftAlone();
    LastStepsLeave("KERBEROS ", args);
  }

  /** When the first three steps leave a line alone, the chain continues with the Kerberos step. */
  lemma KerberosStep(line: string, args: Args)
    requires Substitute(line, args, ORDER[..3]) == line
    ensures Substitute(line, args, ORDER)
      == Substitute(ReplaceAll(line, "KERBEROS ", Value(Kerberos, args)), args, ORDER[4..])
  {
    assert ORDER == ORDER[..3] + ORDER[3..];
    SubstituteAppend(line, args, ORDER[..3], ORDER[3..]);
    assert ORDER[3..][0] == Kerberos && ORDER[3..][1..] == ORDER[4..];
  }

  // ------------------------------------------------- resource splits
  // Identities between string literals used by the examples above. They
  // state nothing about the program: each is a lemma of its own so that the
  // verifier checks the literals apart from ReplaceAll and Substitute, whose
  // unfolding on literals is too costly to mix with sequence reasoning.

  lemma OrderHead()
    ensures ORDER == [TargetHost] + ORDER[1..]
  {
  }

  lemma UsernameStepFacts(args: Args)
    requires args.username == "u"
    ensures Token(ORDER[1]) == "LOGIN_USERNAME" && Value(ORDER[1], args) == "\"u\""
  {
  }

  lemma SmbIpJoin()
    ensures "netexec smb " + "10.0.0.1" == "netexec smb 10.0.0.1"
  {
  }

  lemma SmbLineSplit()
    ensures "netexec smb TARGET_HOST" == "netexec smb " + Token(TargetHost)
  {
  }

  /** The scan moves past the first 'K', since "KERBK" is no start of "KERBEROS ". */
  lemma CollapseWords()
    ensures "KERBKERBEROS EROS " == ("KERB" + "KERBEROS ") + "EROS "
    ensures ("KERB" + "KERBEROS ")[4] != "KERBEROS "[4]
    ensures [("KERB" + "KERBEROS ")[0]] == "K"
    ensures ("KERB" + "KERBEROS ")[1..] + "EROS " == "ERB" + ("KERBEROS " + "EROS ")
  {
  }

  lemma Regroup(v: string)
    ensures "K" + ("ERB" + (v + "EROS ")) == "KERB" + v + "EROS "
  {
  }

  lemma CollapseLeftAlone()
    ensures NoneOf("KERBKERBEROS EROS ", "TL", 0)
  {
    assert NoneOf("KERBKERBEROS EROS ", "TL", 9);
  }

  lemma CollapsedLeftAlone()
    ensures NoneOf("KERBEROS ", "T{", 0)
  {
  }

  lemma KerberosOffJoin(args: Args)
    requires !args.kerberos
    ensures "KERB" + Value(Kerberos, args) + "EROS " == "KERBEROS "
  {
  }
}
