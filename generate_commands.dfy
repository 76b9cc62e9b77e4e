/** generate_commands: choosing catalog lines and templating them. */
module Generation {
  import opened Wrappers
  import opened Builtins
  import opened CliArgs
  import opened Templating
  import LineNums

  /** The IndexError of `line.split()[1]` on a line with fewer than two
      fields, with the 1-based number of that line. */
  datatype GenError = ProtocolFieldMissing(lineNo: nat)

  /** `{num for sublist in args.line_nums for num in sublist}` */
  function NumberSet(lineNums: seq<seq<int>>): (ns: set<int>)
    ensures forall n :: n in ns <==> exists k | 0 <= k < |lineNums| :: n in lineNums[k]
  {
    set k, n | 0 <= k < |lineNums| && n in lineNums[k] :: n
  }

  /** Line lineNo passes the number filter: no --line-nums, or its number was listed. */
  predicate Numbered(args: Args, lineNo: nat) {
    |args.lineNums| == 0 || lineNo in NumberSet(args.lineNums)
  }

  /** A comment is a raw line whose very first character is '#'. */
  predicate IsComment(raw: string) {
    StartsWith(raw, "#")
  }

  /** The whitespace-separated fields of the stripped line. */
  function Fields(raw: string): seq<string> {
    Words(Strip(raw))
  }

  /** The line is past the number filter and the comment test. */
  predicate Considered(args: Args, lineNo: nat, raw: string) {
    Numbered(args, lineNo) && !IsComment(raw)
  }

  /** The protocol filter indexes a second field the line does not have. */
  predicate FailsAt(args: Args, lineNo: nat, raw: string) {
    Considered(args, lineNo, raw) && |args.protocols| > 0 && |Fields(raw)| < 2
  }

  /** The line becomes a command: considered, and no protocol filter or its
      second field is one of the protocols. */
  predicate Keeps(args: Args, lineNo: nat, raw: string) {
    && Considered(args, lineNo, raw)
    && (|args.protocols| == 0 || (|Fields(raw)| >= 2 && Fields(raw)[1] in args.protocols))
  }

  /** What line lineNo contributes: its command, nothing, or the IndexError. */
  function LineCommands(args: Args, lineNo: nat, raw: string): Result<seq<string>, GenError>
  {
    if !Considered(args, lineNo, raw) then Ok([])
    else if |args.protocols| > 0 && |Fields(raw)| < 2 then Err(ProtocolFieldMissing(lineNo))
    else if Keeps(args, lineNo, raw) then Ok([ReplaceCommand(args, Strip(raw))])
    else Ok([])
  }

  /** Every line's contribution, in file order. */
  function LineResults(args: Args, lines: seq<string>): (rs: seq<Result<seq<string>, GenError>>)
    ensures |rs| == |lines| && forall k | 0 <= k < |lines| :: rs[k] == LineCommands(args, k + 1, lines[k])
  {
    seq(|lines|, k requires 0 <= k < |lines| => LineCommands(args, k + 1, lines[k]))
  }

  /** What generate_commands returns for a catalog of raw lines. */
  function Commands(args: Args, lines: seq<string>): Result<seq<string>, GenError>
  {
    Flatten(LineResults(args, lines))
  }

  /** The body both loops of generate_commands share, for a line past the
      number filter: skip a comment, strip, apply the protocol filter, template. */
  method TemplateLine(args: Args, lineNo: nat, line: string) returns (r: Result<seq<string>, GenError>)
    ensures Numbered(args, lineNo) ==> r == LineCommands(args, lineNo, line)
  {
    if StartsWith(line, "#") {
      return Ok([]);
    }
    var stripped := Strip(line);
    if |args.protocols| > 0 {
      var fields := Words(stripped);
      if |fields| < 2 {
        return Err(ProtocolFieldMissing(lineNo));
      }
      if fields[1] in args.protocols {
        return Ok([ReplaceCommand(args, stripped)]);
      }
      return Ok([]);
    }
    return Ok([ReplaceCommand(args, stripped)]);
  }

  /** generate_commands(args), with the file's lines passed in. */
  method GenerateCommands(args: Args, lines: seq<string>) returns (r: Result<seq<string>, GenError>)
    ensures r == Commands(args, lines)
  {
    var cmds: seq<string> := [];
    if |args.lineNums| > 0 {
      var flattened := NumberSet(args.lineNums);
      for i := 0 to |lines|
        invariant Flatten(LineResults(args, lines)[..i]) == Ok(cmds)
      {
        FlattenStep(LineResults(args, lines), i, cmds);
        if i + 1 in flattened {
          var out := TemplateLine(args, i + 1, lines[i]);
          if out.Err? {
            return out;
          }
          cmds := cmds + out.value;
        }
      }
    } else {
      for i := 0 to |lines|
        invariant Flatten(LineResults(args, lines)[..i]) == Ok(cmds)
      {
        FlattenStep(LineResults(args, lines), i, cmds);
        var out := TemplateLine(args, i + 1, lines[i]);
        if out.Err? {
          return out;
        }
        cmds := cmds + out.value;
      }
    }
    assert LineResults(args, lines)[..|lines|] == LineResults(args, lines);
    return Ok(cmds);
  }

  // ------------------------------------------------------------ properties

  /** A line fails iff it is considered under a protocol filter without a
      second field, and the error names it; otherwise it yields one command,
      the templated stripped line, iff it is kept, and nothing else. */
  lemma LineOutcome(args: Args, lineNo: nat, raw: string)
    ensures LineCommands(args, lineNo, raw).Err? <==> FailsAt(args, lineNo, raw)
    ensures FailsAt(args, lineNo, raw) ==> LineCommands(args, lineNo, raw) == Err(ProtocolFieldMissing(lineNo))
    ensures Keeps(args, lineNo, raw) && !FailsAt(args, lineNo, raw) ==>
      LineCommands(args, lineNo, raw) == Ok([ReplaceCommand(args, Strip(raw))])
    ensures !Keeps(args, lineNo, raw) && !FailsAt(args, lineNo, raw) ==> LineCommands(args, lineNo, raw) == Ok([])
  {
  }

  /** LineOutcome for every line of the catalog. */
  lemma AllOutcomes(args: Args, lines: seq<string>)
    ensures forall k | 0 <= k < |lines| ::
      && (LineCommands(args, k + 1, lines[k]).Err? <==> FailsAt(args, k + 1, lines[k]))
      && (FailsAt(args, k + 1, lines[k]) ==> LineCommands(args, k + 1, lines[k]) == Err(ProtocolFieldMissing(k + 1)))
      && (Keeps(args, k + 1, lines[k]) && !FailsAt(args, k + 1, lines[k]) ==>
            LineCommands(args, k + 1, lines[k]) == Ok([ReplaceCommand(args, Strip(lines[k]))]))
      && (!Keeps(args, k + 1, lines[k]) && !FailsAt(args, k + 1, lines[k]) ==> LineCommands(args, k + 1, lines[k]) == Ok([]))
  {
    forall k | 0 <= k < |lines| {
      LineOutcome(args, k + 1, lines[k]);
    }
  }

  /** Without an IndexError the commands are those of the kept lines, one per
      line, in file order, each made from the stripped line; there are never
      more commands than lines. */
  lemma CommandsOk(args: Args, lines: seq<string>) returns (idx: seq<nat>)
    requires Commands(args, lines).Ok?
    ensures |Commands(args, lines).value| <= |lines|
    ensures |idx| == |Commands(args, lines).value|
    ensures forall j | 0 <= j < |idx| ::
      idx[j] < |lines| && Commands(args, lines).value[j] == ReplaceCommand(args, Strip(lines[idx[j]]))
    ensures forall j, j' | 0 <= j < j' < |idx| :: idx[j] < idx[j']
    ensures forall k | 0 <= k < |lines| :: k in idx <==> Keeps(args, k + 1, lines[k])
  {
    var rs := LineResults(args, lines);
    AllOutcomes(args, lines);
    FlattenAtMostOne(rs);
    idx := FlattenPicks(rs);
  }

  /** generate_commands raises iff some considered line lacks its protocol
      field under a protocol filter. */
  lemma CommandsFail(args: Args, lines: seq<string>)
    ensures Commands(args, lines).Err? <==> exists k | 0 <= k < |lines| :: FailsAt(args, k + 1, lines[k])
  {
    AllOutcomes(args, lines);
    FlattenOk(LineResults(args, lines));
  }

  /** The IndexError comes from the first such line; the lines after it are not read. */
  lemma CommandsError(args: Args, lines: seq<string>) returns (k: nat)
    requires Commands(args, lines).Err?
    ensures k < |lines| && FailsAt(args, k + 1, lines[k])
    ensures Commands(args, lines).error == ProtocolFieldMissing(k + 1)
    ensures forall j | 0 <= j < k :: !FailsAt(args, j + 1, lines[j])
  {
    var rs := LineResults(args, lines);
    AllOutcomes(args, lines);
    FlattenErr(rs);
    k :| 0 <= k < |rs| && rs[k] == Err(Flatten(rs).error) && forall j | 0 <= j < k :: rs[j].Ok?;
  }

  /** Only the lines up to the first failing one decide the outcome. */
  lemma CommandsStopAtError(args: Args, lines: seq<string>, k: nat)
    requires k < |lines| && FailsAt(args, k + 1, lines[k])
    requires forall j | 0 <= j < k :: !FailsAt(args, j + 1, lines[j])
    ensures Commands(args, lines) == Commands(args, lines[..k + 1]) == Err(ProtocolFieldMissing(k + 1))
  {
    var rs := LineResults(args, lines);
    AllOutcomes(args, lines);
    assert LineResults(args, lines[..k + 1]) == rs[..k + 1];
    FlattenOk(rs[..k]);
    assert rs[..k + 1][..k] == rs[..k];
    FlattenErrSticks(rs, k + 1);
  }

  /** The number filter sees only which of the catalog's line numbers were
      listed: duplicates, the grouping of the numbers and numbers beyond the
      catalog change nothing. */
  lemma CommandsSameSelection(a: Args, b: Args, lines: seq<string>)
    requires forall p: Placeholder :: Value(p, a) == Value(p, b)
    requires a.poetry == b.poetry && a.protocols == b.protocols
    requires |a.lineNums| == 0 <==> |b.lineNums| == 0
    requires forall n | 1 <= n <= |lines| :: n in NumberSet(a.lineNums) <==> n in NumberSet(b.lineNums)
    ensures Commands(a, lines) == Commands(b, lines)
  {
    forall k | 0 <= k < |lines|
      ensures LineCommands(a, k + 1, lines[k]) == LineCommands(b, k + 1, lines[k])
    {
      SameLine(a, b, k + 1, lines[k]);
    }
    assert LineResults(a, lines) == LineResults(b, lines);
  }

  lemma SameLine(a: Args, b: Args, lineNo: nat, raw: string)
    requires forall p: Placeholder :: Value(p, a) == Value(p, b)
    requires a.poetry == b.poetry && a.protocols == b.protocols
    requires Numbered(a, lineNo) == Numbered(b, lineNo)
    ensures LineCommands(a, lineNo, raw) == LineCommands(b, lineNo, raw)
  {
    ReplaceCommandSameValues(a, b, Strip(raw));
  }

  /** A --line-nums that names none of the catalog's lines, such as the empty
      range "5-3", selects no command at all. */
  lemma NothingSelected(args: Args, lines: seq<string>)
    requires |args.lineNums| > 0
    requires forall n | 1 <= n <= |lines| :: n !in NumberSet(args.lineNums)
    ensures Commands(args, lines) == Ok([])
  {
    FlattenEmpty(LineResults(args, lines));
  }

  /** Without filters every line that is not a comment becomes a command. */
  lemma NoFilters(args: Args, lines: seq<string>, k: nat)
    requires |args.lineNums| == 0 && |args.protocols| == 0
    requires k < |lines| && !IsComment(lines[k])
    ensures Commands(args, lines).Ok?
    ensures ReplaceCommand(args, Strip(lines[k])) in Commands(args, lines).value
  {
    CommandsFail(args, lines);
    var idx := CommandsOk(args, lines);
    var j :| 0 <= j < |idx| && idx[j] == k;
  }

  /** A --line-nums whose only group is empty, as "5-3" parses, selects nothing. */
  lemma EmptyGroupSelectsNothing(args: Args, lines: seq<string>)
    requires args.lineNums == [[]]
    ensures Commands(args, lines) == Ok([])
  {
    NothingSelected(args, lines);
  }

  /** Reading a catalog line "w1 w2 ... wn" with its newline gives back the
      joined words and the words. */
  lemma {:induction false} ReadLine(ws: seq<string>)
    requires |ws| > 0 && forall k | 0 <= k < |ws| :: ws[k] != [] && NoSpace(ws[k])
    ensures Strip(Join(ws, " ") + "\n") == Join(ws, " ")
    ensures Fields(Join(ws, " ") + "\n") == ws
    ensures ws[0][0] != '#' ==> !IsComment(Join(ws, " ") + "\n")
    decreases |ws|
  {
    JoinEnds(ws);
    assert (Join(ws, " ") + "\n")[0] == ws[0][0];
    StripTrailing(Join(ws, " "), "\n");
    WordsOfJoin(ws);
  }

  /** Words joined by spaces start with the first word and end with the last. */
  lemma {:induction false} JoinEnds(ws: seq<string>)
    requires |ws| > 0 && forall k | 0 <= k < |ws| :: ws[k] != []
    ensures |Join(ws, " ")| > 0
    ensures Join(ws, " ")[0] == ws[0][0]
    ensures Join(ws, " ")[|Join(ws, " ")| - 1] == ws[|ws| - 1][|ws[|ws| - 1]| - 1]
    decreases |ws|
  {
    if |ws| > 1 {
      JoinEnds(ws[1..]);
    }
  }

  /** Three results that all succeed concatenate to their three values. */
  lemma FlattenThree(rs: seq<Result<seq<string>, GenError>>)
    requires |rs| == 3 && rs[0].Ok? && rs[1].Ok? && rs[2].Ok?
    ensures Flatten(rs) == Ok(rs[0].value + rs[1].value + rs[2].value)
  {
    assert rs[..1][..0] == [];
    assert [] + rs[0].value == rs[0].value;
    assert Flatten(rs[..1]) == Ok(rs[0].value);
    assert rs[..2][..1] == rs[..1];
    assert Flatten(rs[..2]) == Ok(rs[0].value + rs[1].value);
    assert rs[..3][..2] == rs[..2] && rs[..3] == rs;
  }

  /** The words of an smb and an ldap catalog line. */
  const SMB_LINE := ["netexec", "smb", "TARGET_HOST"]
  const LDAP_LINE := ["netexec", "ldap", "TARGET_HOST"]

  /** Under a protocol filter, a catalog of a comment, a line whose protocol
      is one of the filter's and a line whose protocol is none of them yields
      the first protocol line's command alone. */
  lemma ProtocolFilter(args: Args, lines: seq<string>)
    requires |args.lineNums| == 0 && |args.protocols| > 0
    requires |lines| == 3 && IsComment(lines[0]) && !IsComment(lines[1]) && !IsComment(lines[2])
    requires |Fields(lines[1])| >= 2 && Fields(lines[1])[1] in args.protocols
    requires |Fields(lines[2])| >= 2 && Fields(lines[2])[1] !in args.protocols
    ensures Commands(args, lines) == Ok([ReplaceCommand(args, Strip(lines[1]))])
  {
    var rs := LineResults(args, lines);
    LineOutcome(args, 1, lines[0]);
    LineOutcome(args, 2, lines[1]);
    LineOutcome(args, 3, lines[2]);
    assert rs[0] == Ok([]) && rs[2] == Ok([]);
    assert rs[1] == Ok([ReplaceCommand(args, Strip(lines[1]))]);
    FlattenThree(rs);
    assert [] + rs[1].value + [] == rs[1].value;
  }

  lemma SmbLine()
    ensures Strip(Join(SMB_LINE, " ") + "\n") == Join(SMB_LINE, " ")
    ensures !IsComment(Join(SMB_LINE, " ") + "\n")
    ensures Fields(Join(SMB_LINE, " ") + "\n") == SMB_LINE
  {
    ReadLine(SMB_LINE);
  }

  lemma LdapLine()
    ensures !IsComment(Join(LDAP_LINE, " ") + "\n")
    ensures Fields(Join(LDAP_LINE, " ") + "\n") == LDAP_LINE
  {
    ReadLine(LDAP_LINE);
  }

  /** The catalog "# smb", "netexec smb TARGET_HOST", "netexec ldap TARGET_HOST"
      under the protocol filter "smb" yields the smb command alone. */
  lemma ProtocolFilterExample(args: Args)
    requires |args.lineNums| == 0 && args.protocols == ["smb"]
    ensures Commands(args, ["# smb\n", Join(SMB_LINE, " ") + "\n", Join(LDAP_LINE, " ") + "\n"])
      == Ok([ReplaceCommand(args, Join(SMB_LINE, " "))])
  {
    var lines := ["# smb\n", Join(SMB_LINE, " ") + "\n", Join(LDAP_LINE, " ") + "\n"];
    assert IsComment(lines[0]);
    SmbLine();
    LdapLine();
    ProtocolFilter(args, lines);
  }

  /** With target 10.0.0.1 and no poetry, that catalog yields exactly the
      command "netexec smb 10.0.0.1". */
  lemma ProtocolFilterCommand(args: Args)
    requires |args.lineNums| == 0 && args.protocols == ["smb"]
    requires args.target == "10.0.0.1" && !args.poetry
    ensures Commands(args, ["# smb\n", Join(SMB_LINE, " ") + "\n", Join(LDAP_LINE, " ") + "\n"])
      == Ok(["netexec smb 10.0.0.1"])
  {
    ProtocolFilterExample(args);
    SmbJoined();
    SmbExample(args);
  }

  lemma NumberSetExample()
    ensures NumberSet([[1], [3]]) == {1, 3}
  {
    var ls := [[1], [3]];
    assert 1 in ls[0] && 3 in ls[1];
  }

  /** --line-nums 1 3-3 on a three-line catalog whose first line is a comment
      yields only the third line's command. */
  lemma LineNumsExample(args: Args, lines: seq<string>)
    requires |args.lineNums| == 2 && |args.protocols| == 0
    requires LineNums.TokensNums(Words("1")) == Ok(args.lineNums[0])
    requires LineNums.TokensNums(Words("3-3")) == Ok(args.lineNums[1])
    requires |lines| == 3 && IsComment(lines[0]) && !IsComment(lines[2])
    ensures Commands(args, lines) == Ok([ReplaceCommand(args, Strip(lines[2]))])
  {
    ParsedLineNums(args.lineNums);
    LinesOneAndThree(args, lines);
  }

  lemma LinesOneAndThree(args: Args, lines: seq<string>)
    requires args.lineNums == [[1], [3]] && |args.protocols| == 0
    requires |lines| == 3 && IsComment(lines[0]) && !IsComment(lines[2])
    ensures Commands(args, lines) == Ok([ReplaceCommand(args, Strip(lines[2]))])
  {
    NumberSetExample();
    assert !Numbered(args, 2) && Numbered(args, 3);
    var rs := LineResults(args, lines);
    LineOutcome(args, 1, lines[0]);
    LineOutcome(args, 2, lines[1]);
    LineOutcome(args, 3, lines[2]);
    assert rs[0] == Ok([]) && rs[1] == Ok([]);
    assert rs[2] == Ok([ReplaceCommand(args, Strip(lines[2]))]);
    FlattenThree(rs);
    assert [] + [] + rs[2].value == rs[2].value;
  }

  /** The two arguments "1" and "3-3" of --line-nums parse to [1] and [3]. */
  lemma ParsedLineNums(lineNums: seq<seq<int>>)
    requires |lineNums| == 2
    requires LineNums.TokensNums(Words("1")) == Ok(lineNums[0])
    requires LineNums.TokensNums(Words("3-3")) == Ok(lineNums[1])
    ensures lineNums == [[1], [3]]
  {
    LineNums.ExampleOne();
    LineNums.ExampleSingletonRange();
  }

  // ------------------------------------------------- resource splits
  // Identities between string literals used by the examples above. They
  // state nothing about the program: each is a lemma of its own so that the
  // verifier checks the literals apart from ReplaceAll and Substitute, whose
  // unfolding on literals is too costly to mix with sequence reasoning.

  lemma SmbJoined()
    ensures Join(SMB_LINE, " ") == "netexec smb TARGET_HOST"
  {
  }
}
