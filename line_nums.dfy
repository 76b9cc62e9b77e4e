/** parse_line_nums: the argument type of --line-nums. */
module LineNums {
  import opened Wrappers
  import opened Builtins

  /** The ValueError parse_line_nums lets escape. */
  datatype LineNumError =
    | TooManyParts(token: string)  // `start, end = item.split("-")` found more than one '-'
    | NotAnInteger(text: string)   // int() refused the text

  /** What one whitespace-separated token contributes: [n] for a token
      without '-', the inclusive ascending range for "start-end". */
  function TokenNums(item: string): Result<seq<int>, LineNumError>
  {
    if '-' in item then
      var parts := SplitAt(item, "-");
      if |parts| != 2 then Err(TooManyParts(item))
      else
        match ParseInt(parts[0])
        case None => Err(NotAnInteger(parts[0]))
        case Some(start) =>
          match ParseInt(parts[1])
          case None => Err(NotAnInteger(parts[1]))
          case Some(end) => Ok(Range(start, end + 1))
    else
      match ParseInt(item)
      case None => Err(NotAnInteger(item))
      case Some(n) => Ok([n])
  }

  /** Each token's own result, in token order. */
  function TokenResults(items: seq<string>): (rs: seq<Result<seq<int>, LineNumError>>)
    ensures |rs| == |items| && forall k | 0 <= k < |items| :: rs[k] == TokenNums(items[k])
  {
    seq(|items|, k requires 0 <= k < |items| => TokenNums(items[k]))
  }

  /** What parse_line_nums returns for the tokens of its argument. */
  function TokensNums(items: seq<string>): Result<seq<int>, LineNumError>
  {
    Flatten(TokenResults(items))
  }

  /** The body of parse_line_nums's loop for one token. */
  method ExpandToken(item: string) returns (r: Result<seq<int>, LineNumError>)
    ensures r == TokenNums(item)
  {
    if '-' in item {
      var parts := SplitAt(item, "-");
      if |parts| != 2 {
        return Err(TooManyParts(item));
      }
      var start := ParseInt(parts[0]);
      if start.None? {
        return Err(NotAnInteger(parts[0]));
      }
      var end := ParseInt(parts[1]);
      if end.None? {
        return Err(NotAnInteger(parts[1]));
      }
      return Ok(Range(start.value, end.value + 1));
    } else {
      var n := ParseInt(item);
      if n.None? {
        return Err(NotAnInteger(item));
      }
      return Ok([n.value]);
    }
  }

  /** parse_line_nums(value) */
  method ParseLineNums(value: string) returns (r: Result<seq<int>, LineNumError>)
    ensures r == TokensNums(Words(value))
  {
    var lineNums: seq<int> := [];
    var items := Words(value);
    for k := 0 to |items|
      invariant Flatten(TokenResults(items)[..k]) == Ok(lineNums)
    {
      ghost var rs := TokenResults(items);
      assert rs[..k + 1][..k] == rs[..k];
      var nums := ExpandToken(items[k]);
      if nums.Err? {
        r := Err(nums.error);
        FlattenErrSticks(rs, k + 1);
        return;
      }
      lineNums := lineNums + nums.value;
    }
    assert TokenResults(items)[..|items|] == TokenResults(items);
    r := Ok(lineNums);
  }

  // ------------------------------------------------------------ properties

  /** A plain non-negative number stands for itself. */
  lemma TokenOfNumber(n: nat)
    ensures TokenNums(Show(n)) == Ok([n])
  {
    ParseIntShow(n);
  }

  /** "start-end" stands for start, start + 1, ..., end, and for nothing when start > end. */
  lemma TokenOfRange(start: nat, end: nat)
    ensures TokenNums(Show(start) + "-" + Show(end)) == Ok(Range(start, end + 1))
  {
    var a, b := Show(start), Show(end);
    var item := a + "-" + b;
    assert '-' !in a && '-' !in b;
    SplitAtFirst(a, '-', b);
    SplitAtAbsent(b, '-');
    assert SplitAt(item, "-") == [a, b];
    assert item[|a|] == '-';
    assert '-' in item;
    ParseIntShow(start);
    ParseIntShow(end);
    assert TokenNums(item) == Ok(Range(start, end + 1));
  }

  /** A token with two or more '-' is refused: the split does not unpack into start and end. */
  lemma TokenManyDashes(item: string)
    requires multiset(item)['-'] >= 2
    ensures TokenNums(item) == Err(TooManyParts(item))
  {
    SplitAtCount(item, '-');
  }

  /** A token that begins with '-' (a negative number, or a range with an empty start) is refused. */
  lemma TokenLeadingDash(item: string)
    requires |item| > 0 && item[0] == '-'
    ensures TokenNums(item).Err?
  {
    var parts := SplitAt(item, "-");
    if |parts| == 2 {
      assert item[..1] == "-";
      assert parts[0] == "";
      ParseIntEmpty();
    }
  }

  /** The tokens parse iff every token parses, and then a number is in the
      result iff some token contributes it. */
  lemma TokensNumsOk(items: seq<string>)
    ensures TokensNums(items).Ok? <==> forall k | 0 <= k < |items| :: TokenNums(items[k]).Ok?
    ensures TokensNums(items).Ok? ==>
      forall n :: n in TokensNums(items).value <==>
        exists k | 0 <= k < |items| :: TokenNums(items[k]).Ok? && n in TokenNums(items[k]).value
  {
    var rs := TokenResults(items);
    FlattenOk(rs);
    if TokensNums(items).Ok? {
      FlattenMembers(rs);
    }
  }

  /** A failure is the error of the first token that fails. */
  lemma TokensNumsErr(items: seq<string>)
    requires TokensNums(items).Err?
    ensures exists k | 0 <= k < |items| ::
      && TokenNums(items[k]) == Err(TokensNums(items).error)
      && forall j | 0 <= j < k :: TokenNums(items[j]).Ok?
  {
    FlattenErr(TokenResults(items));
  }

  lemma TokensNumsOne(a: string)
    ensures TokensNums([a]) == TokenNums(a)
  {
    var rs := TokenResults([a]);
    assert rs[..0] == [];
    assert Flatten(rs[..0]) == Ok([]);
    assert rs[|rs| - 1] == TokenNums(a);
    match TokenNums(a)
    case Err(_) =>
    case Ok(xs) => assert [] + xs == xs;
  }

  /** An argument that is a single token parses as that token. */
  lemma SingleToken(item: string)
    requires item != [] && NoSpace(item)
    ensures TokensNums(Words(item)) == TokenNums(item)
  {
    WordsOfJoin([item]);
    TokensNumsOne(item);
  }

  lemma RangeTwoToFour()
    ensures TokenNums("2-4") == Ok([2, 3, 4])
  {
    TokenOfRange(2, 4);
    assert Show(2) + "-" + Show(4) == "2-4";
    assert Range(2, 5) == [2, 3, 4];
  }

  lemma RangeFiveToThree()
    ensures TokenNums("5-3") == Ok([])
  {
    TokenOfRange(5, 3);
    assert Show(5) + "-" + Show(3) == "5-3";
  }

  /** "2-4" expands to 2, 3, 4. */
  lemma ExampleRange()
    ensures TokensNums(Words("2-4")) == Ok([2, 3, 4])
  {
    SingleToken("2-4");
    RangeTwoToFour();
  }

  /** "5-3" is a range with start > end: no numbers, and no error. */
  lemma ExampleEmptyRange()
    ensures TokensNums(Words("5-3")) == Ok([])
  {
    SingleToken("5-3");
    RangeFiveToThree();
  }

  /** "1" is the single number 1. */
  lemma ExampleOne()
    ensures TokensNums(Words("1")) == Ok([1])
  {
    SingleToken("1");
    TokenOfNumber(1);
    assert Show(1) == "1";
  }

  /** "3-3" is a range of one number. */
  lemma ExampleSingletonRange()
    ensures TokensNums(Words("3-3")) == Ok([3])
  {
    SingleToken("3-3");
    TokenOfRange(3, 3);
    assert Show(3) + "-" + Show(3) == "3-3";
    assert Range(3, 4) == [3];
  }

  /** "1-2-3" has two '-': the split does not unpack. */
  lemma ExampleTwoDashes()
    ensures TokensNums(Words("1-2-3")) == Err(TooManyParts("1-2-3"))
  {
    SingleToken("1-2-3");
    assert multiset("1-2-3")['-'] == 2;
    TokenManyDashes("1-2-3");
  }

  /** "-5" splits into an empty start, which int() refuses. */
  lemma ExampleNegative()
    ensures TokensNums(Words("-5")).Err?
  {
    SingleToken("-5");
    TokenLeadingDash("-5");
  }
}
