/**
 * The few Python string and integer built-ins the test runner relies on:
 * str.isspace, str.strip(), str.split() with and without a separator,
 * str.startswith, the substring test `in`, str.replace, int() on a string,
 * and range().
 */
module Builtins {
  import opened Wrappers

  /** Python's str.isspace for one character (the Unicode whitespace set). */
  predicate IsSpace(c: char) {
    var n := c as int;
    (9 <= n <= 13) || (28 <= n <= 32) || n == 0x85 || n == 0xA0 || n == 0x1680
    || (0x2000 <= n <= 0x200A) || n == 0x2028 || n == 0x2029 || n == 0x202F
    || n == 0x205F || n == 0x3000
  }

  predicate NoSpace(s: string) {
    forall i | 0 <= i < |s| :: !IsSpace(s[i])
  }

  /** s.startswith(prefix) */
  predicate StartsWith(s: string, prefix: string) {
    |prefix| <= |s| && s[..|prefix|] == prefix
  }

  /** t occurs in s at position i. */
  predicate OccursAt(s: string, t: string, i: int) {
    0 <= i <= |s| - |t| && s[i..i + |t|] == t
  }

  /** Python's `t in s` for strings, scanning s from the left. */
  predicate Contains(s: string, t: string)
    decreases |s|
  {
    StartsWith(s, t) || (|s| > 0 && Contains(s[1..], t))
  }

  /** The left-to-right scan agrees with "t occurs at some position of s". */
  lemma {:induction false} ContainsIff(s: string, t: string)
    ensures Contains(s, t) <==> exists i :: OccursAt(s, t, i)
    decreases |s|
  {
    if StartsWith(s, t) {
      assert OccursAt(s, t, 0);
    } else if |s| > 0 {
      if Contains(s[1..], t) {
        ContainsIff(s[1..], t);
        var i :| OccursAt(s[1..], t, i);
        SliceOfTail(s, i, |t|);
        assert OccursAt(s, t, i + 1);
      } else {
        forall i | OccursAt(s, t, i) ensures i > 0 && OccursAt(s[1..], t, i - 1) {
          if i > 0 {
            SliceOfTail(s, i - 1, |t|);
          }
        }
        ContainsIff(s[1..], t);
      }
    }
  }

  lemma SliceOfTail(s: string, i: nat, n: nat)
    requires |s| > 0 && i + n <= |s| - 1
    ensures s[1..][i..i + n] == s[i + 1..i + 1 + n]
  {
    var a, b := s[1..][i..i + n], s[i + 1..i + 1 + n];
    assert |a| == |b|;
    forall m | 0 <= m < n ensures a[m] == b[m] {
      assert a[m] == s[1..][i + m] == s[i + 1 + m];
    }
  }

  /** No character of s from position i on is one of chars. */
  predicate NoneOf(s: string, chars: string, i: nat)
    decreases |s| - i
  {
    i >= |s| || (s[i] !in chars && NoneOf(s, chars, i + 1))
  }

  lemma {:induction false} NoneOfMeans(s: string, chars: string, i: nat)
    requires NoneOf(s, chars, i)
    ensures forall k | i <= k < |s| :: s[k] !in chars
    decreases |s| - i
  {
    if i < |s| {
      NoneOfMeans(s, chars, i + 1);
    }
  }

  /** A string that lacks one of t's characters cannot contain t. */
  lemma {:induction false} AbsentChar(s: string, t: string, c: char)
    requires c in t && c !in s
    ensures !Contains(s, t)
    decreases |s|
  {
    if |s| > 0 {
      assert c !in s[1..] by {
        forall k | 0 <= k < |s[1..]| ensures s[1..][k] != c {
          assert s[1..][k] == s[k + 1];
        }
      }
      AbsentChar(s[1..], t, c);
    }
  }

  // ---------------------------------------------------------------- strip

  /** The number of whitespace characters at the front of s. */
  function LeadingSpaces(s: string): (n: nat)
    ensures n <= |s|
    ensures forall k | 0 <= k < n :: IsSpace(s[k])
    ensures n == |s| || !IsSpace(s[n])
    decreases |s|
  {
    if s != [] && IsSpace(s[0]) then 1 + LeadingSpaces(s[1..]) else 0
  }

  /** The number of whitespace characters at the end of s. */
  function TrailingSpaces(s: string): (n: nat)
    ensures n <= |s|
    ensures forall k | |s| - n <= k < |s| :: IsSpace(s[k])
    ensures n == |s| || !IsSpace(s[|s| - n - 1])
    decreases |s|
  {
    if s != [] && IsSpace(s[|s| - 1]) then 1 + TrailingSpaces(s[..|s| - 1]) else 0
  }

  /** s.strip(): s without its leading and trailing whitespace. */
  function Strip(s: string): string
  {
    var i := LeadingSpaces(s);
    var rest := s[i..];
    rest[..|rest| - TrailingSpaces(rest)]
  }

  /** strip() removes a whitespace run at each end and nothing else, and what
      it leaves neither starts nor ends with whitespace. */
  lemma StripShape(s: string)
    ensures exists i, j | 0 <= i <= j <= |s| ::
      (&& Strip(s) == s[i..j]
       && (forall k | 0 <= k < i :: IsSpace(s[k]))
       && (forall k | j <= k < |s| :: IsSpace(s[k])))
    ensures Strip(s) == [] || (!IsSpace(Strip(s)[0]) && !IsSpace(Strip(s)[|Strip(s)| - 1]))
  {
    var i := LeadingSpaces(s);
    var rest := s[i..];
    var t := TrailingSpaces(rest);
    var j := |s| - t;
    assert forall k | j <= k < |s| :: IsSpace(s[k]) by {
      forall k | j <= k < |s| ensures IsSpace(s[k]) {
        assert rest[k - i] == s[k];
      }
    }
    assert rest[..|rest| - t] == s[i..j];
  }

  /** Stripping a string that neither starts nor ends with whitespace changes nothing. */
  lemma StripUnchanged(s: string)
    requires s == [] || (!IsSpace(s[0]) && !IsSpace(s[|s| - 1]))
    ensures Strip(s) == s
  {
    StripShape(s);
    var r := Strip(s);
    var i, j :| 0 <= i <= j <= |s| && r == s[i..j]
      && (forall k | 0 <= k < i :: IsSpace(s[k]))
      && (forall k | j <= k < |s| :: IsSpace(s[k]));
  }

  /** Stripping a line that ends in whitespace, such as its newline, leaves
      the text before it when that text has no whitespace at its ends. */
  lemma StripTrailing(s: string, t: string)
    requires s == [] || (!IsSpace(s[0]) && !IsSpace(s[|s| - 1]))
    requires forall k | 0 <= k < |t| :: IsSpace(t[k])
    ensures Strip(s + t) == s
  {
    var u := s + t;
    StripShape(u);
    var r := Strip(u);
    var i, j :| 0 <= i <= j <= |u| && r == u[i..j]
      && (forall k | 0 <= k < i :: IsSpace(u[k]))
      && (forall k | j <= k < |u| :: IsSpace(u[k]));
    if s == [] {
      assert forall k | 0 <= k < |u| :: IsSpace(u[k]);
      assert r == [];
    } else {
      assert u[0] == s[0] && u[|s| - 1] == s[|s| - 1];
      assert i == 0;
      assert j >= |s|;
      assert u[..|s|] == s;
    }
  }

  // ------------------------------------------------------ split(), no separator

  /** The length of the run of non-whitespace characters at the front of s. */
  function WordLen(s: string): (n: nat)
    ensures n <= |s|
    ensures forall k | 0 <= k < n :: !IsSpace(s[k])
    ensures n == |s| || IsSpace(s[n])
    decreases |s|
  {
    if s == [] || IsSpace(s[0]) then 0 else 1 + WordLen(s[1..])
  }

  /** s.split(): the maximal runs of non-whitespace characters, in order. */
  function Words(s: string): (ws: seq<string>)
    ensures forall k | 0 <= k < |ws| :: ws[k] != [] && NoSpace(ws[k])
    decreases |s|
  {
    if s == [] then []
    else if IsSpace(s[0]) then Words(s[1..])
    else
      var n := WordLen(s);
      [s[..n]] + Words(s[n..])
  }

  /** sep.join(parts) */
  function Join(parts: seq<string>, sep: string): string
  {
    if parts == [] then ""
    else if |parts| == 1 then parts[0]
    else parts[0] + sep + Join(parts[1..], sep)
  }

  lemma {:induction false} WordLenOfWord(w: string, rest: string)
    requires NoSpace(w)
    requires rest == [] || IsSpace(rest[0])
    ensures WordLen(w + rest) == |w|
    decreases |w|
  {
    if w != [] {
      assert (w + rest)[1..] == w[1..] + rest;
      WordLenOfWord(w[1..], rest);
    }
  }

  /** Splitting words joined by single spaces gives the words back: " ".join(ws).split() == ws. */
  lemma {:induction false} WordsOfJoin(ws: seq<string>)
    requires forall k | 0 <= k < |ws| :: ws[k] != [] && NoSpace(ws[k])
    ensures Words(Join(ws, " ")) == ws
    decreases |ws|
  {
    if ws == [] {
    } else if |ws| == 1 {
      var w := ws[0];
      WordLenOfWord(w, "");
      assert w + "" == w;
      assert w[|w|..] == [];
    } else {
      var w := ws[0];
      var tail := Join(ws[1..], " ");
      var s := w + " " + tail;
      assert Join(ws, " ") == s;
      assert s == w + (" " + tail);
      WordLenOfWord(w, " " + tail);
      assert s[0] == w[0] && !IsSpace(s[0]);
      assert s[..|w|] == w;
      assert s[|w|..] == " " + tail;
      assert Words(s) == [w] + Words(" " + tail);
      assert (" " + tail)[1..] == tail;
      assert Words(" " + tail) == Words(tail);
      WordsOfJoin(ws[1..]);
      assert ws == [w] + ws[1..];
    }
  }

  /** Whitespace in front adds no word. */
  lemma {:induction false} WordsAfterSpaces(t: string, s: string)
    requires forall k | 0 <= k < |t| :: IsSpace(t[k])
    ensures Words(t + s) == Words(s)
    decreases |t|
  {
    if t != [] {
      assert (t + s)[0] == t[0];
      assert (t + s)[1..] == t[1..] + s;
      WordsAfterSpaces(t[1..], s);
    } else {
      assert t + s == s;
    }
  }

  /** A word followed by a whitespace run is the first word, the rest follows. */
  lemma WordsOfWord(w: string, t: string, s: string)
    requires w != [] && NoSpace(w)
    requires t != [] && forall k | 0 <= k < |t| :: IsSpace(t[k])
    ensures Words(w + t + s) == [w] + Words(s)
  {
    var u := w + (t + s);
    assert w + t + s == u;
    WordLenOfWord(w, t + s);
    assert u[0] == w[0];
    assert u[..|w|] == w && u[|w|..] == t + s;
    WordsAfterSpaces(t, s);
  }

  // ---------------------------------------------------- split(sep), replace

  /** s.split(sep) for a non-empty separator: the pieces between the
      non-overlapping occurrences of sep found scanning from the left. */
  function SplitAt(s: string, sep: string): (parts: seq<string>)
    requires |sep| > 0
    ensures |parts| >= 1
    decreases |s|
  {
    if |s| < |sep| then [s]
    else if s[..|sep|] == sep then [""] + SplitAt(s[|sep|..], sep)
    else
      var rest := SplitAt(s[1..], sep);
      [[s[0]] + rest[0]] + rest[1..]
  }

  lemma JoinConsHead(c: char, parts: seq<string>, sep: string)
    requires |parts| >= 1
    ensures Join([[c] + parts[0]] + parts[1..], sep) == [c] + Join(parts, sep)
  {
    var p := [[c] + parts[0]] + parts[1..];
    if |parts| > 1 {
      assert p[1..] == parts[1..];
    }
  }

  /** sep.join(s.split(sep)) == s */
  lemma {:induction false} JoinSplitAt(s: string, sep: string)
    requires |sep| > 0
    ensures Join(SplitAt(s, sep), sep) == s
    decreases |s|
  {
    if |s| < |sep| {
    } else if s[..|sep|] == sep {
      var tail := s[|sep|..];
      var rest := SplitAt(tail, sep);
      JoinSplitAt(tail, sep);
      assert SplitAt(s, sep) == [""] + rest;
      assert ([""] + rest)[1..] == rest;
      assert Join([""] + rest, sep) == "" + sep + Join(rest, sep);
      assert s == sep + tail;
    } else {
      var rest := SplitAt(s[1..], sep);
      JoinSplitAt(s[1..], sep);
      assert SplitAt(s, sep) == [[s[0]] + rest[0]] + rest[1..];
      JoinConsHead(s[0], rest, sep);
      assert s == [s[0]] + s[1..];
    }
  }

  /** Splitting at a one-character separator gives one piece more than
      there are occurrences of that character. */
  lemma {:induction false} SplitAtCount(s: string, c: char)
    ensures |SplitAt(s, [c])| == multiset(s)[c] + 1
    decreases |s|
  {
    if |s| >= 1 {
      assert s == [s[0]] + s[1..];
      assert multiset(s) == multiset{s[0]} + multiset(s[1..]);
      assert s[..1] == [s[0]];
      assert s[1..] == s[|[c]|..];
      SplitAtCount(s[1..], c);
    }
  }

  /** Splitting at a character that does not occur gives the string back. */
  lemma {:induction false} SplitAtAbsent(s: string, c: char)
    requires c !in s
    ensures SplitAt(s, [c]) == [s]
    decreases |s|
  {
    if |s| >= 1 {
      assert s[..1] == [s[0]];
      assert c !in s[1..];
      SplitAtAbsent(s[1..], c);
      assert s == [s[0]] + s[1..];
    }
  }

  /** The first occurrence of a one-character separator ends the first piece. */
  lemma {:induction false} SplitAtFirst(x: string, c: char, y: string)
    requires c !in x
    ensures SplitAt(x + [c] + y, [c]) == [x] + SplitAt(y, [c])
    decreases |x|
  {
    var s := x + [c] + y;
    if x == [] {
      assert s[..1] == [c];
      assert s[1..] == y;
    } else {
      assert s[..1] == [x[0]];
      assert s[1..] == x[1..] + [c] + y;
      assert c !in x[1..];
      SplitAtFirst(x[1..], c, y);
      assert x == [x[0]] + x[1..];
    }
  }

  /** A string shorter than t does not contain t. */
  lemma {:induction false} ShortNoContain(s: string, t: string)
    requires |s| < |t|
    ensures !Contains(s, t)
    decreases |s|
  {
    if |s| > 0 {
      ShortNoContain(s[1..], t);
    }
  }

  /** The first piece of s.split(sep) is a prefix of s. */
  lemma {:induction false} FirstPiecePrefix(s: string, sep: string)
    requires |sep| > 0
    ensures |SplitAt(s, sep)[0]| <= |s| && SplitAt(s, sep)[0] == s[..|SplitAt(s, sep)[0]|]
    decreases |s|
  {
    if |s| < |sep| {
      assert SplitAt(s, sep)[0] == s == s[..|s|];
    } else if s[..|sep|] == sep {
      assert SplitAt(s, sep)[0] == "" == s[..0];
    } else {
      var rest := SplitAt(s[1..], sep);
      FirstPiecePrefix(s[1..], sep);
      var n := |rest[0]|;
      assert rest[0] == s[1..][..n];
      assert SplitAt(s, sep)[0] == [s[0]] + rest[0];
      assert s[..n + 1] == [s[0]] + s[1..][..n];
    }
  }

  /** No piece of s.split(sep) contains sep. */
  lemma {:induction false} PiecesFree(s: string, sep: string)
    requires |sep| > 0
    ensures forall k | 0 <= k < |SplitAt(s, sep)| :: !Contains(SplitAt(s, sep)[k], sep)
    decreases |s|
  {
    var parts := SplitAt(s, sep);
    if |s| < |sep| {
      ShortNoContain(s, sep);
    } else if s[..|sep|] == sep {
      var rest := SplitAt(s[|sep|..], sep);
      PiecesFree(s[|sep|..], sep);
      ShortNoContain("", sep);
      assert forall k | 1 <= k < |parts| :: parts[k] == rest[k - 1];
    } else {
      var rest := SplitAt(s[1..], sep);
      PiecesFree(s[1..], sep);
      FirstPiecePrefix(s[1..], sep);
      var head := [s[0]] + rest[0];
      assert head[1..] == rest[0];
      assert !StartsWith(head, sep) by {
        var n := |rest[0]|;
        assert head == s[..n + 1] by {
          assert s[..n + 1] == [s[0]] + s[1..][..n];
        }
      }
      assert forall k | 1 <= k < |parts| :: parts[k] == rest[k];
    }
  }

  /** A piece ends at a leftmost occurrence of sep: the piece followed by
      all of sep but its last character holds no sep, so no occurrence
      starts inside the piece and runs into the separator after it. */
  predicate LeftmostCut(piece: string, sep: string)
    requires |sep| > 0
  {
    !Contains(piece + sep[..|sep| - 1], sep)
  }

  /** When s.split(sep) cuts s at all, the first piece and a sep start s. */
  lemma {:induction false} FirstCutPrefix(s: string, sep: string)
    requires |sep| > 0 && |SplitAt(s, sep)| > 1
    ensures |SplitAt(s, sep)[0]| + |sep| <= |s|
    ensures s[..|SplitAt(s, sep)[0]| + |sep|] == SplitAt(s, sep)[0] + sep
    decreases |s|
  {
    if |s| >= |sep| && s[..|sep|] == sep {
    } else if |s| >= |sep| {
      var rest := SplitAt(s[1..], sep);
      FirstCutPrefix(s[1..], sep);
      var n := |rest[0]| + |sep|;
      assert s[..n + 1] == [s[0]] + s[1..][..n];
    }
  }

  /** Every cut of s.split(sep) is at the leftmost occurrence of sep after
      the previous cut, even where occurrences of sep overlap. */
  lemma {:induction false} CutsLeftmost(s: string, sep: string)
    requires |sep| > 0
    ensures forall k | 0 <= k < |SplitAt(s, sep)| - 1 :: LeftmostCut(SplitAt(s, sep)[k], sep)
    decreases |s|
  {
    var parts := SplitAt(s, sep);
    var short := sep[..|sep| - 1];
    if |s| >= |sep| && s[..|sep|] == sep {
      var rest := SplitAt(s[|sep|..], sep);
      CutsLeftmost(s[|sep|..], sep);
      assert "" + short == short;
      ShortNoContain(short, sep);
      assert forall k | 1 <= k < |parts| :: parts[k] == rest[k - 1];
    } else if |s| >= |sep| {
      var rest := SplitAt(s[1..], sep);
      CutsLeftmost(s[1..], sep);
      assert forall k | 1 <= k < |parts| :: parts[k] == rest[k];
      if |rest| > 1 {
        assert LeftmostCut(rest[0], sep);
        FirstCutPrefix(s[1..], sep);
        var n := |rest[0]| + |sep|;
        assert s[..n + 1] == [s[0]] + s[1..][..n];
        ConsLeftmost(s, rest[0], sep);
      }
    }
  }

  /** A piece that starts s and is followed there by sep still ends at a
      leftmost occurrence once its first character is put back, as long as
      s itself does not start with sep. */
  lemma ConsLeftmost(s: string, r: string, sep: string)
    requires |sep| > 0 && LeftmostCut(r, sep)
    requires |r| + 1 + |sep| <= |s| && s[..|r| + 1 + |sep|] == [s[0]] + r + sep
    requires s[..|sep|] != sep
    ensures LeftmostCut([s[0]] + r, sep)
  {
    var short := sep[..|sep| - 1];
    var x := [s[0]] + r + short;
    var n := |r| + |sep|;
    assert x == s[..n + 1][..n];
    assert x[..|sep|] == s[..|sep|];
    assert x[1..] == r + short;
  }

  /** Splitting a string that holds no sep gives it back whole. */
  lemma {:induction false} SplitAtFree(s: string, sep: string)
    requires |sep| > 0 && !Contains(s, sep)
    ensures SplitAt(s, sep) == [s]
    decreases |s|
  {
    if |s| >= |sep| {
      SplitAtFree(s[1..], sep);
      assert s == [s[0]] + s[1..];
    }
  }

  /** A piece that ends at a leftmost occurrence is the first piece. */
  lemma {:induction false} SplitAtCut(p: string, sep: string, y: string)
    requires |sep| > 0 && LeftmostCut(p, sep)
    ensures SplitAt(p + sep + y, sep) == [p] + SplitAt(y, sep)
    decreases |p|
  {
    var s := p + sep + y;
    if p == [] {
      assert s[..|sep|] == sep;
      assert s[|sep|..] == y;
    } else {
      var short := sep[..|sep| - 1];
      var x := p + short;
      assert x == s[..|p| + |sep| - 1];
      assert s[..|sep|] == x[..|sep|];
      assert x[1..] == p[1..] + short;
      assert s[1..] == p[1..] + sep + y;
      SplitAtCut(p[1..], sep, y);
      assert p == [p[0]] + p[1..];
    }
  }

  /** s.split(sep) is the only cutting of s that joins back to s with sep,
      cuts at leftmost occurrences and leaves no sep in its last piece. */
  lemma {:induction false} SplitAtUnique(s: string, sep: string, parts: seq<string>)
    requires |sep| > 0 && |parts| >= 1 && Join(parts, sep) == s
    requires forall k | 0 <= k < |parts| - 1 :: LeftmostCut(parts[k], sep)
    requires !Contains(parts[|parts| - 1], sep)
    ensures parts == SplitAt(s, sep)
    decreases |parts|
  {
    if |parts| == 1 {
      SplitAtFree(s, sep);
    } else {
      var tail := parts[1..];
      assert forall k | 0 <= k < |tail| - 1 :: tail[k] == parts[k + 1];
      SplitAtUnique(Join(tail, sep), sep, tail);
      SplitAtCut(parts[0], sep, Join(tail, sep));
      assert parts == [parts[0]] + tail;
    }
  }

  /** s.replace(pat, repl) for a non-empty pat: every non-overlapping
      occurrence of pat, found scanning from the left, becomes repl. */
  function ReplaceAll(s: string, pat: string, repl: string): (r: string)
    requires |pat| > 0
    ensures !Contains(s, pat) ==> r == s
    decreases |s|
  {
    if |s| < |pat| then s
    else if s[..|pat|] == pat then repl + ReplaceAll(s[|pat|..], pat, repl)
    else [s[0]] + ReplaceAll(s[1..], pat, repl)
  }

  /** Python's documented equivalence: s.replace(pat, repl) == repl.join(s.split(pat)). */
  lemma {:induction false} ReplaceAllIsJoinSplit(s: string, pat: string, repl: string)
    requires |pat| > 0
    ensures ReplaceAll(s, pat, repl) == Join(SplitAt(s, pat), repl)
    decreases |s|
  {
    if |s| < |pat| {
    } else if s[..|pat|] == pat {
      var rest := SplitAt(s[|pat|..], pat);
      ReplaceAllIsJoinSplit(s[|pat|..], pat, repl);
      assert ([""] + rest)[1..] == rest;
    } else {
      var rest := SplitAt(s[1..], pat);
      ReplaceAllIsJoinSplit(s[1..], pat, repl);
      JoinConsHead(s[0], rest, repl);
    }
  }

  /** Where "TARGET_HOST" overlaps itself, replace takes the leftmost one
      and the overlapping later one is not an occurrence any more. */
  lemma OverlapLeftmost()
    ensures ReplaceAll("TARGET_HOSTARGET_HOST", "TARGET_HOST", "X") == "XARGET_HOST"
  {
    OverlapParts();
    CutThenShort("TARGET_HOST", "ARGET_HOST", "X");
  }

  // Resource split: the literal identities of OverlapLeftmost, kept apart from ReplaceAll.
  lemma OverlapParts()
    ensures "TARGET_HOSTARGET_HOST" == "TARGET_HOST" + "ARGET_HOST"
    ensures "XARGET_HOST" == "X" + "ARGET_HOST"
    ensures |"ARGET_HOST"| < |"TARGET_HOST"|
  {
  }

  /** A pattern followed by a rest too short to hold it is replaced once. */
  lemma CutThenShort(pat: string, y: string, repl: string)
    requires |pat| > 0 && |y| < |pat|
    ensures ReplaceAll(pat + y, pat, repl) == repl + y
  {
    assert (pat + y)[..|pat|] == pat;
    assert (pat + y)[|pat|..] == y;
  }

  /** Replacing a lone character by another rewrites exactly the positions that held it. */
  lemma {:induction false} ReplaceChar(s: string, a: char, b: char)
    ensures |ReplaceAll(s, [a], [b])| == |s|
    ensures forall k | 0 <= k < |s| ::
      ReplaceAll(s, [a], [b])[k] == if s[k] == a then b else s[k]
    decreases |s|
  {
    if |s| >= 1 {
      assert s[..1] == [s[0]];
      assert s[1..] == s[|[a]|..];
      ReplaceChar(s[1..], a, b);
    }
  }

  /** A prefix without pat's first character passes through unchanged. */
  lemma {:induction false} ReplaceSkip(a: string, s: string, pat: string, repl: string)
    requires |pat| > 0 && pat[0] !in a
    ensures ReplaceAll(a + s, pat, repl) == a + ReplaceAll(s, pat, repl)
    decreases |a|
  {
    if a != [] {
      var t := a + s;
      assert t[0] == a[0];
      assert t[1..] == a[1..] + s;
      assert pat[0] !in a[1..];
      ReplaceSkip(a[1..], s, pat, repl);
      assert a == [a[0]] + a[1..];
      if |t| >= |pat| {
        assert t[..|pat|][0] == a[0];
        assert ReplaceAll(t, pat, repl) == [a[0]] + ReplaceAll(a[1..] + s, pat, repl);
        assert [a[0]] + (a[1..] + ReplaceAll(s, pat, repl)) == a + ReplaceAll(s, pat, repl);
      } else {
        assert ReplaceAll(s, pat, repl) == s;
        assert ReplaceAll(t, pat, repl) == t;
      }
    } else {
      assert a + s == s;
    }
  }

  /** A front character whose window disagrees with pat at offset k starts no
      occurrence, so the scan moves past it. */
  lemma SkipStep(x: string, s: string, pat: string, repl: string, k: nat)
    requires |pat| > 0 && k < |x| && k < |pat| && x[k] != pat[k]
    ensures ReplaceAll(x + s, pat, repl) == [x[0]] + ReplaceAll(x[1..] + s, pat, repl)
  {
    var t := x + s;
    assert t[1..] == x[1..] + s;
    if |t| >= |pat| {
      assert t[..|pat|][k] == x[k];
    }
  }

  /** Every position of x from i on either differs from pat's first character
      or disagrees with pat further on inside x: no occurrence of pat starts
      there, whatever follows x. */
  predicate Guarded(x: string, pat: string, i: nat)
    requires |pat| > 0
    decreases |x| - i
  {
    i >= |x| || ((x[i] != pat[0] || Differs(x, pat, i, 1)) && Guarded(x, pat, i + 1))
  }

  /** x, read from position i, disagrees with pat at some offset k' >= k inside x. */
  predicate Differs(x: string, pat: string, i: nat, k: nat)
    decreases |x| - i - k
  {
    i + k < |x| && k < |pat| && (x[i + k] != pat[k] || Differs(x, pat, i, k + 1))
  }

  lemma {:induction false} DiffersAt(x: string, pat: string, i: nat, k: nat) returns (m: nat)
    requires Differs(x, pat, i, k)
    ensures k <= m && i + m < |x| && m < |pat| && x[i + m] != pat[m]
    decreases |x| - i - k
  {
    if x[i + k] != pat[k] {
      m := k;
    } else {
      m := DiffersAt(x, pat, i, k + 1);
    }
  }

  /** A guarded suffix of x passes through replace unchanged. */
  lemma {:induction false} GuardedPasses(x: string, y: string, pat: string, repl: string, i: nat)
    requires |pat| > 0 && i <= |x| && Guarded(x, pat, i)
    ensures ReplaceAll(x[i..] + y, pat, repl) == x[i..] + ReplaceAll(y, pat, repl)
    decreases |x| - i
  {
    if i == |x| {
      assert x[i..] + y == y;
    } else {
      var t := x[i..];
      assert t[0] == x[i] && t[1..] == x[i + 1..];
      var k: nat := 0;
      if x[i] == pat[0] {
        k := DiffersAt(x, pat, i, 1);
      }
      assert t[k] == x[i + k];
      SkipStep(t, y, pat, repl, k);
      GuardedPasses(x, y, pat, repl, i + 1);
      ConsSlice(x, i, ReplaceAll(y, pat, repl));
    }
  }

  lemma ConsSlice(x: string, i: nat, r: string)
    requires i < |x|
    ensures [x[i]] + (x[i + 1..] + r) == x[i..] + r
  {
    assert x[i..] == [x[i]] + x[i + 1..];
  }

  /** An occurrence at the front is replaced. */
  lemma ReplaceHead(s: string, pat: string, repl: string)
    requires |pat| > 0
    ensures ReplaceAll(pat + s, pat, repl) == repl + ReplaceAll(s, pat, repl)
  {
    assert (pat + s)[..|pat|] == pat;
    assert (pat + s)[|pat|..] == s;
  }

  // ------------------------------------------------------------- int(), range()

  predicate IsDigit(c: char) { '0' <= c <= '9' }

  /** Decimal digits with single underscores between them, as int() accepts. */
  predicate DigitGroups(s: string) {
    && |s| > 0 && IsDigit(s[0]) && IsDigit(s[|s| - 1])
    && (forall k | 0 <= k < |s| :: IsDigit(s[k]) || s[k] == '_')
    && (forall k | 0 <= k < |s| - 1 :: !(s[k] == '_' && s[k + 1] == '_'))
  }

  /** The value of a string of digits and underscores; underscores are skipped. */
  function DecimalValue(s: string): nat
    requires forall k | 0 <= k < |s| :: IsDigit(s[k]) || s[k] == '_'
  {
    if s == [] then 0
    else
      var last := s[|s| - 1];
      var v := DecimalValue(s[..|s| - 1]);
      assert IsDigit(last) || last == '_';
      if last == '_' then v else 10 * v + (last as int - '0' as int)
  }

  /** int(text) with base 10: surrounding whitespace, an optional sign, then digit groups. */
  function ParseInt(text: string): Option<int>
  {
    var s := Strip(text);
    if |s| > 0 && (s[0] == '+' || s[0] == '-') then
      if DigitGroups(s[1..]) then
        var magnitude: int := DecimalValue(s[1..]);
        Some(if s[0] == '-' then -magnitude else magnitude)
      else None
    else if DigitGroups(s) then Some(DecimalValue(s))
    else None
  }

  function DigitChar(d: nat): (c: char)
    requires d < 10
    ensures IsDigit(c) && c as int - '0' as int == d
  {
    (d + '0' as int) as char
  }

  /** The decimal spelling of n, as str(n) writes it. */
  function ShowNat(n: nat): (s: string)
    ensures |s| > 0 && forall k | 0 <= k < |s| :: IsDigit(s[k])
  {
    if n < 10 then [DigitChar(n)] else ShowNat(n / 10) + [DigitChar(n % 10)]
  }

  function Show(n: int): string
  {
    if n < 0 then "-" + ShowNat(-n) else ShowNat(n)
  }

  lemma {:induction false} DecimalValueShowNat(n: nat)
    ensures DecimalValue(ShowNat(n)) == n
  {
    if n >= 10 {
      var s := ShowNat(n);
      assert s[..|s| - 1] == ShowNat(n / 10);
      DecimalValueShowNat(n / 10);
    }
  }

  /** int(str(n)) == n */
  lemma ParseIntShow(n: int)
    ensures ParseInt(Show(n)) == Some(n)
  {
    var s := Show(n);
    var digits := ShowNat(if n < 0 then -n else n);
    assert DigitGroups(digits);
    DecimalValueShowNat(if n < 0 then -n else n);
    StripUnchanged(s);
    if n < 0 {
      assert s[1..] == digits;
    }
  }

  lemma ParseIntEmpty()
    ensures ParseInt("") == None
  {
    StripUnchanged("");
  }

  /** range(lo, hi): lo, lo + 1, ..., hi - 1, and nothing when lo >= hi. */
  function Range(lo: int, hi: int): (r: seq<int>)
    ensures |r| == if lo < hi then hi - lo else 0
    ensures forall k | 0 <= k < |r| :: r[k] == lo + k
    decreases hi - lo
  {
    if lo >= hi then [] else [lo] + Range(lo + 1, hi)
  }
}
