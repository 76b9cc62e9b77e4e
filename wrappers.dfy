/** Option and Result values for the operations that can fail, and the
    in-order concatenation of a sequence of results. */
module Wrappers {

  datatype Option<+T> = None | Some(value: T)

  /** A computation that either succeeds with a value or raises an exception. */
  datatype Result<+T, +E> = Ok(value: T) | Err(error: E)

  /** The results concatenated in order; the first failing result decides the error. */
  function Flatten<T, E>(rs: seq<Result<seq<T>, E>>): Result<seq<T>, E>
    decreases |rs|
  {
    if rs == [] then Ok([])
    else
      match Flatten(rs[..|rs| - 1])
      case Err(e) => Err(e)
      case Ok(before) =>
        match rs[|rs| - 1]
        case Err(e) => Err(e)
        case Ok(xs) => Ok(before + xs)
  }

  /** Once a prefix fails, every longer prefix fails the same way. */
  lemma {:induction false} FlattenErrSticks<T, E>(rs: seq<Result<seq<T>, E>>, k: nat)
    requires k <= |rs| && Flatten(rs[..k]).Err?
    ensures Flatten(rs) == Flatten(rs[..k])
    decreases |rs| - k
  {
    if k < |rs| {
      assert rs[..k + 1][..k] == rs[..k];
      FlattenErrSticks(rs, k + 1);
    } else {
      assert rs[..k] == rs;
    }
  }

  /** One more result: a success appends its values, a failure decides the whole. */
  lemma FlattenStep<T, E>(rs: seq<Result<seq<T>, E>>, i: nat, before: seq<T>)
    requires i < |rs| && Flatten(rs[..i]) == Ok(before)
    ensures rs[i].Ok? ==> Flatten(rs[..i + 1]) == Ok(before + rs[i].value)
    ensures rs[i] == Ok([]) ==> Flatten(rs[..i + 1]) == Ok(before)
    ensures rs[i].Err? ==> Flatten(rs) == rs[i]
  {
    assert rs[..i + 1][..i] == rs[..i];
    assert before + [] == before;
    if rs[i].Err? {
      FlattenErrSticks(rs, i + 1);
    }
  }

  /** The concatenation succeeds iff every result does. */
  lemma {:induction false} FlattenOk<T, E>(rs: seq<Result<seq<T>, E>>)
    ensures Flatten(rs).Ok? <==> forall k | 0 <= k < |rs| :: rs[k].Ok?
    decreases |rs|
  {
    if rs != [] {
      var init := rs[..|rs| - 1];
      FlattenOk(init);
      assert forall k | 0 <= k < |init| :: init[k] == rs[k];
    }
  }

  /** An element is in the concatenation iff some result holds it. */
  lemma {:induction false} FlattenMembers<T, E>(rs: seq<Result<seq<T>, E>>)
    requires Flatten(rs).Ok?
    ensures forall x :: x in Flatten(rs).value <==> exists k | 0 <= k < |rs| :: rs[k].Ok? && x in rs[k].value
    decreases |rs|
  {
    if rs != [] {
      var last := |rs| - 1;
      var init := rs[..last];
      FlattenMembers(init);
      var before, xs := Flatten(init).value, rs[last].value;
      assert Flatten(rs).value == before + xs;
      forall x
        ensures x in before + xs <==> exists k | 0 <= k < |rs| :: rs[k].Ok? && x in rs[k].value
      {
        if x in before {
          var k :| 0 <= k < |init| && init[k].Ok? && x in init[k].value;
          assert init[k] == rs[k];
        } else if x !in xs {
          forall k | 0 <= k < last ensures !(rs[k].Ok? && x in rs[k].value) {
            assert init[k] == rs[k];
          }
        }
      }
    }
  }

  /** A failed concatenation reports the first failing result. */
  lemma {:induction false} FlattenErr<T, E>(rs: seq<Result<seq<T>, E>>)
    requires Flatten(rs).Err?
    ensures exists k | 0 <= k < |rs| ::
      && rs[k] == Err(Flatten(rs).error)
      && forall j | 0 <= j < k :: rs[j].Ok?
    decreases |rs|
  {
    var init := rs[..|rs| - 1];
    assert forall k | 0 <= k < |init| :: init[k] == rs[k];
    if Flatten(init).Err? {
      FlattenErr(init);
    } else {
      FlattenOk(init);
    }
  }

  /** Results of at most one element each concatenate to no more elements
      than there are results. */
  lemma {:induction false} FlattenAtMostOne<T, E>(rs: seq<Result<seq<T>, E>>)
    requires Flatten(rs).Ok?
    requires forall k | 0 <= k < |rs| :: rs[k].Ok? ==> |rs[k].value| <= 1
    ensures |Flatten(rs).value| <= |rs|
    decreases |rs|
  {
    if rs != [] {
      var init := rs[..|rs| - 1];
      assert forall k | 0 <= k < |init| :: init[k] == rs[k];
      FlattenAtMostOne(init);
    }
  }

  /** Results that all succeed empty concatenate to nothing. */
  lemma {:induction false} FlattenEmpty<T, E>(rs: seq<Result<seq<T>, E>>)
    requires forall k | 0 <= k < |rs| :: rs[k].Ok? && rs[k].value == []
    ensures Flatten(rs).Ok? && Flatten(rs).value == []
    decreases |rs|
  {
    if rs != [] {
      var init := rs[..|rs| - 1];
      assert forall k | 0 <= k < |init| :: init[k] == rs[k];
      FlattenEmpty(init);
      assert Flatten(rs).value == Flatten(init).value + rs[|rs| - 1].value;
    }
  }

  /** When every result holds at most one element, the concatenation picks
      the elements of the results that hold one, in order. */
  lemma {:induction false} FlattenPicks<T, E>(rs: seq<Result<seq<T>, E>>) returns (idx: seq<nat>)
    requires Flatten(rs).Ok?
    requires forall k | 0 <= k < |rs| :: rs[k].Ok? ==> |rs[k].value| <= 1
    ensures |idx| == |Flatten(rs).value|
    ensures forall j | 0 <= j < |idx| :: idx[j] < |rs| && rs[idx[j]] == Ok([Flatten(rs).value[j]])
    ensures forall j, j' | 0 <= j < j' < |idx| :: idx[j] < idx[j']
    ensures forall k | 0 <= k < |rs| :: k in idx <==> rs[k].Ok? && |rs[k].value| == 1
    decreases |rs|
  {
    if rs == [] {
      idx := [];
    } else {
      var last := |rs| - 1;
      var init := rs[..last];
      assert forall k | 0 <= k < |init| :: init[k] == rs[k];
      var before := FlattenPicks(init);
      var xs := rs[last].value;
      assert Flatten(rs).value == Flatten(init).value + xs;
      if |xs| == 1 {
        idx := before + [last];
        assert xs == [xs[0]];
      } else {
        assert xs == [];
        assert Flatten(init).value + xs == Flatten(init).value;
        idx := before;
      }
    }
  }
}
