/** The first-match search over product-ion combinations: sizes are tried
    in ascending order, the combinations of one size in the enumerator's
    order, and the search stops at the first combination whose exclusion
    score map is non-empty.

    The combination enumerator and the exclusion score calculator are not
    part of this model; both are parameters. `Enumerate(k, ions)` is the
    sequence of combinations the enumerator yields for size k over the
    candidate ions, `Score(combination, matrix)` is what awaiting the
    scoring task of that combination yields: its score map, or the
    exception the task failed with. */
module ProductIonScanner {
  import opened JavaLang

  /** The outcome of a scoring task that lets the search continue: the
      calculator answered, with an empty map. */
  predicate Quiet<I, V>(outcome: Result<map<set<I>, V>>) {
    outcome.Ok? && |outcome.value| == 0
  }

  /** Every candidate combination in the order the search visits them: each
      size from k to maxK ascending, each size in enumeration order. */
  function Candidates<I>(enumerate: (int, set<I>) -> seq<set<I>>, ions: set<I>, k: int, maxK: int): seq<set<I>>
    decreases maxK - k
  {
    if k > maxK then [] else enumerate(k, ions) + Candidates(enumerate, ions, k + 1, maxK)
  }

  /** The first-match policy over a sequence of candidates: the outcome of
      the first candidate whose outcome is not quiet, or the empty map. */
  function FirstMatch<I, P, V>(candidates: seq<set<I>>, matrix: map<I, map<P, int>>,
                               score: (set<I>, map<I, map<P, int>>) -> Result<map<set<I>, V>>): Result<map<set<I>, V>>
  {
    if candidates == [] then Ok(map[])
    else
      var outcome := score(candidates[0], matrix);
      if Quiet(outcome) then FirstMatch(candidates[1..], matrix, score) else outcome
  }

  /** All combinations the enumerator yields for size k score quiet. */
  ghost predicate SizeQuiet<I, P, V>(enumerate: (int, set<I>) -> seq<set<I>>, ions: set<I>, k: int,
                                     matrix: map<I, map<P, int>>,
                                     score: (set<I>, map<I, map<P, int>>) -> Result<map<set<I>, V>>)
  {
    forall c :: c in enumerate(k, ions) ==> Quiet(score(c, matrix))
  }

  /** getUniqueProductIonCombinations. Each scoring task is awaited before
      the next combination is taken, so the tasks are plain calls here. The
      ghost `scored` lists the combinations handed to the calculator, in
      the order they were handed over. */
  method GetUniqueProductIonCombinations<I, P, V>(
      matrix: map<I, map<P, int>>, minK: int, maxK: int,
      enumerate: (int, set<I>) -> seq<set<I>>,
      score: (set<I>, map<I, map<P, int>>) -> Result<map<set<I>, V>>)
    returns (r: Result<map<set<I>, V>>, ghost scored: seq<set<I>>)
    ensures r == FirstMatch(Candidates(enumerate, matrix.Keys, minK, maxK), matrix, score)
    ensures minK > maxK ==> r == Ok(map[]) && scored == []
    ensures scored <= Candidates(enumerate, matrix.Keys, minK, maxK)
    ensures forall j :: 0 <= j < |scored| - 1 ==> Quiet(score(scored[j], matrix))
    ensures !Quiet(r) ==> |scored| > 0 && score(scored[|scored| - 1], matrix) == r
    ensures Quiet(r) ==> r == Ok(map[]) && scored == Candidates(enumerate, matrix.Keys, minK, maxK)
                         && forall j :: 0 <= j < |scored| ==> Quiet(score(scored[j], matrix))
  {
    var retVal: Result<map<set<I>, V>> := Ok(map[]);
    var ions := matrix.Keys;
    scored := [];
    var k := minK;
    while k <= maxK
      invariant k == minK || minK <= k <= maxK + 1
      invariant scored == Candidates(enumerate, ions, minK, k - 1)
      invariant forall j :: 0 <= j < |scored| ==> Quiet(score(scored[j], matrix))
      decreases maxK - k
    {
      var combinations := enumerate(k, ions);
      var result, n := ScanSize(combinations, matrix, score);
      if !Quiet(result) {
        HitIsFirstMatch(enumerate, ions, minK, k, maxK, n, matrix, score);
        scored := scored + combinations[..n + 1];
        return result, scored;
      }
      AppendSize(enumerate, ions, minK, k);
      assert forall j :: 0 <= j < |combinations| ==> Quiet(score(combinations[j], matrix));
      scored := scored + combinations;
      k := k + 1;
    }
    AllQuietIsEmpty(scored, matrix, score);
    r := retVal;
  }

  /** The inner loop of the search: the combinations of one size, scored in
      enumeration order until one is not quiet. `n` is the number of quiet
      combinations scored before it (all of them when none breaks the
      loop). */
  method ScanSize<I, P, V>(combinations: seq<set<I>>, matrix: map<I, map<P, int>>,
                           score: (set<I>, map<I, map<P, int>>) -> Result<map<set<I>, V>>)
    returns (result: Result<map<set<I>, V>>, ghost n: nat)
    ensures n <= |combinations|
    ensures forall j :: 0 <= j < n ==> Quiet(score(combinations[j], matrix))
    ensures n < |combinations| ==> !Quiet(result) && result == score(combinations[n], matrix)
    ensures n == |combinations| ==> result == Ok(map[])
    ensures result == FirstMatch(combinations, matrix, score)
  {
    var i := 0;
    while i < |combinations|
      invariant 0 <= i <= |combinations|
      invariant forall j :: 0 <= j < i ==> Quiet(score(combinations[j], matrix))
      invariant FirstMatch(combinations, matrix, score) == FirstMatch(combinations[i..], matrix, score)
    {
      var outcome := score(combinations[i], matrix);
      assert combinations[i..][0] == combinations[i] && combinations[i..][1..] == combinations[i + 1..];
      if outcome.Err? || |outcome.value| > 0 {
        return outcome, i;
      }
      i := i + 1;
    }
    return Ok(map[]), i;
  }

  /** The candidates of sizes lo..hi are those of lo..mid-1 followed by
      those of mid..hi. */
  lemma {:induction false} SplitSizes<I>(enumerate: (int, set<I>) -> seq<set<I>>, ions: set<I>, lo: int, mid: int, hi: int)
    requires lo <= mid <= hi + 1
    ensures Candidates(enumerate, ions, lo, hi)
            == Candidates(enumerate, ions, lo, mid - 1) + Candidates(enumerate, ions, mid, hi)
    decreases mid - lo
  {
    if lo < mid {
      SplitSizes(enumerate, ions, lo + 1, mid, hi);
    }
  }

  /** A non-quiet outcome at position n of size k, preceded only by quiet
      outcomes, is the first match of the whole search, and the
      combinations up to it are the ones the search visits first. */
  lemma HitIsFirstMatch<I, P, V>(enumerate: (int, set<I>) -> seq<set<I>>, ions: set<I>,
                                 minK: int, k: int, maxK: int, n: nat,
                                 matrix: map<I, map<P, int>>,
                                 score: (set<I>, map<I, map<P, int>>) -> Result<map<set<I>, V>>)
    requires minK <= k <= maxK && n < |enumerate(k, ions)|
    requires var before := Candidates(enumerate, ions, minK, k - 1);
             forall j :: 0 <= j < |before| ==> Quiet(score(before[j], matrix))
    requires forall j :: 0 <= j < n ==> Quiet(score(enumerate(k, ions)[j], matrix))
    requires !Quiet(score(enumerate(k, ions)[n], matrix))
    ensures var visited := Candidates(enumerate, ions, minK, k - 1) + enumerate(k, ions)[..n + 1];
            && visited <= Candidates(enumerate, ions, minK, maxK)
            && visited[|visited| - 1] == enumerate(k, ions)[n]
            && (forall j :: 0 <= j < |visited| - 1 ==> Quiet(score(visited[j], matrix)))
            && FirstMatch(Candidates(enumerate, ions, minK, maxK), matrix, score) == score(enumerate(k, ions)[n], matrix)
  {
    var before := Candidates(enumerate, ions, minK, k - 1);
    var here := enumerate(k, ions);
    var quiet := before + here[..n];
    var tail := [here[n]] + (here[n + 1..] + Candidates(enumerate, ions, k + 1, maxK));
    CandidatesAround(enumerate, ions, minK, k, maxK, n);
    QuietPrefix(before, here, n, matrix, score);
    FirstMatchAppend(quiet, tail, matrix, score);
    assert tail[0] == here[n];
  }

  /** The candidates of the whole search cut around position n of size k:
      the earlier sizes and the first n combinations of size k, then
      combination n, then the rest. */
  lemma CandidatesAround<I>(enumerate: (int, set<I>) -> seq<set<I>>, ions: set<I>, minK: int, k: int, maxK: int, n: nat)
    requires minK <= k <= maxK && n < |enumerate(k, ions)|
    ensures var before, here := Candidates(enumerate, ions, minK, k - 1), enumerate(k, ions);
            Candidates(enumerate, ions, minK, maxK)
            == (before + here[..n]) + ([here[n]] + (here[n + 1..] + Candidates(enumerate, ions, k + 1, maxK)))
  {
    var before, here := Candidates(enumerate, ions, minK, k - 1), enumerate(k, ions);
    var rest := Candidates(enumerate, ions, k + 1, maxK);
    var front, back := here[..n], [here[n]] + here[n + 1..];
    calc {
      Candidates(enumerate, ions, minK, maxK);
    == { SplitSizes(enumerate, ions, minK, k, maxK); }
      before + (here + rest);
    == { assert here == front + back; }
      before + ((front + back) + rest);
    == { SeqAssociates(front, back, rest); }
      before + (front + (back + rest));
    == { SeqAssociates(before, front, back + rest); }
      (before + front) + (back + rest);
    == { SeqAssociates([here[n]], here[n + 1..], rest); }
      (before + front) + ([here[n]] + (here[n + 1..] + rest));
    }
  }

  /** Concatenation is associative. */
  lemma SeqAssociates<T>(a: seq<T>, b: seq<T>, c: seq<T>)
    ensures (a + b) + c == a + (b + c)
  {
  }

  /** Quiet earlier candidates followed by n quiet combinations are all
      quiet. */
  lemma QuietPrefix<I, P, V>(before: seq<set<I>>, here: seq<set<I>>, n: nat, matrix: map<I, map<P, int>>,
                             score: (set<I>, map<I, map<P, int>>) -> Result<map<set<I>, V>>)
    requires n <= |here|
    requires forall j :: 0 <= j < |before| ==> Quiet(score(before[j], matrix))
    requires forall j :: 0 <= j < n ==> Quiet(score(here[j], matrix))
    ensures forall j :: 0 <= j < |before + here[..n]| ==> Quiet(score((before + here[..n])[j], matrix))
  {
    var quiet := before + here[..n];
    forall j | 0 <= j < |quiet| ensures Quiet(score(quiet[j], matrix)) {
      if j >= |before| { assert quiet[j] == here[j - |before|]; }
    }
  }

  /** Candidates that are all quiet have the empty map as first match. */
  lemma {:induction false} AllQuietIsEmpty<I, P, V>(candidates: seq<set<I>>, matrix: map<I, map<P, int>>,
                                                    score: (set<I>, map<I, map<P, int>>) -> Result<map<set<I>, V>>)
    requires forall j :: 0 <= j < |candidates| ==> Quiet(score(candidates[j], matrix))
    ensures FirstMatch(candidates, matrix, score) == Ok(map[])
  {
    if candidates != [] {
      assert Quiet(score(candidates[0], matrix));
      forall j | 0 <= j < |candidates[1..]| ensures Quiet(score(candidates[1..][j], matrix)) {
        assert candidates[1..][j] == candidates[j + 1];
      }
      AllQuietIsEmpty(candidates[1..], matrix, score);
    }
  }

  /** Adding size k to the sizes minK..k-1 appends k's combinations. */
  lemma {:induction false} AppendSize<I>(enumerate: (int, set<I>) -> seq<set<I>>, ions: set<I>, minK: int, k: int)
    requires minK <= k
    ensures Candidates(enumerate, ions, minK, k) == Candidates(enumerate, ions, minK, k - 1) + enumerate(k, ions)
    decreases k - minK
  {
    if minK < k {
      AppendSize(enumerate, ions, minK + 1, k);
    }
  }

  /** First match over a concatenation: the first part decides unless it is
      quiet throughout. */
  lemma {:induction false} FirstMatchAppend<I, P, V>(xs: seq<set<I>>, ys: seq<set<I>>, matrix: map<I, map<P, int>>,
                                                     score: (set<I>, map<I, map<P, int>>) -> Result<map<set<I>, V>>)
    ensures (forall j :: 0 <= j < |xs| ==> Quiet(score(xs[j], matrix))) ==>
              FirstMatch(xs + ys, matrix, score) == FirstMatch(ys, matrix, score)
    ensures (exists j :: 0 <= j < |xs| && !Quiet(score(xs[j], matrix))) ==>
              FirstMatch(xs + ys, matrix, score) == FirstMatch(xs, matrix, score)
  {
    if xs != [] {
      assert (xs + ys)[0] == xs[0] && (xs + ys)[1..] == xs[1..] + ys;
      FirstMatchAppend(xs[1..], ys, matrix, score);
      if exists j :: 0 <= j < |xs| && !Quiet(score(xs[j], matrix)) {
        var j :| 0 <= j < |xs| && !Quiet(score(xs[j], matrix));
        if j > 0 { assert xs[1..][j - 1] == xs[j]; }
      }
      assert (forall j :: 0 <= j < |xs| ==> Quiet(score(xs[j], matrix))) ==>
               (forall j :: 0 <= j < |xs[1..]| ==> Quiet(score(xs[1..][j], matrix))) by {
        if forall j :: 0 <= j < |xs| ==> Quiet(score(xs[j], matrix)) {
          forall j | 0 <= j < |xs[1..]| ensures Quiet(score(xs[1..][j], matrix)) {
            assert xs[1..][j] == xs[j + 1];
          }
        }
      }
    } else {
      assert xs + ys == ys;
    }
  }

  /** What the first-match policy returns, stated by position: a result that
      is not quiet (a non-empty map or a failure) is exactly the outcome of
      a candidate all of whose predecessors were quiet; a quiet result means
      every candidate was quiet and is the empty map. */
  lemma {:induction false} FirstMatchByPosition<I, P, V>(candidates: seq<set<I>>, matrix: map<I, map<P, int>>,
                                                         score: (set<I>, map<I, map<P, int>>) -> Result<map<set<I>, V>>)
    ensures var r := FirstMatch(candidates, matrix, score);
            !Quiet(r) <==> exists j :: 0 <= j < |candidates| && score(candidates[j], matrix) == r && !Quiet(r)
                                       && forall i :: 0 <= i < j ==> Quiet(score(candidates[i], matrix))
    ensures var r := FirstMatch(candidates, matrix, score);
            Quiet(r) <==> r == Ok(map[]) && forall i :: 0 <= i < |candidates| ==> Quiet(score(candidates[i], matrix))
  {
    if candidates != [] {
      var tail := candidates[1..];
      FirstMatchByPosition(tail, matrix, score);
      var r := FirstMatch(candidates, matrix, score);
      if Quiet(score(candidates[0], matrix)) {
        assert r == FirstMatch(tail, matrix, score);
        if !Quiet(r) {
          var j :| 0 <= j < |tail| && score(tail[j], matrix) == r && !Quiet(r)
                   && forall i :: 0 <= i < j ==> Quiet(score(tail[i], matrix));
          assert score(candidates[j + 1], matrix) == r;
          forall i | 0 <= i < j + 1 ensures Quiet(score(candidates[i], matrix)) {
            if i > 0 { assert candidates[i] == tail[i - 1]; }
          }
        } else {
          forall i | 0 <= i < |candidates| ensures Quiet(score(candidates[i], matrix)) {
            if i > 0 { assert candidates[i] == tail[i - 1]; }
          }
        }
        assert (forall i :: 0 <= i < |candidates| ==> Quiet(score(candidates[i], matrix))) ==>
                 (forall i :: 0 <= i < |tail| ==> Quiet(score(tail[i], matrix))) by {
          if forall i :: 0 <= i < |candidates| ==> Quiet(score(candidates[i], matrix)) {
            forall i | 0 <= i < |tail| ensures Quiet(score(tail[i], matrix)) {
              assert tail[i] == candidates[i + 1];
            }
          }
        }
        if exists j :: 0 <= j < |candidates| && score(candidates[j], matrix) == r && !Quiet(r)
                       && forall i :: 0 <= i < j ==> Quiet(score(candidates[i], matrix)) {
          var j :| 0 <= j < |candidates| && score(candidates[j], matrix) == r && !Quiet(r)
                   && forall i :: 0 <= i < j ==> Quiet(score(candidates[i], matrix));
          assert j > 0;
          assert score(tail[j - 1], matrix) == r;
          forall i | 0 <= i < j - 1 ensures Quiet(score(tail[i], matrix)) {
            assert tail[i] == candidates[i + 1];
          }
        }
      } else {
        assert r == score(candidates[0], matrix);
        assert !(forall i :: 0 <= i < |candidates| ==> Quiet(score(candidates[i], matrix)));
      }
    }
  }

  /** Minimality: a result that is not quiet comes from some size k of the
      range, at some position i of that size's enumeration; every
      combination of every smaller size of the range scored quiet, and so
      did the combinations before position i. */
  lemma {:induction false} FirstMatchIsMinimal<I, P, V>(
      enumerate: (int, set<I>) -> seq<set<I>>, ions: set<I>, minK: int, maxK: int,
      matrix: map<I, map<P, int>>, score: (set<I>, map<I, map<P, int>>) -> Result<map<set<I>, V>>)
    requires !Quiet(FirstMatch(Candidates(enumerate, ions, minK, maxK), matrix, score))
    ensures exists k, i :: minK <= k <= maxK && 0 <= i < |enumerate(k, ions)|
              && score(enumerate(k, ions)[i], matrix) == FirstMatch(Candidates(enumerate, ions, minK, maxK), matrix, score)
              && (forall k' :: minK <= k' < k ==> SizeQuiet(enumerate, ions, k', matrix, score))
              && (forall i' :: 0 <= i' < i ==> Quiet(score(enumerate(k, ions)[i'], matrix)))
    decreases maxK - minK
  {
    var r := FirstMatch(Candidates(enumerate, ions, minK, maxK), matrix, score);
    var first := enumerate(minK, ions);
    var later := Candidates(enumerate, ions, minK + 1, maxK);
    assert minK <= maxK;
    FirstMatchAppend(first, later, matrix, score);
    if forall j :: 0 <= j < |first| ==> Quiet(score(first[j], matrix)) {
      assert r == FirstMatch(later, matrix, score);
      FirstMatchIsMinimal(enumerate, ions, minK + 1, maxK, matrix, score);
      var k, i :| minK + 1 <= k <= maxK && 0 <= i < |enumerate(k, ions)|
                  && score(enumerate(k, ions)[i], matrix) == r
                  && (forall k' :: minK + 1 <= k' < k ==> SizeQuiet(enumerate, ions, k', matrix, score))
                  && (forall i' :: 0 <= i' < i ==> Quiet(score(enumerate(k, ions)[i'], matrix)));
      assert SizeQuiet(enumerate, ions, minK, matrix, score);
      assert forall k' :: minK <= k' < k ==> SizeQuiet(enumerate, ions, k', matrix, score);
    } else {
      assert r == FirstMatch(first, matrix, score);
      FirstMatchByPosition(first, matrix, score);
      var i :| 0 <= i < |first| && score(first[i], matrix) == r && !Quiet(r)
               && forall i' :: 0 <= i' < i ==> Quiet(score(first[i'], matrix));
      assert minK <= minK <= maxK;
    }
  }

  /** A search none of whose sizes has a combination that scores anything
      but quiet finds nothing: the result is the empty map. */
  lemma {:induction false} AllQuietGivesEmpty<I, P, V>(
      enumerate: (int, set<I>) -> seq<set<I>>, ions: set<I>, minK: int, maxK: int,
      matrix: map<I, map<P, int>>, score: (set<I>, map<I, map<P, int>>) -> Result<map<set<I>, V>>)
    requires forall k :: minK <= k <= maxK ==> SizeQuiet(enumerate, ions, k, matrix, score)
    ensures FirstMatch(Candidates(enumerate, ions, minK, maxK), matrix, score) == Ok(map[])
    decreases maxK - minK
  {
    if minK <= maxK {
      var first := enumerate(minK, ions);
      assert SizeQuiet(enumerate, ions, minK, matrix, score);
      assert forall j :: 0 <= j < |first| ==> first[j] in first;
      FirstMatchAppend(first, Candidates(enumerate, ions, minK + 1, maxK), matrix, score);
      AllQuietGivesEmpty(enumerate, ions, minK + 1, maxK, matrix, score);
    }
  }
}
