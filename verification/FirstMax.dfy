/** The first of the highest scores in a list where some entries have none: the
    result of scanning left to right and replacing only on a strictly higher score.
 */
module FirstMax {
  import opened Sums

  /** Does a score replace the best so far? */
  predicate Beats(score: Option<real>, best: Option<real>) {
    score.Some? && (best.None? || score.value > best.value)
  }

  function BestIndex(scores: seq<Option<real>>): (r: Option<nat>)
    ensures r.Some? ==> r.value < |scores| && scores[r.value].Some?
  {
    if scores == [] then None
    else
      var n := |scores| - 1;
      var before := BestIndex(scores[..n]);
      if Beats(scores[n], if before.Some? then scores[before.value] else None) then Some(n) else before
  }

  predicate IsFirstMax(scores: seq<Option<real>>, i: nat) {
    && i < |scores| && scores[i].Some?
    && (forall j :: 0 <= j < |scores| && scores[j].Some? ==> scores[j].value <= scores[i].value)
    && (forall j :: 0 <= j < i && scores[j].Some? ==> scores[j].value < scores[i].value)
  }

  /** The scan ends at the first maximum, and without one exactly when nothing has a score. */
  lemma {:induction false} BestIndexIsFirstMax(scores: seq<Option<real>>)
    ensures BestIndex(scores).Some? ==> IsFirstMax(scores, BestIndex(scores).value)
    ensures BestIndex(scores).None? ==> forall j :: 0 <= j < |scores| ==> scores[j].None?
    decreases |scores|
  {
    if scores != [] {
      var n := |scores| - 1;
      var front := scores[..n];
      BestIndexIsFirstMax(front);
      assert forall j :: 0 <= j < n ==> scores[j] == front[j];
    }
  }

  /** The scores agree wherever either reaches the cut. */
  predicate AgreeFrom(cut: real, fast: seq<Option<real>>, slow: seq<Option<real>>) {
    && |fast| == |slow|
    && forall j :: 0 <= j < |fast| ==>
         fast[j] == slow[j] || ((fast[j].Some? ==> fast[j].value < cut) && (slow[j].Some? ==> slow[j].value < cut))
  }

  predicate Reaches(scores: seq<Option<real>>, cut: real) {
    BestIndex(scores).Some? && scores[BestIndex(scores).value].value >= cut
  }

  /** Two scans that agree from the cut upwards report the same first maximum, or both nothing. */
  lemma {:induction false} AgreeingScansReportAlike(cut: real, fast: seq<Option<real>>, slow: seq<Option<real>>)
    requires AgreeFrom(cut, fast, slow)
    ensures Reaches(fast, cut) <==> Reaches(slow, cut)
    ensures Reaches(fast, cut) ==>
              BestIndex(fast) == BestIndex(slow) && fast[BestIndex(fast).value] == slow[BestIndex(slow).value]
  {
    BestIndexIsFirstMax(fast);
    BestIndexIsFirstMax(slow);
    if Reaches(fast, cut) {
      OneSide(cut, fast, slow);
    } else if Reaches(slow, cut) {
      OneSide(cut, slow, fast);
    }
  }

  lemma {:induction false} OneSide(cut: real, a: seq<Option<real>>, b: seq<Option<real>>)
    requires AgreeFrom(cut, a, b) && Reaches(a, cut)
    requires IsFirstMax(a, BestIndex(a).value)
    requires BestIndex(b).Some? ==> IsFirstMax(b, BestIndex(b).value)
    requires BestIndex(b).None? ==> forall j :: 0 <= j < |b| ==> b[j].None?
    ensures BestIndex(b) == BestIndex(a) && b[BestIndex(a).value] == a[BestIndex(a).value]
  {
  }
}
