/** The editor tester's query callback (EQS_Tester.OnQueryComplete): keep a copy
    of the delivered samples sorted by descending score, and remember the
    best-scoring valid one. */
module Tester {
  import QS = QuerySystem

  datatype Option<T> = None | Some(value: T)

  /** Non-increasing by score, the order `b.Score.CompareTo(a.Score)` asks for. */
  predicate SortedDescending(s: seq<QS.SamplePoint>)
  {
    forall k, l :: 0 <= k < l < |s| ==> s[k].score >= s[l].score
  }

  /** The position of the first valid sample, if any. */
  function FirstValid(s: seq<QS.SamplePoint>): (r: Option<nat>)
    ensures r.Some? ==> r.value < |s| && s[r.value].isValid && forall k :: 0 <= k < r.value ==> !s[k].isValid
    ensures r.None? ==> forall k :: 0 <= k < |s| ==> !s[k].isValid
  {
    if |s| == 0 then None
    else if s[0].isValid then Some(0)
    else match FirstValid(s[1..])
      case None => None
      case Some(i) => Some(i + 1)
  }

  /** The first valid entry of a descending arrangement of `res` is a valid sample
      of `res` that no valid sample of `res` outscores. */
  lemma {:induction false} FirstValidIsBest(res: seq<QS.SamplePoint>, sorted: seq<QS.SamplePoint>)
    requires multiset(sorted) == multiset(res) && SortedDescending(sorted)
    requires FirstValid(sorted).Some?
    ensures var best := sorted[FirstValid(sorted).value];
      best in res && best.isValid &&
      forall k :: 0 <= k < |res| && res[k].isValid ==> res[k].score <= best.score
  {
    var i := FirstValid(sorted).value;
    assert sorted[i] in multiset(sorted);
    forall k | 0 <= k < |res| && res[k].isValid
      ensures res[k].score <= sorted[i].score
    {
      assert res[k] in multiset(res);
      assert res[k] in sorted;
      var l :| 0 <= l < |sorted| && sorted[l] == res[k];
      assert i <= l;
    }
  }

  /** A rearrangement has a valid sample exactly when the original has one. */
  lemma ValidSurvivesRearrangement(res: seq<QS.SamplePoint>, sorted: seq<QS.SamplePoint>)
    requires multiset(sorted) == multiset(res)
    ensures FirstValid(sorted).Some? <==> FirstValid(res).Some?
  {
    if FirstValid(sorted).Some? {
      var i := FirstValid(sorted).value;
      assert sorted[i] in multiset(res);
      var k :| 0 <= k < |res| && res[k] == sorted[i];
    }
    if FirstValid(res).Some? {
      var i := FirstValid(res).value;
      assert res[i] in multiset(sorted);
      var k :| 0 <= k < |sorted| && sorted[k] == res[i];
    }
  }

  /** `Array.Sort(m_result, (a, b) => b.Score.CompareTo(a.Score))`: an in-place
      sort into non-increasing score order. The order of equal scores is not
      specified, as with the unstable sort it stands for. */
  method SortDescending(a: array<QS.SamplePoint>)
    modifies a
    ensures SortedDescending(a[..])
    ensures multiset(a[..]) == multiset(old(a[..]))
  {
    var i := 0;
    while i < a.Length
      invariant 0 <= i <= a.Length
      invariant SortedDescending(a[..i])
      invariant multiset(a[..]) == multiset(old(a[..]))
    {
      InsertAt(a, i);
      i := i + 1;
    }
    assert a[..a.Length] == a[..];
  }

  /** One insertion step: move a[i] left past every entry with a smaller score. */
  method InsertAt(a: array<QS.SamplePoint>, i: int)
    requires 0 <= i < a.Length && SortedDescending(a[..i])
    modifies a
    ensures SortedDescending(a[..i + 1])
    ensures multiset(a[..]) == multiset(old(a[..]))
  {
    var j := i;
    while j > 0 && a[j - 1].score < a[j].score
      invariant 0 <= j <= i
      invariant forall k, l :: 0 <= k < l <= i && k != j && l != j ==> a[k].score >= a[l].score
      invariant forall l :: j < l <= i ==> a[j].score > a[l].score
      invariant multiset(a[..]) == multiset(old(a[..]))
    {
      Swap(a, j - 1, j);
      j := j - 1;
    }
  }

  /** Exchange two entries; the array stays a permutation of itself. */
  method Swap(a: array<QS.SamplePoint>, i: int, j: int)
    requires 0 <= i < a.Length && 0 <= j < a.Length
    modifies a
    ensures a[..] == old(a[..])[i := old(a[j])][j := old(a[i])]
    ensures multiset(a[..]) == multiset(old(a[..]))
  {
    a[i], a[j] := a[j], a[i];
  }

  /** The tester's state: `m_result` (null until the first callback) and `m_bestResult`. */
  class Tester {
    var result: array?<QS.SamplePoint>
    var bestResult: QS.SamplePoint

    constructor ()
      ensures result == null && bestResult == QS.DefaultSample
    {
      result := null;
      bestResult := QS.DefaultSample;
    }

    /** OnQueryComplete: copy and sort the delivered array, then take its first
        valid entry as the best result. An empty array resets the best result;
        an array with no valid entry leaves the previous one in place. */
    method OnQueryComplete(res: seq<QS.SamplePoint>)
      modifies this
      ensures result != null && fresh(result)
      ensures multiset(result[..]) == multiset(res) && SortedDescending(result[..])
      ensures |res| == 0 ==> bestResult == QS.DefaultSample
      ensures FirstValid(result[..]).Some? ==> bestResult == result[FirstValid(result[..]).value]
      ensures |res| > 0 && FirstValid(res).None? ==> bestResult == old(bestResult)
      ensures FirstValid(res).Some? ==>
                bestResult in res && bestResult.isValid &&
                forall k :: 0 <= k < |res| && res[k].isValid ==> res[k].score <= bestResult.score
    {
      var copy := new QS.SamplePoint[|res|](k requires 0 <= k < |res| => res[k]);
      assert copy[..] == res;
      result := copy;
      if copy.Length > 0 {
        SortDescending(copy);
        ValidSurvivesRearrangement(res, copy[..]);
        if FirstValid(res).Some? {
          FirstValidIsBest(res, copy[..]);
        }
        var i := 0;
        while i < copy.Length
          invariant 0 <= i <= copy.Length
          invariant forall k :: 0 <= k < i ==> !copy[k].isValid
          invariant bestResult == old(bestResult)
        {
          if copy[i].isValid {
            bestResult := copy[i];
            break;
          }
          i := i + 1;
        }
      } else {
        bestResult := QS.DefaultSample;
      }
    }
  }
}
