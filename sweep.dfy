/** The sweep that both `countActive` functions make over the emitter list:
    react each emitter in turn, stop with -1 at the first reaction that
    returns -1, otherwise add up what the reactions returned. Stated over the
    sequence of reaction values, so that both scripts share it. */
module Sweep {

  function Sum(s: seq<int>): int
  {
    if s == [] then 0 else Sum(s[..|s| - 1]) + s[|s| - 1]
  }

  /** Index of the first reaction that returned the sentinel -1, or the
      length of the list when none did. */
  function FirstSentinel(vals: seq<int>): (k: nat)
    ensures k <= |vals|
    ensures forall j :: 0 <= j < k ==> vals[j] != -1
    ensures k < |vals| ==> vals[k] == -1
  {
    if vals == [] then 0
    else if vals[0] == -1 then 0
    else 1 + FirstSentinel(vals[1..])
  }

  /** What `countActive` returns when the reactions, in list order, return
      `vals`: -1 as soon as one of them does, the running sum otherwise. */
  function Outcome(vals: seq<int>): int
  {
    if FirstSentinel(vals) < |vals| then -1 else Sum(vals)
  }

  /** The statuses after a sweep that stopped at index `k`: the emitters
      before `k` hold their reacted status, `k` and later ones are untouched. */
  function Splice(reacted: seq<int>, untouched: seq<int>, k: nat): (s: seq<int>)
    requires |reacted| == |untouched| && k <= |untouched|
    ensures |s| == |untouched|
    ensures forall j :: 0 <= j < k ==> s[j] == reacted[j]
    ensures forall j :: k <= j < |s| ==> s[j] == untouched[j]
  {
    reacted[..k] + untouched[k..]
  }

  /** A sum of pointwise smaller terms is smaller. */
  lemma {:induction false} SumMonotone(a: seq<int>, b: seq<int>)
    requires |a| == |b|
    requires forall j :: 0 <= j < |a| ==> a[j] <= b[j]
    ensures Sum(a) <= Sum(b)
  {
    if a != [] {
      SumMonotone(a[..|a| - 1], b[..|b| - 1]);
    }
  }

  lemma {:induction false} SumNonNegative(s: seq<int>)
    requires forall j :: 0 <= j < |s| ==> s[j] >= 0
    ensures Sum(s) >= 0
  {
    if s != [] {
      SumNonNegative(s[..|s| - 1]);
    }
  }

  /** Extending the summed prefix by one term adds that term. */
  lemma SumPrefixStep(s: seq<int>, i: nat)
    requires i < |s|
    ensures Sum(s[..i + 1]) == Sum(s[..i]) + s[i]
  {
    assert s[..i + 1][..i] == s[..i];
  }

  /** A sum of 0/1 terms counts the ones, and so lies between 0 and the
      number of terms. */
  lemma {:induction false} SumOfBits(s: seq<int>)
    requires forall j :: 0 <= j < |s| ==> s[j] == 0 || s[j] == 1
    ensures Sum(s) == multiset(s)[1]
    ensures 0 <= Sum(s) <= |s|
  {
    if s != [] {
      var init := s[..|s| - 1];
      SumOfBits(init);
      assert s == init + [s[|s| - 1]];
      assert multiset(s) == multiset(init) + multiset{s[|s| - 1]};
    }
  }

  /** When no reaction can return less than -1, the sweep returns -1 exactly
      when some reaction returned -1; otherwise it returns a sum that is not
      negative. */
  lemma OutcomeSentinel(vals: seq<int>)
    requires forall j :: 0 <= j < |vals| ==> vals[j] >= -1
    ensures Outcome(vals) == -1 <==> exists j :: 0 <= j < |vals| && vals[j] == -1
    ensures Outcome(vals) != -1 ==> Outcome(vals) >= 0
  {
    var k := FirstSentinel(vals);
    if k == |vals| {
      SumNonNegative(vals);
    }
  }

  /** A sum of ones is the number of terms. */
  lemma {:induction false} SumOfOnes(s: seq<int>)
    requires forall j :: 0 <= j < |s| ==> s[j] == 1
    ensures Sum(s) == |s|
  {
    if s != [] {
      SumOfOnes(s[..|s| - 1]);
    }
  }

  /** A -1 anywhere makes the sweep return -1, having stopped there at the
      latest. */
  lemma {:induction false} OutcomeSentinelAt(vals: seq<int>, k: int)
    requires 0 <= k < |vals| && vals[k] == -1
    ensures FirstSentinel(vals) <= k
    ensures Outcome(vals) == -1
  {
    if vals[0] != -1 {
      OutcomeSentinelAt(vals[1..], k - 1);
    }
  }
}
