/** Sorting integer lists: a sorted list is fixed by its elements, and without repeats it is strictly increasing. */
module Sorting {

  predicate Ascending(s: seq<int>) { forall i :: 0 < i < |s| ==> s[i - 1] <= s[i] }

  predicate StrictlyIncreasing(s: seq<int>) { forall i, j :: 0 <= i < j < |s| ==> s[i] < s[j] }

  function Insert(x: int, s: seq<int>): (r: seq<int>)
    requires Ascending(s)
    ensures Ascending(r) && multiset(r) == multiset{x} + multiset(s)
    ensures r != [] && (r[0] == x || (s != [] && r[0] == s[0]))
  {
    if s == [] || x <= s[0] then [x] + s
    else
      assert s == [s[0]] + s[1..];
      [s[0]] + Insert(x, s[1..])
  }

  /** `sort_unstable`. */
  function Sort(s: seq<int>): (r: seq<int>)
    ensures Ascending(r) && multiset(r) == multiset(s)
  {
    if s == [] then []
    else
      assert s == [s[0]] + s[1..];
      Insert(s[0], Sort(s[1..]))
  }

  lemma MultisetOfSum(a: seq<int>, b: seq<int>, p: int)
    ensures multiset(a + b)[p] == multiset(a)[p] + multiset(b)[p]
  {
  }

  lemma {:induction false} StrictSteps(s: seq<int>, i: nat, j: nat)
    requires i < j < |s| && forall k :: 0 < k < |s| ==> s[k - 1] < s[k]
    ensures s[i] < s[j]
    decreases j
  {
    assert s[j - 1] < s[j];
    if i < j - 1 {
      StrictSteps(s, i, j - 1);
    }
  }

  /** A sorted list in which every element occurs once is strictly increasing. */
  lemma NoRepeats(s: seq<int>)
    requires Ascending(s) && forall p :: multiset(s)[p] <= 1
    ensures StrictlyIncreasing(s)
  {
    forall k | 0 < k < |s| ensures s[k - 1] < s[k] {
      assert s == s[..k] + s[k..];
      assert s[k - 1] in s[..k] && s[k] in s[k..];
      MultisetOfSum(s[..k], s[k..], s[k]);
    }
    forall i, j | 0 <= i < j < |s| ensures s[i] < s[j] {
      StrictSteps(s, i, j);
    }
  }
}
