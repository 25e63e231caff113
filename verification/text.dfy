/** Measuring and trimming runs of a character class at either end of a string. */
module Text {

  /** Every character of `s` is in the class `p`. */
  predicate All(p: char -> bool, s: string)
  {
    forall i :: 0 <= i < |s| ==> p(s[i])
  }

  lemma AllConcat(p: char -> bool, a: string, b: string)
    ensures All(p, a + b) <==> All(p, a) && All(p, b)
  {
    if All(p, a) && All(p, b) {
      forall i | 0 <= i < |a + b| ensures p((a + b)[i]) {
        if i >= |a| { assert (a + b)[i] == b[i - |a|]; }
      }
    }
    if All(p, a + b) {
      forall i | 0 <= i < |a| ensures p(a[i]) {
        assert (a + b)[i] == a[i];
      }
      forall i | 0 <= i < |b| ensures p(b[i]) {
        assert (a + b)[i + |a|] == b[i];
      }
    }
  }

  /** Length of the longest prefix of `s` drawn from `p`. */
  function LeadingRun(p: char -> bool, s: string): (n: nat)
    ensures n <= |s|
    ensures forall k :: 0 <= k < n ==> p(s[k])
    ensures n == |s| || !p(s[n])
  {
    if |s| > 0 && p(s[0]) then 1 + LeadingRun(p, s[1..]) else 0
  }

  /** Length of the longest suffix of `s` drawn from `p`. */
  function TrailingRun(p: char -> bool, s: string): (n: nat)
    ensures n <= |s|
    ensures forall k :: |s| - n <= k < |s| ==> p(s[k])
    ensures n == |s| || !p(s[|s| - n - 1])
  {
    if |s| > 0 && p(s[|s| - 1]) then 1 + TrailingRun(p, s[..|s| - 1]) else 0
  }

  /** The leading run is exactly the given prefix when what follows does not start in `p`. */
  lemma LeadingRunOf(p: char -> bool, pre: string, rest: string)
    requires All(p, pre)
    requires rest == [] || !p(rest[0])
    ensures LeadingRun(p, pre + rest) == |pre|
  {
    assert forall k :: 0 <= k < |pre| ==> (pre + rest)[k] == pre[k];
    assert |rest| > 0 ==> (pre + rest)[|pre|] == rest[0];
  }

  /** The trailing run is exactly the given suffix when what precedes does not end in `p`. */
  lemma TrailingRunOf(p: char -> bool, rest: string, post: string)
    requires All(p, post)
    requires rest == [] || !p(rest[|rest| - 1])
    ensures TrailingRun(p, rest + post) == |post|
  {
    assert forall k :: 0 <= k < |post| ==> (rest + post)[|rest| + k] == post[k];
    assert |rest| > 0 ==> (rest + post)[|rest| - 1] == rest[|rest| - 1];
  }
}
