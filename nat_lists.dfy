/**
 * Lists of natural numbers: the values of a range of positions as a set, and
 * the absence of repeats, both as a recursive predicate and pair by pair.
 * Render ids and join keys are such lists.
 */
module NatLists {
  /** The values at positions `lo` up to (not including) `hi` of `s`, as a set. */
  function Between(s: seq<nat>, lo: nat, hi: nat): (r: set<nat>)
    requires lo <= hi <= |s|
    decreases hi - lo
  {
    if lo == hi then {} else Between(s, lo, hi - 1) + {s[hi - 1]}
  }

  /** Every value of the range is among the range's values... */
  lemma {:induction false} BetweenHas(s: seq<nat>, lo: nat, hi: nat)
    requires lo <= hi <= |s|
    ensures forall k :: lo <= k < hi ==> s[k] in Between(s, lo, hi)
    decreases hi - lo
  {
    if lo < hi {
      BetweenHas(s, lo, hi - 1);
    }
  }

  /** ...and a value found at no position of the range is not. */
  lemma {:induction false} BetweenLacks(s: seq<nat>, lo: nat, hi: nat, x: nat)
    requires lo <= hi <= |s|
    requires forall k :: lo <= k < hi ==> s[k] != x
    ensures x !in Between(s, lo, hi)
    decreases hi - lo
  {
    if lo < hi {
      BetweenLacks(s, lo, hi - 1, x);
    }
  }

  /** A range splits into two adjacent ranges. */
  lemma {:induction false} BetweenJoin(s: seq<nat>, lo: nat, mid: nat, hi: nat)
    requires lo <= mid <= hi <= |s|
    ensures Between(s, lo, hi) == Between(s, lo, mid) + Between(s, mid, hi)
    decreases hi - mid
  {
    if mid < hi {
      BetweenJoin(s, lo, mid, hi - 1);
    }
  }

  /** The values of `s`, as a set. */
  function Members(s: seq<nat>): (r: set<nat>)
  {
    Between(s, 0, |s|)
  }

  /** No value occurs twice among the first `hi` entries of `s`: each is absent from the part before it. */
  ghost predicate NoRepeatsUpTo(s: seq<nat>, hi: nat)
    requires hi <= |s|
  {
    hi == 0 || (s[hi - 1] !in Between(s, 0, hi - 1) && NoRepeatsUpTo(s, hi - 1))
  }

  /** No value occurs twice in `s`. */
  ghost predicate NoRepeats(s: seq<nat>)
  {
    NoRepeatsUpTo(s, |s|)
  }

  /** No repeats, pair by pair, in both directions. */
  lemma {:induction false} NoRepeatsUpToPairwise(s: seq<nat>, hi: nat)
    requires hi <= |s|
    ensures NoRepeatsUpTo(s, hi) <==> forall j, k :: 0 <= j < k < hi ==> s[j] != s[k]
  {
    if hi > 0 {
      NoRepeatsUpToPairwise(s, hi - 1);
      BetweenHas(s, 0, hi - 1);
      if forall j, k :: 0 <= j < k < hi ==> s[j] != s[k] {
        BetweenLacks(s, 0, hi - 1, s[hi - 1]);
      }
    }
  }

  lemma NoRepeatsPairwise(s: seq<nat>)
    ensures NoRepeats(s) <==> forall j, k :: 0 <= j < k < |s| ==> s[j] != s[k]
  {
    NoRepeatsUpToPairwise(s, |s|);
  }

  /** Without repeats, the value at position `k` is found at no other position. */
  lemma NoRepeatsAt(s: seq<nat>, k: nat)
    requires NoRepeats(s) && k < |s|
    ensures forall j :: 0 <= j < |s| && j != k ==> s[j] != s[k]
  {
    NoRepeatsPairwise(s);
    forall j | 0 <= j < |s| && j != k
      ensures s[j] != s[k]
    {
      if j > k {
        assert s[k] != s[j];
      }
    }
  }
}
