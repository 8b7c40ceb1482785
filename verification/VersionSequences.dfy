/** Sequences of versions: what strictly increasing and gapless mean. */
module VersionSequences {

  ghost predicate Increasing(s: seq<nat>) {
    forall i, j :: 0 <= i < j < |s| ==> s[i] < s[j]
  }

  ghost predicate Between(s: seq<nat>, low: nat, high: nat) {
    forall i :: 0 <= i < |s| ==> low < s[i] <= high
  }

  /** low + 1, low + 2, ..., high */
  function Run(low: nat, high: nat): (s: seq<nat>)
    requires low <= high
    ensures |s| == high - low && forall i :: 0 <= i < |s| ==> s[i] == low + 1 + i
  {
    seq(high - low, i requires 0 <= i => low + 1 + i)
  }

  lemma {:induction false} IncreasingFrom(s: seq<nat>, low: nat, i: nat)
    requires Increasing(s) && i < |s| && forall j :: 0 <= j < |s| ==> low < s[j]
    ensures s[i] >= low + 1 + i
  {
    if i > 0 {
      IncreasingFrom(s, low, i - 1);
      assert s[i - 1] < s[i];
    }
  }

  lemma {:induction false} IncreasingTo(s: seq<nat>, high: nat, i: nat)
    requires Increasing(s) && i < |s| && forall j :: 0 <= j < |s| ==> s[j] <= high
    ensures s[i] + (|s| - 1 - i) <= high
    decreases |s| - i
  {
    if i + 1 < |s| {
      IncreasingTo(s, high, i + 1);
      assert s[i] < s[i + 1];
    }
  }

  /** Strictly increasing versions between the bounds have no gap exactly when
      there are as many of them as numbers between the bounds. */
  lemma GaplessIff(s: seq<nat>, low: nat, high: nat)
    requires low <= high && Increasing(s) && Between(s, low, high)
    ensures s == Run(low, high) <==> |s| == high - low
  {
    if |s| == high - low {
      forall i | 0 <= i < |s|
        ensures s[i] == Run(low, high)[i]
      {
        IncreasingFrom(s, low, i);
        IncreasingTo(s, high, i);
      }
    }
  }

  lemma IncreasingAppend(a: seq<nat>, b: seq<nat>, low: nat, mid: nat, high: nat)
    requires low <= mid <= high
    requires Increasing(a) && Between(a, low, mid) && Increasing(b) && Between(b, mid, high)
    ensures Increasing(a + b) && Between(a + b, low, high)
  {
    var s := a + b;
    forall i, j | 0 <= i < j < |s|
      ensures s[i] < s[j]
    {
      if i < |a| <= j {
        assert s[i] == a[i] && s[j] == b[j - |a|];
      }
    }
  }
}
