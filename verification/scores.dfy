/** The scoring loop of minimax on its own: a left-to-right scan over the
    children's scores that keeps the best one under a strict comparison. */
module Scores {

  /** Stands in for `-float('inf')`: below every score a finished game has. */
  const NegInf: int := -2

  /** Stands in for `float('inf')`: above every score a finished game has. */
  const PosInf: int := 2

  /** The starting best score of the loop: -inf when maximising, +inf otherwise. */
  function Sentinel(maximizing: bool): int
  {
    if maximizing then NegInf else PosInf
  }

  /** The strict comparison of the loop: `>` when maximising, `<` otherwise. */
  predicate Improves(maximizing: bool, candidate: int, best: int)
  {
    if maximizing then candidate > best else candidate < best
  }

  /** One step of the loop: a candidate replaces the best only when strictly better. */
  function Pick(maximizing: bool, best: int, candidate: int): int
  {
    if Improves(maximizing, candidate, best) then candidate else best
  }

  /** The best score the loop is left with after scanning `vals` from the left. */
  function Fold(maximizing: bool, vals: seq<int>): int
  {
    if vals == [] then Sentinel(maximizing)
    else Pick(maximizing, Fold(maximizing, vals[..|vals| - 1]), vals[|vals| - 1])
  }

  /** Position `k` holds a best score, and every earlier position a strictly
      worse one: the position the loop's strict comparison settles on. */
  predicate IsFirstBestIndex(maximizing: bool, vals: seq<int>, k: int)
  {
    && 0 <= k < |vals|
    && (forall j :: 0 <= j < |vals| ==> !Improves(maximizing, vals[j], vals[k]))
    && (forall j :: 0 <= j < k ==> Improves(maximizing, vals[k], vals[j]))
  }

  /** When maximising the scan ends at least `s` iff some score is; when
      minimising, iff every score is. */
  lemma {:induction false} FoldAtLeast(maximizing: bool, vals: seq<int>, s: int)
    requires NegInf < s <= PosInf
    ensures maximizing ==> (Fold(maximizing, vals) >= s <==> exists i :: 0 <= i < |vals| && vals[i] >= s)
    ensures !maximizing ==> (Fold(maximizing, vals) >= s <==> forall i :: 0 <= i < |vals| ==> vals[i] >= s)
    decreases |vals|
  {
    if vals != [] {
      var pre := vals[..|vals| - 1];
      FoldAtLeast(maximizing, pre, s);
      assert forall i :: 0 <= i < |pre| ==> pre[i] == vals[i];
      if maximizing && Fold(maximizing, vals) >= s && vals[|vals| - 1] < s {
        var i :| 0 <= i < |pre| && pre[i] >= s;
        assert vals[i] >= s;
      }
      if !maximizing && Fold(maximizing, vals) < s && vals[|vals| - 1] >= s {
        var i :| 0 <= i < |pre| && pre[i] < s;
        assert vals[i] < s;
      }
    }
  }

  /** When maximising the scan ends at most `s` iff every score is; when
      minimising, iff some score is. */
  lemma {:induction false} FoldAtMost(maximizing: bool, vals: seq<int>, s: int)
    requires NegInf <= s < PosInf
    ensures maximizing ==> (Fold(maximizing, vals) <= s <==> forall i :: 0 <= i < |vals| ==> vals[i] <= s)
    ensures !maximizing ==> (Fold(maximizing, vals) <= s <==> exists i :: 0 <= i < |vals| && vals[i] <= s)
    decreases |vals|
  {
    if vals != [] {
      var pre := vals[..|vals| - 1];
      FoldAtMost(maximizing, pre, s);
      assert forall i :: 0 <= i < |pre| ==> pre[i] == vals[i];
      if !maximizing && Fold(maximizing, vals) <= s && vals[|vals| - 1] > s {
        var i :| 0 <= i < |pre| && pre[i] <= s;
        assert vals[i] <= s;
      }
      if maximizing && Fold(maximizing, vals) > s && vals[|vals| - 1] <= s {
        var i :| 0 <= i < |pre| && pre[i] > s;
        assert vals[i] > s;
      }
    }
  }

  /** Scanning at least one score in [-1, 1] never leaves an infinity behind. */
  lemma {:induction false} FoldRange(maximizing: bool, vals: seq<int>)
    requires vals != []
    requires forall i :: 0 <= i < |vals| ==> -1 <= vals[i] <= 1
    ensures -1 <= Fold(maximizing, vals) <= 1
    decreases |vals|
  {
    var pre := vals[..|vals| - 1];
    if pre != [] {
      assert forall i :: 0 <= i < |pre| ==> pre[i] == vals[i];
      FoldRange(maximizing, pre);
    }
  }

  /** Scanning one more score is one more step of the loop. */
  lemma FoldStep(maximizing: bool, vals: seq<int>, i: int)
    requires 0 <= i < |vals|
    ensures Fold(maximizing, vals[..i + 1]) == Pick(maximizing, Fold(maximizing, vals[..i]), vals[i])
  {
    assert vals[..i + 1][..i] == vals[..i];
  }

  /** No scanned score is strictly better than what the scan ends with. */
  lemma {:induction false} FoldIsBest(maximizing: bool, vals: seq<int>)
    ensures forall j :: 0 <= j < |vals| ==> !Improves(maximizing, vals[j], Fold(maximizing, vals))
    decreases |vals|
  {
    if vals != [] {
      var pre := vals[..|vals| - 1];
      FoldIsBest(maximizing, pre);
      assert forall j :: 0 <= j < |pre| ==> pre[j] == vals[j];
    }
  }

  /** A candidate that beats the scan of the first `i` scores beats each of them. */
  lemma BeatsScannedPrefix(maximizing: bool, vals: seq<int>, i: int, candidate: int)
    requires 0 <= i <= |vals|
    requires Improves(maximizing, candidate, Fold(maximizing, vals[..i]))
    ensures forall j :: 0 <= j < i ==> Improves(maximizing, candidate, vals[j])
  {
    FoldIsBest(maximizing, vals[..i]);
    assert forall j :: 0 <= j < i ==> vals[..i][j] == vals[j];
  }

  /** A position holding the scan's result and strictly beating every
      earlier score is the position the loop settles on. */
  lemma FoldPicksFirstBest(maximizing: bool, vals: seq<int>, k: int)
    requires 0 <= k < |vals|
    requires vals[k] == Fold(maximizing, vals)
    requires forall j :: 0 <= j < k ==> Improves(maximizing, vals[k], vals[j])
    ensures IsFirstBestIndex(maximizing, vals, k)
  {
    FoldIsBest(maximizing, vals);
  }

  /** At most one position is the first best one. */
  lemma FirstBestIndexIsUnique(maximizing: bool, vals: seq<int>, k1: int, k2: int)
    requires IsFirstBestIndex(maximizing, vals, k1)
    requires IsFirstBestIndex(maximizing, vals, k2)
    ensures k1 == k2
  {
    assert !Improves(maximizing, vals[k2], vals[k1]);
    assert !Improves(maximizing, vals[k1], vals[k2]);
  }
}
