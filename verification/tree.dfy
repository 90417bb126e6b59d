/** Game trees in the abstract: a finished game is a leaf carrying its score
    from X's point of view, an unfinished one a node with one child per
    legal move. Minimax is defined and studied here once, independently of
    how the positions look. */
module GameTrees {
  import opened Scores

  datatype Tree = Leaf(score: int) | Node(children: seq<Tree>)

  /** The value the minimax recursion gives a tree, with the strict left fold
      of its loop at every node. `maximizing` says whether X is to move. */
  function Value(t: Tree, maximizing: bool): int
    decreases t, 1
  {
    match t
    case Leaf(v) => v
    case Node(cs) => Fold(maximizing, ChildValues(cs, maximizing))
  }

  /** The values of the children, scored with the other side to move. */
  function ChildValues(cs: seq<Tree>, maximizing: bool): (r: seq<int>)
    ensures |r| == |cs|
    decreases cs, 0
  {
    seq(|cs|, i requires 0 <= i < |cs| => Value(cs[i], !maximizing))
  }

  /** A tree that a real game produces: every leaf scores -1, 0 or 1 and
      every unfinished position has at least one move. */
  predicate Proper(t: Tree)
  {
    match t
    case Leaf(v) => -1 <= v <= 1
    case Node(cs) => cs != [] && forall i :: 0 <= i < |cs| ==> Proper(cs[i])
  }

  /** X can force a finish scoring at least `s`, whatever the other side does.
      Stated by the rules of play alone, with no scores on unfinished positions. */
  predicate XCanSecure(t: Tree, xToMove: bool, s: int)
  {
    match t
    case Leaf(v) => v >= s
    case Node(cs) =>
      if xToMove then exists i :: 0 <= i < |cs| && XCanSecure(cs[i], !xToMove, s)
      else forall i :: 0 <= i < |cs| ==> XCanSecure(cs[i], !xToMove, s)
  }

  /** The other side can force a finish scoring at most `s`, whatever X does. */
  predicate OCanSecure(t: Tree, xToMove: bool, s: int)
  {
    match t
    case Leaf(v) => v <= s
    case Node(cs) =>
      if xToMove then forall i :: 0 <= i < |cs| ==> OCanSecure(cs[i], !xToMove, s)
      else exists i :: 0 <= i < |cs| && OCanSecure(cs[i], !xToMove, s)
  }

  /** On a proper tree the infinities that start the fold never escape. */
  lemma {:induction false} ValueRange(t: Tree, maximizing: bool)
    requires Proper(t)
    ensures -1 <= Value(t, maximizing) <= 1
    decreases t
  {
    if t.Node? {
      var vals := ChildValues(t.children, maximizing);
      forall i | 0 <= i < |t.children|
        ensures -1 <= vals[i] <= 1
      {
        ValueRange(t.children[i], !maximizing);
      }
      FoldRange(maximizing, vals);
    }
  }

  /** The minimax value is at least `s` exactly when X can force at least `s`. */
  lemma {:induction false} ValueAtLeastIffXSecures(t: Tree, maximizing: bool, s: int)
    requires -1 <= s <= 1
    ensures Value(t, maximizing) >= s <==> XCanSecure(t, maximizing, s)
    decreases t
  {
    if t.Node? {
      var vals := ChildValues(t.children, maximizing);
      FoldAtLeast(maximizing, vals, s);
      forall i | 0 <= i < |t.children|
        ensures vals[i] >= s <==> XCanSecure(t.children[i], !maximizing, s)
      {
        ValueAtLeastIffXSecures(t.children[i], !maximizing, s);
      }
    }
  }

  /** The minimax value is at most `s` exactly when the other side can force at most `s`. */
  lemma {:induction false} ValueAtMostIffOSecures(t: Tree, maximizing: bool, s: int)
    requires -1 <= s <= 1
    ensures Value(t, maximizing) <= s <==> OCanSecure(t, maximizing, s)
    decreases t
  {
    if t.Node? {
      var vals := ChildValues(t.children, maximizing);
      FoldAtMost(maximizing, vals, s);
      forall i | 0 <= i < |t.children|
        ensures vals[i] <= s <==> OCanSecure(t.children[i], !maximizing, s)
      {
        ValueAtMostIffOSecures(t.children[i], !maximizing, s);
      }
    }
  }

  /** On a proper tree the minimax value is the value of the game: each side
      can force it, and by the two lemmas above neither can force better. */
  lemma ValueIsGameValue(t: Tree, maximizing: bool)
    requires Proper(t)
    ensures XCanSecure(t, maximizing, Value(t, maximizing))
    ensures OCanSecure(t, maximizing, Value(t, maximizing))
    ensures forall s :: Value(t, maximizing) < s <= 1 ==> !XCanSecure(t, maximizing, s)
    ensures forall s :: -1 <= s < Value(t, maximizing) ==> !OCanSecure(t, maximizing, s)
  {
    var v := Value(t, maximizing);
    ValueRange(t, maximizing);
    ValueAtLeastIffXSecures(t, maximizing, v);
    ValueAtMostIffOSecures(t, maximizing, v);
    forall s | v < s <= 1
      ensures !XCanSecure(t, maximizing, s)
    {
      ValueAtLeastIffXSecures(t, maximizing, s);
    }
    forall s | -1 <= s < v
      ensures !OCanSecure(t, maximizing, s)
    {
      ValueAtMostIffOSecures(t, maximizing, s);
    }
  }

  /** Child `k` is the one the strict tie-break settles on at node `cs`. */
  predicate IsFirstBestChild(cs: seq<Tree>, maximizing: bool, k: int)
  {
    IsFirstBestIndex(maximizing, ChildValues(cs, maximizing), k)
  }

  /** The child the tie-break settles on is an optimal move: every bound any
      other child lets the mover force, it forces too. */
  lemma FirstBestIsOptimal(cs: seq<Tree>, maximizing: bool, k: int, j: int, s: int)
    requires IsFirstBestChild(cs, maximizing, k)
    requires 0 <= j < |cs|
    requires -1 <= s <= 1
    ensures maximizing && XCanSecure(cs[j], !maximizing, s) ==> XCanSecure(cs[k], !maximizing, s)
    ensures !maximizing && OCanSecure(cs[j], !maximizing, s) ==> OCanSecure(cs[k], !maximizing, s)
  {
    var vals := ChildValues(cs, maximizing);
    assert !Improves(maximizing, vals[j], vals[k]);
    ValueAtLeastIffXSecures(cs[j], !maximizing, s);
    ValueAtLeastIffXSecures(cs[k], !maximizing, s);
    ValueAtMostIffOSecures(cs[j], !maximizing, s);
    ValueAtMostIffOSecures(cs[k], !maximizing, s);
  }
}
