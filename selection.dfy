/**
 * Order-preserving selections, the shape of JavaScript's `Array.prototype.filter`
 * (followed, for the parser's rows, by unwrapping what was kept).
 *
 * `pick` says of each element whether it is kept and, if so, what is kept.
 */
module Selection {
  import opened Wrappers

  /**
   * `kept` is the selection `pick` makes from `xs`: `idx` lists the positions
   * kept, in increasing order, `kept[j]` is what `pick` keeps at position
   * `idx[j]`, and a position is kept exactly when `pick` keeps something there.
   */
  ghost predicate Selects<T, U>(xs: seq<T>, kept: seq<U>, idx: seq<nat>, pick: T -> Option<U>) {
    && |idx| == |kept|
    && (forall j :: 0 <= j < |idx| ==> idx[j] < |xs| && pick(xs[idx[j]]) == Some(kept[j]))
    && (forall j, k :: 0 <= j < k < |idx| ==> idx[j] < idx[k])
    && (forall i :: 0 <= i < |xs| ==> (i in idx <==> pick(xs[i]).Some?))
  }

  /** A last element that is kept extends the selection by its position. */
  lemma SelectsKeep<T, U>(xs: seq<T>, kept: seq<U>, front: seq<nat>, pick: T -> Option<U>) returns (idx: seq<nat>)
    requires xs != [] && pick(xs[|xs| - 1]).Some?
    requires Selects(xs[..|xs| - 1], kept, front, pick)
    ensures idx == front + [|xs| - 1]
    ensures Selects(xs, kept + [pick(xs[|xs| - 1]).value], idx, pick)
  {
    var n := |xs| - 1;
    idx := front + [n];
    forall i | 0 <= i < |xs| ensures i in idx <==> pick(xs[i]).Some? {
      assert i in idx <==> i in front || i == n;
      if i < n { assert xs[..n][i] == xs[i]; }
    }
  }

  /** A last element that is dropped leaves the selection as it is. */
  lemma SelectsSkip<T, U>(xs: seq<T>, kept: seq<U>, front: seq<nat>, pick: T -> Option<U>) returns (idx: seq<nat>)
    requires xs != [] && pick(xs[|xs| - 1]).None?
    requires Selects(xs[..|xs| - 1], kept, front, pick)
    ensures idx == front
    ensures Selects(xs, kept, idx, pick)
  {
    var n := |xs| - 1;
    idx := front;
    forall i | 0 <= i < n ensures i in idx <==> pick(xs[i]).Some? {
      assert xs[..n][i] == xs[i];
    }
  }
}
