/** The incremental reconciler of rx-dom.js.

    The stream of view-tree snapshots, with the virtualized initial surface
    in front, is cut into overlapping windows of two; each full window is
    diffed and the diffs are applied one after the other to the target node.
    `virtualize`, `diff` and `patch` belong to foreign libraries and are
    parameters here: nothing is assumed about them. */
module RxDom {
  import opened Streams

  /** `bufferWithCount(2, 1)`: a window opens at every element and holds it
      and the next one; the last window holds only the last element. */
  function Windows<T>(s: seq<T>): (r: seq<seq<T>>)
    ensures |r| == |s|
    ensures forall i :: 0 <= i < |s| - 1 ==> r[i] == [s[i], s[i + 1]]
    ensures s != [] ==> Last(r) == [Last(s)]
  {
    seq(|s|, i requires 0 <= i < |s| => s[i..Min(i + 2, |s|)])
  }

  /** `filter(pair => pair.length == 2)`, with the window read as
      `[last, current]`. */
  function FullWindow<T>(w: seq<T>): Option<(T, T)>
  {
    if |w| == 2 then Some((w[0], w[1])) else None
  }

  /** The windows that pass the length filter. */
  function Pairs<T>(s: seq<T>): seq<(T, T)>
  {
    Collect(Windows(s), FullWindow)
  }

  /** Keeping only windows that are all kept is keeping every one. */
  lemma {:induction false} CollectAll<A, B>(s: seq<A>, f: A -> Option<B>)
    requires forall i :: 0 <= i < |s| ==> f(s[i]).Some?
    ensures |Collect(s, f)| == |s|
    ensures forall i :: 0 <= i < |s| ==> Collect(s, f)[i] == f(s[i]).value
  {
    if s != [] {
      CollectAll(Init(s), f);
    }
  }

  /** The windows that pass are exactly the overlapping consecutive pairs:
      n elements give n - 1 pairs, the second element of each pair is the
      first of the next, and the trailing partial window is dropped. */
  lemma {:induction false} PairsAreConsecutive<T>(s: seq<T>)
    ensures |Pairs(s)| == if s == [] then 0 else |s| - 1
    ensures forall i :: 0 <= i < |Pairs(s)| ==> Pairs(s)[i] == (s[i], s[i + 1])
    ensures forall i :: 0 <= i < |Pairs(s)| - 1 ==> Pairs(s)[i].1 == Pairs(s)[i + 1].0
  {
    if s != [] {
      var ws := Windows(s);
      var full := Init(ws);
      assert ws == full + [Last(ws)];
      var keep: seq<T> -> Option<(T, T)> := FullWindow;
      forall i | 0 <= i < |full|
        ensures keep(full[i]).Some? && keep(full[i]).value == (s[i], s[i + 1])
      {
        assert full[i] == [s[i], s[i + 1]];
      }
      CollectAll(full, keep);
      CollectSnoc(full, Last(ws), keep);
      var pairs := Pairs(s);
      assert forall i :: 0 <= i < |pairs| ==> pairs[i] == (s[i], s[i + 1]);
      forall i | 0 <= i < |pairs| - 1
        ensures pairs[i].1 == pairs[i + 1].0
      {
        assert pairs[i] == (s[i], s[i + 1]) && pairs[i + 1] == (s[i + 1], s[i + 2]);
      }
    }
  }

  /** One diff per pair, in order: `map(([last, current]) => diff(last, current))`. */
  function DiffAll<V, P>(pairs: seq<(V, V)>, diff: (V, V) -> P): (r: seq<P>)
    ensures |r| == |pairs|
    ensures forall k :: 0 <= k < |pairs| ==> r[k] == diff(pairs[k].0, pairs[k].1)
  {
    if pairs == [] then [] else DiffAll(Init(pairs), diff) + [diff(Last(pairs).0, Last(pairs).1)]
  }

  /** `applyAsPatches$`: diff every consecutive pair of snapshots and fold the
      diffs into the target node, left to right (`reduce`). Returns the final
      node and the diffs applied, in order. */
  method ApplyAsPatches<V, N, P>(trees: seq<V>, target: N, diff: (V, V) -> P, patch: (N, P) -> N)
    returns (out: N, applied: seq<P>)
    ensures |applied| == if trees == [] then 0 else |trees| - 1
    ensures forall k :: 0 <= k < |applied| ==> applied[k] == diff(trees[k], trees[k + 1])
    ensures out == Reduce(target, applied, patch)
    ensures |trees| <= 1 ==> out == target
  {
    var pairs := Pairs(trees);
    out, applied := target, [];
    var i := 0;
    while i < |pairs|
      invariant 0 <= i <= |pairs|
      invariant applied == DiffAll(pairs[..i], diff)
      invariant out == Reduce(target, applied, patch)
    {
      var (last, current) := pairs[i];
      var patches := diff(last, current);
      ReduceSnoc(target, applied, patches, patch);
      out := patch(out, patches);
      assert pairs[..i + 1] == pairs[..i] + [pairs[i]];
      InitOfSnoc(pairs[..i], pairs[i]);
      applied := applied + [patches];
      i := i + 1;
    }
    assert pairs[..i] == pairs;
    PairsAreConsecutive(trees);
  }

  /** `renderToDom`: the initial surface's own virtual tree is put in front
      of the snapshots, so the first diff compares it with the first real
      snapshot, and every snapshot after it yields exactly one diff. */
  method RenderToDom<V, N, P>(next: seq<V>, initialNode: N, virtualize: N -> V,
                              diff: (V, V) -> P, patch: (N, P) -> N)
    returns (out: N, applied: seq<P>)
    ensures |applied| == |next|
    ensures next != [] ==> applied[0] == diff(virtualize(initialNode), next[0])
    ensures forall k :: 0 < k < |next| ==> applied[k] == diff(next[k - 1], next[k])
    ensures out == Reduce(initialNode, applied, patch)
    ensures next == [] ==> out == initialNode
  {
    var trees := [virtualize(initialNode)] + next;
    out, applied := ApplyAsPatches(trees, initialNode, diff, patch);
    assert forall k :: 0 <= k < |next| ==> trees[k + 1] == next[k];
    assert forall k :: 0 < k < |next| ==> trees[k] == next[k - 1];
  }
}
