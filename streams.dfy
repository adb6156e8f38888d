/** Finite-trace semantics of the Rx operators the converter is built from.

    A stream is modelled by its trace: the finite sequence of values it has
    emitted so far, oldest first. Two streams that run side by side are
    modelled by ONE tagged trace, `seq<Either<A, B>>`, whose order is the
    order in which their emissions arrived; `Lefts` and `Rights` project it
    back onto each source. Operators whose output depends on the latest value
    seen are defined by what they emit when one more value arrives at the end
    of the trace; `Scan` and `Reduce` thread an accumulator from the front, as
    Rx and JavaScript do. */
module Streams {

  datatype Option<T> = None | Some(value: T)

  datatype Either<A, B> = Left(left: A) | Right(right: B)

  function Last<T>(s: seq<T>): T
    requires s != []
  {
    s[|s| - 1]
  }

  function Init<T>(s: seq<T>): seq<T>
    requires s != []
  {
    s[..|s| - 1]
  }

  /** The latest value of a trace, if it has emitted at all. */
  function Latest<T>(s: seq<T>): (r: Option<T>)
    ensures r.None? <==> s == []
  {
    if s == [] then None else Some(Last(s))
  }

  function Min(a: nat, b: nat): nat
  {
    if a <= b then a else b
  }

  lemma InitOfSnoc<T>(s: seq<T>, x: T)
    ensures Init(s + [x]) == s && Last(s + [x]) == x
  {
    assert (s + [x])[..|s|] == s;
  }

  // ---------------------------------------------------------------- map, filter

  /** `s.map(f)`: one output per input, in the same order. */
  function Map<A, B>(s: seq<A>, f: A -> B): (r: seq<B>)
    ensures |r| == |s|
    ensures forall i :: 0 <= i < |s| ==> r[i] == f(s[i])
  {
    if s == [] then [] else Map(Init(s), f) + [f(Last(s))]
  }

  /** Mapping each value to an optional output and keeping the present ones:
      how a `merge` of several `.map`ped sources reads off ONE tagged trace of
      raw events (an event of a kind nobody listens to emits nothing). */
  function Collect<A, B>(s: seq<A>, f: A -> Option<B>): (r: seq<B>)
    ensures |r| <= |s|
  {
    if s == [] then []
    else
      var prev := Collect(Init(s), f);
      match f(Last(s))
      case Some(y) => prev + [y]
      case None => prev
  }

  lemma CollectSnoc<A, B>(s: seq<A>, x: A, f: A -> Option<B>)
    ensures Collect(s + [x], f) == Collect(s, f) + (if f(x).Some? then [f(x).value] else [])
  {
    InitOfSnoc(s, x);
  }

  // ------------------------------------------------------- merge and its projections

  /** The emissions of the left source of a merged trace, in order. */
  function Lefts<A, B>(es: seq<Either<A, B>>): (r: seq<A>)
    ensures |r| <= |es|
  {
    if es == [] then []
    else if Last(es).Left? then Lefts(Init(es)) + [Last(es).left]
    else Lefts(Init(es))
  }

  /** The emissions of the right source of a merged trace, in order. */
  function Rights<A, B>(es: seq<Either<A, B>>): (r: seq<B>)
    ensures |r| <= |es|
  {
    if es == [] then []
    else if Last(es).Right? then Rights(Init(es)) + [Last(es).right]
    else Rights(Init(es))
  }

  lemma ProjectSnoc<A, B>(es: seq<Either<A, B>>, e: Either<A, B>)
    ensures Lefts(es + [e]) == Lefts(es) + (if e.Left? then [e.left] else [])
    ensures Rights(es + [e]) == Rights(es) + (if e.Right? then [e.right] else [])
  {
    InitOfSnoc(es, e);
  }

  /** Projecting a concatenation projects each part. */
  lemma {:induction false} ProjectConcat<A, B>(a: seq<Either<A, B>>, b: seq<Either<A, B>>)
    ensures Lefts(a + b) == Lefts(a) + Lefts(b) && Rights(a + b) == Rights(a) + Rights(b)
  {
    if b == [] {
      assert a + b == a;
    } else {
      ProjectConcat(a, Init(b));
      assert a + b == (a + Init(b)) + [Last(b)];
      assert b == Init(b) + [Last(b)];
      ProjectSnoc(a + Init(b), Last(b));
      ProjectSnoc(Init(b), Last(b));
    }
  }

  /** Every emission of a merged trace comes from exactly one of its sources. */
  lemma {:induction false} MergeSplits<A, B>(es: seq<Either<A, B>>)
    ensures |Lefts(es)| + |Rights(es)| == |es|
  {
    if es != [] {
      MergeSplits(Init(es));
    }
  }

  /** `merge(left.map(f), right.map(g))`: every emission of either source,
      mapped, in arrival order. */
  function Merge<A, B, C>(es: seq<Either<A, B>>, f: A -> C, g: B -> C): (r: seq<C>)
    ensures |r| == |es|
    ensures forall i :: 0 <= i < |es| && es[i].Left? ==> r[i] == f(es[i].left)
    ensures forall i :: 0 <= i < |es| && es[i].Right? ==> r[i] == g(es[i].right)
  {
    if es == [] then []
    else
      var y := match Last(es) case Left(a) => f(a) case Right(b) => g(b);
      Merge(Init(es), f, g) + [y]
  }

  /** The same merged trace with its two sources exchanged. */
  function Swap<A, B>(es: seq<Either<A, B>>): (r: seq<Either<B, A>>)
    ensures |r| == |es|
    ensures forall i :: 0 <= i < |es| ==> r[i].Left? == es[i].Right?
  {
    if es == [] then []
    else
      var e := match Last(es) case Left(a) => Right(a) case Right(b) => Left(b);
      Swap(Init(es)) + [e]
  }

  lemma {:induction false} SwapProjections<A, B>(es: seq<Either<A, B>>)
    ensures Lefts(Swap(es)) == Rights(es) && Rights(Swap(es)) == Lefts(es)
  {
    if es != [] {
      SwapProjections(Init(es));
      InitOfSnoc(Swap(Init(es)), Last(Swap(es)));
    }
  }

  // ------------------------------------------------------------ reduce and scan

  /** `reduce(f, seed)`: fold the trace left to right, each step applied to
      the result of the previous one. */
  function Reduce<A, X>(acc: A, xs: seq<X>, f: (A, X) -> A): A
  {
    if xs == [] then acc else Reduce(f(acc, xs[0]), xs[1..], f)
  }

  /** Folding one more value at the end is one more step on the old result. */
  lemma {:induction false} ReduceSnoc<A, X>(acc: A, xs: seq<X>, x: X, f: (A, X) -> A)
    ensures Reduce(acc, xs + [x], f) == f(Reduce(acc, xs, f), x)
  {
    if xs != [] {
      assert (xs + [x])[1..] == xs[1..] + [x];
      ReduceSnoc(f(acc, xs[0]), xs[1..], x, f);
    }
  }

  /** `scan(f, seed)`: after each input, emit the running fold. */
  function Scan<A, X>(acc: A, xs: seq<X>, f: (A, X) -> A): (r: seq<A>)
    ensures |r| == |xs|
    ensures xs != [] ==> r[0] == f(acc, xs[0]) && Last(r) == Reduce(acc, xs, f)
  {
    if xs == [] then []
    else
      var next := f(acc, xs[0]);
      [next] + Scan(next, xs[1..], f)
  }

  /** Scanning one more value appends the fold of the whole trace. */
  lemma {:induction false} ScanSnoc<A, X>(acc: A, xs: seq<X>, x: X, f: (A, X) -> A)
    ensures Scan(acc, xs + [x], f) == Scan(acc, xs, f) + [f(Reduce(acc, xs, f), x)]
  {
    if xs == [] {
      assert (xs + [x])[1..] == [];
    } else {
      assert (xs + [x])[1..] == xs[1..] + [x];
      ScanSnoc(f(acc, xs[0]), xs[1..], x, f);
    }
  }

  /** The k-th emission of a scan is the fold of the first k+1 inputs, and
      each emission is one step from the one before. */
  lemma {:induction false} ScanIsPrefixFolds<A, X>(acc: A, xs: seq<X>, f: (A, X) -> A)
    ensures forall k :: 0 <= k < |xs| ==> Scan(acc, xs, f)[k] == Reduce(acc, xs[..k + 1], f)
    ensures forall k :: 0 < k < |xs| ==> Scan(acc, xs, f)[k] == f(Scan(acc, xs, f)[k - 1], xs[k])
  {
    if xs != [] {
      var next := f(acc, xs[0]);
      ScanIsPrefixFolds(next, xs[1..], f);
      forall k | 0 <= k < |xs|
        ensures Scan(acc, xs, f)[k] == Reduce(acc, xs[..k + 1], f)
      {
        assert xs[..k + 1][1..] == xs[1..][..k];
      }
      forall k | 0 < k < |xs|
        ensures Scan(acc, xs, f)[k] == f(Scan(acc, xs, f)[k - 1], xs[k])
      {
        if k > 1 {
          assert Scan(acc, xs, f)[k] == Scan(next, xs[1..], f)[k - 1];
        }
      }
    }
  }

  /** A scan on the left source of a merged trace, passing the right source
      through: what scanning one stream looks like from the merged order. */
  function ScanL<A, X, B>(acc: A, es: seq<Either<X, B>>, f: (A, X) -> A): (r: seq<Either<A, B>>)
    ensures |r| == |es|
  {
    if es == [] then []
    else
      var e := match Last(es) case Left(_) => Left(Reduce(acc, Lefts(es), f)) case Right(b) => Right(b);
      ScanL(acc, Init(es), f) + [e]
  }

  /** The scan on the left source does exactly what `Scan` does to that
      source alone and leaves the right source untouched. */
  lemma {:induction false} ScanLProjections<A, X, B>(acc: A, es: seq<Either<X, B>>, f: (A, X) -> A)
    ensures Lefts(ScanL(acc, es, f)) == Scan(acc, Lefts(es), f)
    ensures Rights(ScanL(acc, es, f)) == Rights(es)
  {
    if es != [] {
      var init, e := Init(es), Last(es);
      assert es == init + [e];
      ScanLProjections(acc, init, f);
      ProjectSnoc(init, e);
      var out := ScanL(acc, es, f);
      ProjectSnoc(ScanL(acc, init, f), Last(out));
      InitOfSnoc(ScanL(acc, init, f), Last(out));
      if e.Left? {
        ScanSnoc(acc, Lefts(init), e.left, f);
        ReduceSnoc(acc, Lefts(init), e.left, f);
      }
    }
  }

  // ----------------------------------------------------- distinctUntilChanged

  /** No value is immediately followed by an equal one. */
  ghost predicate NoStutter<T>(s: seq<T>)
  {
    forall i :: 0 <= i < |s| - 1 ==> s[i] != s[i + 1]
  }

  /** `distinctUntilChanged()`: an arriving value is emitted unless it equals
      the one that arrived just before it. */
  function DistinctUntilChanged<T(==)>(s: seq<T>): (r: seq<T>)
    ensures |r| <= |s|
    ensures r == [] <==> s == []
    ensures s != [] ==> r[0] == s[0] && Last(r) == Last(s)
    ensures NoStutter(r)
    ensures forall x :: x in r ==> x in s
  {
    if s == [] then []
    else
      var prev := DistinctUntilChanged(Init(s));
      if Init(s) != [] && Last(Init(s)) == Last(s) then prev else prev + [Last(s)]
  }

  /** Every value of the input survives somewhere in the output. */
  lemma {:induction false} DistinctKeepsValues<T>(s: seq<T>)
    ensures forall x :: x in s ==> x in DistinctUntilChanged(s)
  {
    if s != [] {
      DistinctKeepsValues(Init(s));
      assert s == Init(s) + [Last(s)];
    }
  }

  /** On a trace that already has no repeats, the operator changes nothing;
      in particular applying it twice is the same as applying it once. */
  lemma {:induction false} DistinctOfNoStutter<T>(s: seq<T>)
    requires NoStutter(s)
    ensures DistinctUntilChanged(s) == s
  {
    if s != [] {
      var init := Init(s);
      assert NoStutter(init);
      DistinctOfNoStutter(init);
      assert s == init + [Last(s)];
      if init != [] {
        assert Last(init) == s[|s| - 2];
      }
    }
  }

  /** `distinctUntilChanged` on the left source of a merged trace. */
  function DistinctL<A(==), B>(es: seq<Either<A, B>>): (r: seq<Either<A, B>>)
    ensures |r| <= |es|
  {
    if es == [] then []
    else
      var prev := DistinctL(Init(es));
      match Last(es)
      case Right(b) => prev + [Right(b)]
      case Left(a) =>
        var before := Lefts(Init(es));
        if before != [] && Last(before) == a then prev else prev + [Left(a)]
  }

  lemma {:induction false} DistinctLProjections<A, B>(es: seq<Either<A, B>>)
    ensures Lefts(DistinctL(es)) == DistinctUntilChanged(Lefts(es))
    ensures Rights(DistinctL(es)) == Rights(es)
  {
    if es != [] {
      var init, e := Init(es), Last(es);
      assert es == init + [e];
      DistinctLProjections(init);
      ProjectSnoc(init, e);
      var prev := DistinctL(init);
      if e.Right? {
        ProjectSnoc(prev, e);
      } else {
        ProjectSnoc(prev, e);
        InitOfSnoc(Lefts(init), e.left);
      }
    }
  }

  // --------------------------------------------- combineLatest, withLatestFrom

  /** `combineLatest(a$, b$, f)` over the merged trace of its two sources:
      once both have emitted, every arrival emits `f` of the latest value of
      each. */
  function CombineLatest2<A, B, C>(es: seq<Either<A, B>>, f: (A, B) -> C): (r: seq<C>)
    ensures |r| <= |es|
  {
    if es == [] then []
    else
      var prev := CombineLatest2(Init(es), f);
      if Lefts(es) != [] && Rights(es) != [] then prev + [f(Last(Lefts(es)), Last(Rights(es)))] else prev
  }

  /** Nothing is emitted until both sources have emitted. */
  lemma {:induction false} CombineLatest2Silent<A, B, C>(es: seq<Either<A, B>>, f: (A, B) -> C)
    ensures CombineLatest2(es, f) == [] <==> Lefts(es) == [] || Rights(es) == []
  {
    if es != [] {
      var init := Init(es);
      assert es == init + [Last(es)];
      ProjectSnoc(init, Last(es));
      CombineLatest2Silent(init, f);
    }
  }

  /** Once both sources have emitted, every later arrival of either one emits
      exactly one combined value. */
  lemma {:induction false} CombineLatest2Live<A, B, C>(es: seq<Either<A, B>>, more: seq<Either<A, B>>, f: (A, B) -> C)
    requires Lefts(es) != [] && Rights(es) != []
    ensures |CombineLatest2(es + more, f)| == |CombineLatest2(es, f)| + |more|
  {
    if more == [] {
      assert es + more == es;
    } else {
      var init := es + Init(more);
      assert es + more == init + [Last(more)];
      InitOfSnoc(init, Last(more));
      CombineLatest2Live(es, Init(more), f);
      CombineLatest2Grows(es, more);
    }
  }

  /** A source that has emitted stays emitted when the trace grows. */
  lemma {:induction false} CombineLatest2Grows<A, B>(es: seq<Either<A, B>>, more: seq<Either<A, B>>)
    ensures Lefts(es) != [] ==> Lefts(es + more) != []
    ensures Rights(es) != [] ==> Rights(es + more) != []
  {
    if more == [] {
      assert es + more == es;
    } else {
      assert es + more == (es + Init(more)) + [Last(more)];
      CombineLatest2Grows(es, Init(more));
      ProjectSnoc(es + Init(more), Last(more));
    }
  }

  /** `src$.withLatestFrom(other$, f)` over the merged trace (source on the
      left): each source emission that arrives after the other stream has
      emitted yields `f` of it and the other stream's latest value. */
  function WithLatestFrom<A, B, C>(es: seq<Either<A, B>>, f: (A, B) -> C): (r: seq<C>)
    ensures |r| <= |Lefts(es)|
  {
    if es == [] then []
    else
      var prev := WithLatestFrom(Init(es), f);
      var other := Rights(Init(es));
      if Last(es).Left? && other != [] then prev + [f(Last(es).left, Last(other))] else prev
  }

  /** When the other stream emits first, every source emission yields a value. */
  lemma {:induction false} WithLatestFromTotal<A, B, C>(es: seq<Either<A, B>>, f: (A, B) -> C)
    requires es != [] && es[0].Right?
    ensures |WithLatestFrom(es, f)| == |Lefts(es)|
  {
    if |es| > 1 {
      var init := Init(es);
      assert init[0] == es[0];
      WithLatestFromTotal(init, f);
      ProjectSnoc(init, Last(es));
      assert es == init + [Last(es)];
      assert Rights(init) != [] by {
        RightsOfRightHead(init);
      }
    } else {
      assert es == [] + [es[0]];
      ProjectSnoc([], es[0]);
    }
  }

  lemma {:induction false} RightsOfRightHead<A, B>(es: seq<Either<A, B>>)
    requires es != [] && es[0].Right?
    ensures Rights(es) != []
  {
    if |es| > 1 {
      assert Init(es)[0] == es[0];
      RightsOfRightHead(Init(es));
    }
  }
}
