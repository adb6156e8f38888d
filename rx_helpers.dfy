/** The container helpers of rx-helpers.js.

    A container declares an ordered list of children, each a plain value or a
    live stream. The children are lifted to streams (`AsObservable`) and
    combined by latest value (`CombineLatest`), and every combination becomes
    one container snapshot. Which child's next value arrives next is decided
    by the runtime; here it is the `sched` parameter, a sequence of child
    indices, and `Interleave` turns the children's traces and that schedule
    into one tagged trace of emissions. `sink$` is the one imperative helper:
    a callback that pushes each event into a subject. */
module RxHelpers {
  import opened Streams

  /** A declared child: a plain value, or a stream given by its trace. */
  datatype Child<T> = Plain(value: T) | Live(trace: seq<T>)

  /** A virtual tree as built by `h(tagName, children)`. */
  datatype VTree = Text(text: string) | Element(tag: string, children: seq<VTree>)

  /** Child `index` emitted `value`. */
  datatype Emission<T> = Emission(index: nat, value: T)

  /** `asObservable`: a stream passes through, a plain value becomes a stream
      that emits it once. */
  function AsObservable<T>(c: Child<T>): seq<T>
  {
    match c
    case Plain(v) => [v]
    case Live(s) => s
  }

  /** How often child `i` is scheduled in `sched`. */
  function Count(sched: seq<nat>, i: nat): nat
  {
    if sched == [] then 0
    else Count(Init(sched), i) + (if Last(sched) == i then 1 else 0)
  }

  /** The values child `i` contributed to a tagged trace, in order. */
  function Project<T>(es: seq<Emission<T>>, i: nat): (r: seq<T>)
    ensures |r| <= |es|
  {
    if es == [] then []
    else if Last(es).index == i then Project(Init(es), i) + [Last(es).value]
    else Project(Init(es), i)
  }

  lemma ProjectOfSnoc<T>(es: seq<Emission<T>>, e: Emission<T>, i: nat)
    ensures Project(es + [e], i) == Project(es, i) + (if e.index == i then [e.value] else [])
  {
    InitOfSnoc(es, e);
  }

  /** The tagged trace the children produce when their emissions arrive in
      the order `sched`; a scheduled child that has no value left emits
      nothing. */
  function Interleave<T>(traces: seq<seq<T>>, sched: seq<nat>): (r: seq<Emission<T>>)
    ensures forall k :: 0 <= k < |r| ==> r[k].index < |traces|
  {
    if sched == [] then []
    else
      var prev := Interleave(traces, Init(sched));
      var i := Last(sched);
      var k := Count(Init(sched), i);
      if i < |traces| && k < |traces[i]| then prev + [Emission(i, traces[i][k])] else prev
  }

  /** Each child's part of the interleaving is its own trace, in its own
      order, as far as the schedule got. */
  lemma {:induction false} InterleaveProjects<T>(traces: seq<seq<T>>, sched: seq<nat>)
    ensures forall i :: 0 <= i < |traces| ==>
      Project(Interleave(traces, sched), i) == traces[i][..Min(Count(sched, i), |traces[i]|)]
  {
    if sched != [] {
      var init, j := Init(sched), Last(sched);
      InterleaveProjects(traces, init);
      var prev := Interleave(traces, init);
      forall i | 0 <= i < |traces|
        ensures Project(Interleave(traces, sched), i) == traces[i][..Min(Count(sched, i), |traces[i]|)]
      {
        var c := Count(init, j);
        if j < |traces| && c < |traces[j]| {
          ProjectOfSnoc(prev, Emission(j, traces[j][c]), i);
          if i == j {
            assert traces[i][..c] + [traces[i][c]] == traces[i][..c + 1];
          }
        }
      }
    }
  }

  /** What `asObservable` means inside a combination: a plain child
      contributes its value once, when first scheduled; a stream child passes
      its own values through unchanged. */
  lemma LiftedChildren<T>(children: seq<Child<T>>, sched: seq<nat>)
    ensures var es := Interleave(Map(children, AsObservable), sched);
      forall i :: 0 <= i < |children| ==>
        (children[i].Plain? ==> Project(es, i) == if Count(sched, i) == 0 then [] else [children[i].value]) &&
        (children[i].Live? ==> Project(es, i) == children[i].trace[..Min(Count(sched, i), |children[i].trace|)])
  {
    InterleaveProjects(Map(children, AsObservable), sched);
  }

  // ---------------------------------------------------------- combineLatest

  /** Every one of the first `n` children has emitted. */
  predicate AllEmitted<T>(n: nat, es: seq<Emission<T>>)
  {
    forall i :: 0 <= i < n ==> Project(es, i) != []
  }

  /** The latest value of each of the first `n` children. */
  function LatestValues<T>(n: nat, es: seq<Emission<T>>): (r: seq<T>)
    requires AllEmitted(n, es)
    ensures |r| == n
    ensures forall i :: 0 <= i < n ==> Latest(Project(es, i)) == Some(r[i])
  {
    seq(n, i requires 0 <= i < n && Project(es, i) != [] => Last(Project(es, i)))
  }

  /** `combineLatest` of `n` streams over their tagged trace: once all of
      them have emitted, every arrival emits the list of latest values. */
  function CombineLatest<T>(n: nat, es: seq<Emission<T>>): (r: seq<seq<T>>)
    ensures |r| <= |es|
    ensures forall k :: 0 <= k < |r| ==> |r[k]| == n
  {
    if es == [] then []
    else
      var prev := CombineLatest(n, Init(es));
      if Last(es).index < n && AllEmitted(n, es) then prev + [LatestValues(n, es)] else prev
  }

  /** One more arrival emits at most one list, and that list holds, at each
      position i, the latest value of child i. */
  lemma CombineLatestStep<T>(n: nat, es: seq<Emission<T>>, e: Emission<T>)
    ensures var r, r' := CombineLatest(n, es), CombineLatest(n, es + [e]);
      if e.index < n && AllEmitted(n, es + [e]) then
        |r'| == |r| + 1 && r'[..|r|] == r &&
        forall i :: 0 <= i < n ==> Latest(Project(es + [e], i)) == Some(Last(r')[i])
      else r' == r
  {
    InitOfSnoc(es, e);
  }

  /** With no streams, `combineLatest` never emits: the defect the
      empty-list case of `SequenceCombine` works around. */
  lemma {:induction false} CombineLatestOfNone<T>(es: seq<Emission<T>>)
    ensures CombineLatest(0, es) == []
  {
    if es != [] {
      CombineLatestOfNone(Init(es));
    }
  }

  /** Nothing is emitted while some child has not emitted yet. */
  lemma {:induction false} CombineLatestWaits<T>(n: nat, es: seq<Emission<T>>, i: nat)
    requires i < n && Project(es, i) == []
    ensures CombineLatest(n, es) == []
  {
    if es != [] {
      assert es == Init(es) + [Last(es)];
      ProjectOfSnoc(Init(es), Last(es), i);
      CombineLatestWaits(n, Init(es), i);
    }
  }

  /** Every value in every emitted list was emitted by the child at its
      position. */
  lemma {:induction false} CombineLatestValues<T>(n: nat, es: seq<Emission<T>>)
    ensures forall k, i :: 0 <= k < |CombineLatest(n, es)| && 0 <= i < n ==>
      CombineLatest(n, es)[k][i] in Project(es, i)
  {
    if es != [] {
      var init, e := Init(es), Last(es);
      assert es == init + [e];
      CombineLatestValues(n, init);
      forall i | 0 <= i < n
        ensures forall x :: x in Project(init, i) ==> x in Project(es, i)
      {
        ProjectOfSnoc(init, e, i);
      }
    }
  }

  /** `sequenceCombine$`: an empty child list emits the empty list once;
      otherwise the children are lifted and combined by latest value. */
  function SequenceCombine<T>(children: seq<Child<T>>, sched: seq<nat>): (r: seq<seq<T>>)
    ensures forall k :: 0 <= k < |r| ==> |r[k]| == |children|
  {
    if |children| == 0 then [[]]
    else CombineLatest(|children|, Interleave(Map(children, AsObservable), sched))
  }

  /** The empty case emits exactly one empty list, where combining no
      streams at all would never emit. */
  lemma EmptyCombinationEmitsOnce<T>(sched: seq<nat>)
    ensures SequenceCombine<T>([], sched) == [[]]
    ensures CombineLatest(0, Interleave(Map<Child<T>, seq<T>>([], AsObservable), sched)) == []
  {
    CombineLatestOfNone(Interleave(Map<Child<T>, seq<T>>([], AsObservable), sched));
  }

  /** A non-empty combination emits nothing until every child has emitted:
      here, child `i` is never scheduled or is a stream that has not emitted. */
  lemma SequenceCombineWaits<T>(children: seq<Child<T>>, sched: seq<nat>, i: nat)
    requires i < |children|
    requires Count(sched, i) == 0 || children[i] == Live([])
    ensures SequenceCombine(children, sched) == []
  {
    LiftedChildren(children, sched);
    CombineLatestWaits(|children|, Interleave(Map(children, AsObservable), sched), i);
  }

  /** Each combined emission lists, at position i, a value of child i. */
  lemma SequenceCombineValues<T>(children: seq<Child<T>>, sched: seq<nat>)
    ensures forall k, i :: 0 <= k < |SequenceCombine(children, sched)| && 0 <= i < |children| ==>
      SequenceCombine(children, sched)[k][i] in AsObservable(children[i])
  {
    if children != [] {
      var traces := Map(children, AsObservable);
      var es := Interleave(traces, sched);
      CombineLatestValues(|children|, es);
      InterleaveProjects(traces, sched);
      forall k, i | 0 <= k < |SequenceCombine(children, sched)| && 0 <= i < |children|
        ensures SequenceCombine(children, sched)[k][i] in AsObservable(children[i])
      {
        var x := SequenceCombine(children, sched)[k][i];
        assert x in traces[i][..Min(Count(sched, i), |traces[i]|)];
      }
    }
  }

  /** One more scheduled arrival, on a non-empty child list. If child `j`
      still has a value to deliver and afterwards every child has emitted,
      exactly one list is appended, the earlier lists stay, and position i
      of the new list is the latest value child i has delivered: its
      `Count`-th value, capped by the length of its trace. Otherwise nothing
      is appended. */
  lemma SequenceCombineStep<T>(children: seq<Child<T>>, sched: seq<nat>, j: nat)
    requires children != []
    ensures var r, r' := SequenceCombine(children, sched), SequenceCombine(children, sched + [j]);
      if j < |children| && Count(sched, j) < |AsObservable(children[j])| &&
         forall i :: 0 <= i < |children| ==> Min(Count(sched + [j], i), |AsObservable(children[i])|) > 0
      then
        |r'| == |r| + 1 && r'[..|r|] == r &&
        forall i :: 0 <= i < |children| ==>
          Last(r')[i] == AsObservable(children[i])[Min(Count(sched + [j], i), |AsObservable(children[i])|) - 1]
      else r' == r
  {
    var n := |children|;
    var traces := Map(children, AsObservable);
    var sched' := sched + [j];
    InitOfSnoc(sched, j);
    var es := Interleave(traces, sched);
    var es' := Interleave(traces, sched');
    InterleaveProjects(traces, sched');
    if j < n && Count(sched, j) < |traces[j]| {
      var e := Emission(j, traces[j][Count(sched, j)]);
      assert es' == es + [e];
      CombineLatestStep(n, es, e);
      if forall i :: 0 <= i < n ==> Min(Count(sched', i), |traces[i]|) > 0 {
        assert AllEmitted(n, es');
      } else {
        var i :| 0 <= i < n && Min(Count(sched', i), |traces[i]|) == 0;
        assert Project(es', i) == [];
      }
    } else {
      assert es' == es;
    }
  }

  /** A child list of plain values only, each scheduled at least once,
      emits exactly one list: the values themselves, in order. */
  lemma SequenceCombineAllPlain<T>(children: seq<Child<T>>, sched: seq<nat>)
    requires forall i :: 0 <= i < |children| ==> children[i].Plain? && Count(sched, i) > 0
    ensures |SequenceCombine(children, sched)| == 1
    ensures forall i :: 0 <= i < |children| ==> SequenceCombine(children, sched)[0][i] == children[i].value
  {
    if children != [] {
      var n := |children|;
      var es := Interleave(Map(children, AsObservable), sched);
      LiftedChildren(children, sched);
      assert AllEmitted(n, es);
      assert es != [] by {
        assert Project(es, 0) != [];
      }
      var init, e := Init(es), Last(es);
      assert es == init + [e];
      assert e.index < n;
      ProjectOfSnoc(init, e, e.index);
      assert Project(init, e.index) == [];
      CombineLatestWaits(n, init, e.index);
      CombineLatestStep(n, init, e);
    }
  }

  /** `container$`: one node with the given tag per combined emission,
      its children exactly the combined values. */
  function Container(tag: string, children: seq<Child<VTree>>, sched: seq<nat>): (r: seq<VTree>)
    ensures |r| == |SequenceCombine(children, sched)|
    ensures forall k :: 0 <= k < |r| ==> r[k] == Element(tag, SequenceCombine(children, sched)[k])
    ensures forall k :: 0 <= k < |r| ==> r[k].Element? && r[k].tag == tag && |r[k].children| == |children|
  {
    Map(SequenceCombine(children, sched), views => Element(tag, views))
  }

  /** A container of plain children emits exactly one snapshot, with the
      children in their declared order; an empty container emits one node
      with no children. */
  lemma ContainerAllPlain(tag: string, children: seq<Child<VTree>>, sched: seq<nat>)
    requires forall i :: 0 <= i < |children| ==> children[i].Plain? && Count(sched, i) > 0
    ensures |Container(tag, children, sched)| == 1
    ensures var node := Container(tag, children, sched)[0];
      node.tag == tag && |node.children| == |children| &&
      forall i :: 0 <= i < |children| ==> node.children[i] == children[i].value
  {
    SequenceCombineAllPlain(children, sched);
  }

  // ------------------------------------------------------------------ sink$

  /** An `Rx.Subject`, seen through what has been pushed into it. */
  class Subject<T> {
    var emitted: seq<T>

    constructor ()
      ensures emitted == []
    {
      emitted := [];
    }

    /** `onNext`: emit one more value. */
    method OnNext(x: T)
      modifies this
      ensures emitted == old(emitted) + [x]
    {
      emitted := emitted + [x];
    }
  }

  /** `sink$(subject)`: the callback handed to the view, closed over its
      subject. */
  class Sink<T> {
    const subject: Subject<T>

    constructor (subject: Subject<T>)
      ensures this.subject == subject
    {
      this.subject := subject;
    }

    /** Each call forwards its event unchanged, as exactly one emission. */
    method Call(event: T)
      modifies subject
      ensures subject.emitted == old(subject.emitted) + [event]
    {
      subject.OnNext(event);
    }
  }
}
