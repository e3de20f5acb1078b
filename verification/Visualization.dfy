/** What the visualization of a check computes from the partial linearizations that the search recorded. */
module Visualization {
  import opened Linearizability
  import opened Search
  import opened Checker
  import Parallel

  datatype HistoryElement = HistoryElement(clientId: int, start: int, end: int, description: string)

  datatype LinearizationStep = LinearizationStep(index: int, stateDescription: string)

  /** `largest` maps an id to the position in `linearizations` of its largest one. */
  datatype PartitionData = PartitionData(
    history: seq<HistoryElement>, linearizations: seq<seq<LinearizationStep>>, largest: map<int, int>)

  /** The functions of the model that only describe. */
  datatype Descriptions<!S, !I, !O> = Descriptions(operation: (I, O) -> string, state: S -> string)

  // ---------- collecting the recorded partial linearizations ----------

  /** The distinct sequences among the recorded ones, in whatever order. */
  method CollectPartials(longest: Longest) returns (partials: seq<seq<int>>)
    ensures Distinct(partials)
    ensures forall p :: p in partials <==> Some(p) in longest
  {
    partials := [];
    for k := 0 to |longest|
      invariant Distinct(partials)
      invariant forall p :: p in partials <==> Some(p) in longest[..k]
    {
      var v := longest[k];
      assert longest[..k + 1] == longest[..k] + [v];
      if v.Some? && v.value !in partials {
        partials := partials + [v.value];
      }
    }
    assert longest[..|longest|] == longest;
  }

  // ---------- the history ----------

  /** Element `id` shows the operation `id`. */
  ghost predicate Shows<S, I, O>(h: History<I, O>, d: Descriptions<S, I, O>, id: int, e: HistoryElement)
    requires WellFormed(h) && IsId(h, id)
  {
    var c, r := h[CallPos(h, id)], h[ReturnPos(h, id)];
    e == HistoryElement(c.clientId, c.time, r.time, d.operation(c.input, r.output))
  }

  /** What has been filled in for `id` from the entries before `k`. */
  ghost predicate ShownUpTo<S, I, O>(h: History<I, O>, d: Descriptions<S, I, O>, k: int, id: int, e: HistoryElement)
    requires WellFormed(h) && IsId(h, id)
  {
    && (CallPos(h, id) < k ==> e.clientId == h[CallPos(h, id)].clientId && e.start == h[CallPos(h, id)].time)
    && (ReturnPos(h, id) < k ==>
         e.end == h[ReturnPos(h, id)].time && e.description == d.operation(InputOf(h, id), OutputOf(h, id)))
  }

  /** The values of the operations whose entry is before `k`. */
  ghost predicate ValuesUpTo<I, O>(h: History<I, O>, k: int, callValue: map<int, I>, returnValue: map<int, O>)
    requires WellFormed(h)
  {
    && (forall id :: IsId(h, id) && CallPos(h, id) < k ==> id in callValue && callValue[id] == InputOf(h, id))
    && (forall id :: IsId(h, id) && ReturnPos(h, id) < k ==> id in returnValue && returnValue[id] == OutputOf(h, id))
  }

  lemma ShownOther<S, I, O>(h: History<I, O>, d: Descriptions<S, I, O>, k: int, id: int, e: HistoryElement)
    requires WellFormed(h) && IsId(h, id) && 0 <= k < |h| && h[k].id != id && ShownUpTo(h, d, k, id, e)
    ensures ShownUpTo(h, d, k + 1, id, e)
  {
  }

  lemma ShownCall<S, I, O>(h: History<I, O>, d: Descriptions<S, I, O>, k: int, e: HistoryElement)
    requires WellFormed(h) && 0 <= k < |h| && h[k].CallEntry? && IsId(h, h[k].id) && ShownUpTo(h, d, k, h[k].id, e)
    ensures ShownUpTo(h, d, k + 1, h[k].id, e.(clientId := h[k].clientId, start := h[k].time))
  {
    PositionsUnique(h, k);
  }

  lemma ShownReturn<S, I, O>(h: History<I, O>, d: Descriptions<S, I, O>, k: int, e: HistoryElement)
    requires WellFormed(h) && 0 <= k < |h| && h[k].ReturnEntry? && IsId(h, h[k].id) && ShownUpTo(h, d, k, h[k].id, e)
    ensures ShownUpTo(h, d, k + 1, h[k].id,
                      e.(end := h[k].time, description := d.operation(InputOf(h, h[k].id), h[k].output)))
  {
    PositionsUnique(h, k);
  }

  lemma ValuesCall<I, O>(h: History<I, O>, k: int, callValue: map<int, I>, returnValue: map<int, O>)
    requires WellFormed(h) && 0 <= k < |h| && h[k].CallEntry? && ValuesUpTo(h, k, callValue, returnValue)
    ensures ValuesUpTo(h, k + 1, callValue[h[k].id := h[k].input], returnValue)
  {
    PositionsUnique(h, k);
  }

  lemma ValuesReturn<I, O>(h: History<I, O>, k: int, callValue: map<int, I>, returnValue: map<int, O>)
    requires WellFormed(h) && 0 <= k < |h| && h[k].ReturnEntry? && ValuesUpTo(h, k, callValue, returnValue)
    ensures ValuesUpTo(h, k + 1, callValue, returnValue[h[k].id := h[k].output])
  {
    PositionsUnique(h, k);
  }

  lemma CallNoted<I, O>(h: History<I, O>, k: int, callValue: map<int, I>, returnValue: map<int, O>)
    requires WellFormed(h) && 0 <= k < |h| && h[k].ReturnEntry? && ValuesUpTo(h, k, callValue, returnValue)
    ensures IsId(h, h[k].id) && h[k].id in callValue && callValue[h[k].id] == InputOf(h, h[k].id)
  {
    PositionsUnique(h, k);
  }

  lemma EntryId<I, O>(h: History<I, O>, k: int)
    requires WellFormed(h) && 0 <= k < |h|
    ensures IsId(h, h[k].id)
  {
  }

  method ReadHistory<S, I, O>(h: History<I, O>, d: Descriptions<S, I, O>)
    returns (history: seq<HistoryElement>, callValue: map<int, I>, returnValue: map<int, O>)
    requires WellFormed(h)
    ensures |history| == Size(h) && forall id :: IsId(h, id) ==> Shows(h, d, id, history[id])
    ensures ValuesUpTo(h, |h|, callValue, returnValue)
  {
    history := seq(|h| / 2, _ => HistoryElement(0, 0, 0, ""));
    callValue := map[];
    returnValue := map[];
    for k := 0 to |h|
      invariant |history| == Size(h)
      invariant forall id :: IsId(h, id) ==> ShownUpTo(h, d, k, id, history[id])
      invariant ValuesUpTo(h, k, callValue, returnValue)
    {
      hide WellFormed, ShownUpTo, ValuesUpTo;
      var elem := h[k];
      EntryId(h, k);
      forall id | IsId(h, id) && id != elem.id
        ensures ShownUpTo(h, d, k + 1, id, history[id])
      {
        ShownOther(h, d, k, id, history[id]);
      }
      match elem {
        case CallEntry(input, id, time, clientId) =>
          ShownCall(h, d, k, history[id]);
          ValuesCall(h, k, callValue, returnValue);
          history := history[id := history[id].(clientId := clientId, start := time)];
          callValue := callValue[id := input];
        case ReturnEntry(output, id, time, clientId) =>
          ShownReturn(h, d, k, history[id]);
          ValuesReturn(h, k, callValue, returnValue);
          CallNoted(h, k, callValue, returnValue);
          history := history[id := history[id].(end := time, description := d.operation(callValue[id], output))];
          returnValue := returnValue[id := output];
      }
    }
  }

  // ---------- the linearizations ----------

  /** What the library's sort by falling length promises. */
  ghost predicate SortsByLength(ps: seq<seq<int>>, sorted: seq<seq<int>>) {
    && multiset(sorted) == multiset(ps)
    && forall i, j :: 0 <= i < j < |sorted| ==> |sorted[i]| >= |sorted[j]|
  }

  /** Step `j` of a linearization: its id, with the state after it. */
  ghost predicate StepShown<S, I, O>(
    m: Model<S, I, O>, h: History<I, O>, d: Descriptions<S, I, O>, partial: seq<int>, j: int, step: LinearizationStep)
    requires WellFormed(h) && 0 <= j < |partial|
  {
    && AllIds(h, partial[..j + 1])
    && step == LinearizationStep(partial[j], d.state(StateAfter(m, h, partial[..j + 1])))
  }

  ghost predicate StepsOf<S, I, O>(
    m: Model<S, I, O>, h: History<I, O>, d: Descriptions<S, I, O>, partial: seq<int>, steps: seq<LinearizationStep>)
    requires WellFormed(h)
  {
    && |steps| == |partial|
    && forall j :: 0 <= j < |steps| ==> StepShown(m, h, d, partial, j, steps[j])
  }

  lemma ReplayStep<S, I, O>(
    m: Model<S, I, O>, h: History<I, O>, callValue: map<int, I>, returnValue: map<int, O>, partial: seq<int>, j: int)
    requires WellFormed(h) && AllIds(h, partial) && 0 <= j < |partial| && ValuesUpTo(h, |h|, callValue, returnValue)
    ensures AllIds(h, partial[..j]) && AllIds(h, partial[..j + 1])
    ensures partial[j] in callValue && partial[j] in returnValue
    ensures var r := m.step(StateAfter(m, h, partial[..j]), callValue[partial[j]], returnValue[partial[j]]);
      && StateAfter(m, h, partial[..j + 1]) == r.1
      && (Accepted(m, IdExchanges(h, partial[..j + 1])) <==> Accepted(m, IdExchanges(h, partial[..j])) && r.0)
  {
    assert IsId(h, partial[j]);
    assert partial[..j + 1] == partial[..j] + [partial[j]];
    StateAfterSnoc(m, h, partial[..j], partial[j]);
  }

  /** The first `j` operations are replayed: the model has accepted them, and their steps are shown. */
  ghost predicate Replayed<S, I, O>(
    m: Model<S, I, O>, h: History<I, O>, d: Descriptions<S, I, O>, partial: seq<int>, j: int, state: S,
    steps: seq<LinearizationStep>)
    requires WellFormed(h) && AllIds(h, partial) && 0 <= j <= |partial|
  {
    && AllIds(h, partial[..j]) && state == StateAfter(m, h, partial[..j])
    && Accepted(m, IdExchanges(h, partial[..j]))
    && |steps| == j && forall i :: 0 <= i < j ==> StepShown(m, h, d, partial, i, steps[i])
  }

  /** What the model says of operation `j` decides whether one more can be accepted. */
  lemma ReplayedGrows<S, I, O>(
    m: Model<S, I, O>, h: History<I, O>, d: Descriptions<S, I, O>,
    callValue: map<int, I>, returnValue: map<int, O>, partial: seq<int>, j: int, state: S,
    steps: seq<LinearizationStep>)
    requires WellFormed(h) && AllIds(h, partial) && 0 <= j < |partial| && ValuesUpTo(h, |h|, callValue, returnValue)
    requires Replayed(m, h, d, partial, j, state, steps)
    ensures partial[j] in callValue && partial[j] in returnValue
    ensures var (ok, next) := m.step(state, callValue[partial[j]], returnValue[partial[j]]);
      && (ok ==>
           Replayed(m, h, d, partial, j + 1, next, steps + [LinearizationStep(partial[j], d.state(next))]))
      && (!ok ==> !Accepted(m, IdExchanges(h, partial)))
  {
    hide WellFormed, Accepted, IdExchanges, StateAfter, ValuesUpTo, AllIds;
    ReplayStep(m, h, callValue, returnValue, partial, j);
    PrefixAccepted(m, h, partial, j + 1);
  }

  /** Replays one linearization through the model; None is the panic on a step the model refuses. */
  method Replay<S, I, O>(
    m: Model<S, I, O>, h: History<I, O>, d: Descriptions<S, I, O>,
    callValue: map<int, I>, returnValue: map<int, O>, partial: seq<int>)
    returns (steps: Option<seq<LinearizationStep>>)
    requires WellFormed(h) && AllIds(h, partial) && ValuesUpTo(h, |h|, callValue, returnValue)
    ensures steps == None <==> !Accepted(m, IdExchanges(h, partial))
    ensures steps.Some? ==> StepsOf(m, h, d, partial, steps.value)
  {
    var linearization: seq<LinearizationStep> := [];
    var state := m.init;
    for j := 0 to |partial|
      invariant Replayed(m, h, d, partial, j, state, linearization)
    {
      hide *;
      var histId := partial[j];
      ReplayedGrows(m, h, d, callValue, returnValue, partial, j, state, linearization);
      var (ok, next) := m.step(state, callValue[histId], returnValue[histId]);
      if !ok {
        return None;
      }
      state := next;
      linearization := linearization + [LinearizationStep(histId, d.state(state))];
    }
    assert partial[..|partial|] == partial;
    return Some(linearization);
  }

  lemma {:induction false} PrefixAccepted<S, I, O>(m: Model<S, I, O>, h: History<I, O>, s: seq<int>, k: nat)
    requires WellFormed(h) && AllIds(h, s) && k <= |s|
    ensures AllIds(h, s[..k]) && (Accepted(m, IdExchanges(h, s)) ==> Accepted(m, IdExchanges(h, s[..k])))
    decreases |s|
  {
    if k == |s| {
      assert s[..k] == s;
    } else {
      var front, last := s[..|s| - 1], s[|s| - 1];
      assert s == front + [last] && front[..k] == s[..k] && IsId(h, s[|s| - 1]);
      PrefixAccepted(m, h, front, k);
      StateAfterSnoc(m, h, front, last);
    }
  }

  /** `index` points from ids to linearizations among the first `n` that contain them. */
  ghost predicate Points(partials: seq<seq<int>>, n: int, index: map<int, int>) {
    0 <= n <= |partials| && forall id :: id in index ==> 0 <= index[id] < n && id in partials[index[id]]
  }

  /** The linearization that `index` gives for `id` has at least `size` elements. */
  ghost predicate HasLarge(partials: seq<seq<int>>, index: map<int, int>, id: int, size: int) {
    id in index && 0 <= index[id] < |partials| && size <= |partials[index[id]]|
  }

  /** No linearization before the one that `index` gives for an id contains it and is as large. */
  ghost predicate NoneEarlier(partials: seq<seq<int>>, index: map<int, int>) {
    forall id, i :: id in index && 0 <= i < index[id] < |partials| && id in partials[i] ==>
      |partials[i]| < |partials[index[id]]|
  }

  /** For each id of the first `n` linearizations, `largest` gives the first of the largest that contain it. */
  ghost predicate LargestAmong(partials: seq<seq<int>>, n: int, largest: map<int, int>) {
    && Points(partials, n, largest) && NoneEarlier(partials, largest)
    && forall i, id :: 0 <= i < n && id in partials[i] ==> HasLarge(partials, largest, id, |partials[i]|)
  }

  /** `size` is the sizes of what `index` points to. */
  ghost predicate SizesOf(partials: seq<seq<int>>, index: map<int, int>, size: map<int, int>) {
    && (forall id :: id in index <==> id in size)
    && (forall id :: id in index ==> 0 <= index[id] < |partials| && size[id] == |partials[index[id]]|)
  }

  /** Pointing one id to a larger linearization takes nothing away from any id. */
  lemma NoteOne(partials: seq<seq<int>>, i: int, index: map<int, int>, size: map<int, int>, id: int)
    requires 0 <= i < |partials| && id in partials[i] && Points(partials, i + 1, index)
    requires SizesOf(partials, index, size) && NoneEarlier(partials, index)
    requires id in size ==> size[id] < |partials[i]|
    requires forall k :: 0 <= k < i && id in partials[k] ==> HasLarge(partials, index, id, |partials[k]|)
    ensures Points(partials, i + 1, index[id := i]) && SizesOf(partials, index[id := i], size[id := |partials[i]|])
    ensures HasLarge(partials, index[id := i], id, |partials[i]|) && NoneEarlier(partials, index[id := i])
    ensures forall other, n :: HasLarge(partials, index, other, n) ==> HasLarge(partials, index[id := i], other, n)
  {
  }

  /** Notes linearization `i` for each of its ids that has no larger one. */
  method NoteLargest(partials: seq<seq<int>>, i: int, index: map<int, int>, size: map<int, int>)
    returns (largestIndex: map<int, int>, largestSize: map<int, int>)
    requires 0 <= i < |partials| && LargestAmong(partials, i, index) && SizesOf(partials, index, size)
    ensures LargestAmong(partials, i + 1, largestIndex) && SizesOf(partials, largestIndex, largestSize)
  {
    largestIndex, largestSize := index, size;
    var partial := partials[i];
    for j := 0 to |partial|
      invariant Points(partials, i + 1, largestIndex) && SizesOf(partials, largestIndex, largestSize)
      invariant NoneEarlier(partials, largestIndex)
      invariant forall id, n :: HasLarge(partials, index, id, n) ==> HasLarge(partials, largestIndex, id, n)
      invariant forall k :: 0 <= k < j ==> HasLarge(partials, largestIndex, partial[k], |partial|)
    {
      var histId := partial[j];
      var known := if histId in largestSize then largestSize[histId] else 0;
      if known < |partial| {
        NoteOne(partials, i, largestIndex, largestSize, histId);
        largestSize := largestSize[histId := |partial|];
        largestIndex := largestIndex[histId := i];
      } else {
        assert HasLarge(partials, largestIndex, histId, |partial|);
      }
    }
  }

  /** `computeVisualizationData` on one partition; None is the panic. */
  method ComputePartition<S, I, O>(
    m: Model<S, I, O>, h: History<I, O>, d: Descriptions<S, I, O>,
    partials: seq<seq<int>>, sortByLength: seq<seq<int>> -> seq<seq<int>>)
    returns (data: Option<PartitionData>, sorted: seq<seq<int>>)
    requires WellFormed(h) && forall p :: p in partials ==> AllIds(h, p)
    requires forall ps :: SortsByLength(ps, sortByLength(ps))
    ensures SortsByLength(partials, sorted) && forall i :: 0 <= i < |sorted| ==> AllIds(h, sorted[i])
    ensures data == None <==> exists i :: 0 <= i < |sorted| && !Accepted(m, IdExchanges(h, sorted[i]))
    ensures data.Some? ==>
      && |data.value.history| == Size(h) && (forall id :: IsId(h, id) ==> Shows(h, d, id, data.value.history[id]))
      && |data.value.linearizations| == |sorted|
      && (forall i :: 0 <= i < |sorted| ==> StepsOf(m, h, d, sorted[i], data.value.linearizations[i]))
      && LargestAmong(sorted, |sorted|, data.value.largest)
  {
    var history, callValue, returnValue := ReadHistory(h, d);
    sorted := sortByLength(partials);
    forall i | 0 <= i < |sorted|
      ensures AllIds(h, sorted[i])
    {
      assert sorted[i] in multiset(partials);
    }
    var largestIndex: map<int, int>, largestSize: map<int, int> := map[], map[];
    var linearizations: seq<seq<LinearizationStep>> := [];
    assert LargestAmong(sorted, 0, largestIndex) && SizesOf(sorted, largestIndex, largestSize);
    hide WellFormed, Accepted, IdExchanges, StepsOf, ValuesUpTo, LargestAmong, SizesOf, SortsByLength, Shows;
    for i := 0 to |sorted|
      invariant LargestAmong(sorted, i, largestIndex)
      invariant SizesOf(sorted, largestIndex, largestSize)
      invariant |linearizations| == i
      invariant forall k :: 0 <= k < i ==>
        Accepted(m, IdExchanges(h, sorted[k])) && StepsOf(m, h, d, sorted[k], linearizations[k])
    {
      var steps := Replay(m, h, d, callValue, returnValue, sorted[i]);
      if steps == None {
        return None, sorted;
      }
      largestIndex, largestSize := NoteLargest(sorted, i, largestIndex, largestSize);
      linearizations := linearizations + [steps.value];
    }
    data := Some(PartitionData(history, linearizations, largestIndex));
  }

  // ---------- a check's own recordings never panic ----------

  /** Whatever a search recorded is replayed without a panic, even when it was told to stop early. */
  lemma RecordedIsAccepted<S(!new), I(!new), O(!new)>(
    m: Model<S, I, O>, h: History<I, O>, longest: Longest, partials: seq<seq<int>>, p: seq<int>)
    requires WellFormed(h) && LongestValid(m, h, longest)
    requires (forall q :: q in partials <==> Some(q) in longest) && p in partials
    ensures AllIds(h, p) && Accepted(m, IdExchanges(h, p)) && IsPartial(m, h, p)
  {
    var k :| 0 <= k < |longest| && longest[k] == Some(p);
    assert IsId(h, k);
  }

  /** When a search has run to its end, the largest recorded linearizations are longest of all that there are. */
  lemma LargestOfAll<S(!new), I(!new), O(!new)>(
    m: Model<S, I, O>, h: History<I, O>, ok: bool, longest: Longest, sorted: seq<seq<int>>, largest: map<int, int>,
    id: int, s: seq<int>)
    requires WellFormed(h) && SingleSpec(m, h, true, false, ok, longest) && LargestAmong(sorted, |sorted|, largest)
    requires forall p :: p in sorted <==> Some(p) in longest
    requires IsPartial(m, h, s) && id in s
    ensures HasLarge(sorted, largest, id, |s|)
  {
    Parallel.PartialIdsInRange(m, h, s);
    PartialIsBounded(m, h, s);
    hide IsPartial, WellFormed, HistoryLinearizable, NoneEarlier;
    assert IsId(h, id);
    if ok {
      var w :| IsComplete(m, h, w) && forall x :: IsId(h, x) ==> longest[x] == Some(w);
      CompleteIsFull(m, h, w);
    } else {
      assert AtLeast(longest, s);
    }
    var r := longest[id].value;
    assert longest[id] == Some(r) && r in sorted;
    var i :| 0 <= i < |sorted| && sorted[i] == r;
    assert HasLarge(sorted, largest, id, |sorted[i]|);
  }

  /** The data shown for partition `i` of a check that has returned: it is there, whatever the interleaving
      of workers and timeout was. */
  method ShowPartition<S(!new), I(!new), O(!new)>(
    ghost c: Parallel.Config<S, I, O>, ghost run: seq<Parallel.State>, ghost k: nat, ghost i: int,
    m: Model<S, I, O>, h: History<I, O>, longest: Longest,
    d: Descriptions<S, I, O>, sortByLength: seq<seq<int>> -> seq<seq<int>>)
    returns (data: Option<PartitionData>, sorted: seq<seq<int>>)
    requires Parallel.ValidConfig(c) && Parallel.IsRun(c, run) && k < |run|
    requires run[k].phase == Parallel.Returned && c.computeInfo
    requires 0 <= i < |c.history| && m == c.model && h == c.history[i]
    requires i < |run[k].workers| && run[k].workers[i].Finished? && longest == run[k].workers[i].longest
    requires forall ps :: SortsByLength(ps, sortByLength(ps))
    ensures data.Some? && LargestAmong(sorted, |sorted|, data.value.largest)
    ensures forall p :: p in sorted <==> Some(p) in longest
    ensures forall p :: p in sorted ==> IsPartial(m, h, p)
    ensures !run[k].timedOut ==>
      forall id, s :: IsPartial(m, h, s) && id in s ==> HasLarge(sorted, data.value.largest, id, |s|)
  {
    Parallel.InfoIsComplete(c, run, k, i);
    var partials := CollectPartials(longest);
    forall p | p in partials
      ensures AllIds(h, p) && Accepted(m, IdExchanges(h, p)) && IsPartial(m, h, p)
    {
      RecordedIsAccepted(m, h, longest, partials, p);
    }
    hide WellFormed, Accepted, IdExchanges, IsPartial, Parallel.IsRun, Parallel.ValidConfig, LargestAmong, AllIds;
    data, sorted := ComputePartition(m, h, d, partials, sortByLength);
    assert forall p :: p in sorted <==> p in multiset(sorted);
    assert forall p :: p in partials <==> p in multiset(partials);
    hide SingleSpec, HasLarge, Parallel.WorkerStep;
    if !run[k].timedOut {
      forall id, s | IsPartial(m, h, s) && id in s
        ensures HasLarge(sorted, data.value.largest, id, |s|)
      {
        LargestOfAll(m, h, run[k].workers[i].ok, longest, sorted, data.value.largest, id, s);
      }
    }
  }
}
