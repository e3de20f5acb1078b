/** From operations with timestamps to a history of call and return entries. */
module Entries {
  import opened Linearizability
  import opened Permutations

  /** The order of entries: by time, calls before returns at one time. */
  predicate Less<I, O>(a: Entry<I, O>, b: Entry<I, O>) {
    if a.time != b.time then a.time < b.time else a.CallEntry? && b.ReturnEntry?
  }

  /** What the library's sort promises: the same entries, none after one that is less. It is not stable. */
  ghost predicate IsSortOf<I, O>(es: seq<Entry<I, O>>, sorted: seq<Entry<I, O>>) {
    && multiset(sorted) == multiset(es)
    && forall i, j :: 0 <= i < j < |sorted| ==> !Less(sorted[j], sorted[i])
  }

  /** No operation returns before it is called. */
  ghost predicate Timely<I, O>(ops: seq<Operation<I, O>>) {
    forall k :: 0 <= k < |ops| ==> ops[k].call <= ops[k].ret
  }

  function CallOf<I, O>(op: Operation<I, O>, id: int): Entry<I, O> {
    CallEntry(op.input, id, op.call, op.clientId)
  }

  function ReturnOf<I, O>(op: Operation<I, O>, id: int): Entry<I, O> {
    ReturnEntry(op.output, id, op.ret, op.clientId)
  }

  /** The call and the return of every operation, in the order of the operations. */
  ghost function Unsorted<I, O>(ops: seq<Operation<I, O>>): seq<Entry<I, O>> {
    seq(2 * |ops|, k requires 0 <= k < 2 * |ops| => if k % 2 == 0 then CallOf(ops[k / 2], k / 2)
      else ReturnOf(ops[k / 2], k / 2))
  }

  /** The call and the return of an operation say who made it, and when it was called and returned. */
  ghost predicate SaysWhoAndWhen<I, O>(h: History<I, O>, id: int, op: Operation<I, O>)
    requires WellFormed(h) && IsId(h, id)
  {
    var c, r := h[CallPos(h, id)], h[ReturnPos(h, id)];
    c.clientId == op.clientId == r.clientId && c.time == op.call && r.time == op.ret
  }

  /** The history says exactly what the operations say: the same inputs, outputs, clients and times, and one
      operation before another exactly when it returned before the other was called. */
  ghost predicate Represents<I, O>(h: History<I, O>, ops: seq<Operation<I, O>>) {
    && WellFormed(h) && Size(h) == |ops|
    && (forall id :: IsId(h, id) ==> InputOf(h, id) == ops[id].input && OutputOf(h, id) == ops[id].output)
    && (forall id :: IsId(h, id) ==> SaysWhoAndWhen(h, id, ops[id]))
    && (forall a, b :: IsId(h, a) && IsId(h, b) ==> (Precedes(h, a, b) <==> ops[a].ret < ops[b].call))
  }

  lemma EntryIsOneOf<I, O>(ops: seq<Operation<I, O>>, h: History<I, O>, p: int)
    requires multiset(h) == multiset(Unsorted(ops)) && 0 <= p < |h|
    ensures 0 <= h[p].id < |ops|
    ensures h[p] == CallOf(ops[h[p].id], h[p].id) || h[p] == ReturnOf(ops[h[p].id], h[p].id)
  {
    assert h[p] in multiset(h);
    var es := Unsorted(ops);
    assert h[p] in es;
    var k :| 0 <= k < |es| && es[k] == h[p];
  }

  lemma EntryIsThere<I, O>(ops: seq<Operation<I, O>>, h: History<I, O>, id: int)
    requires multiset(h) == multiset(Unsorted(ops)) && 0 <= id < |ops|
    ensures exists p :: 0 <= p < |h| && h[p] == CallOf(ops[id], id)
    ensures exists p :: 0 <= p < |h| && h[p] == ReturnOf(ops[id], id)
  {
    var es := Unsorted(ops);
    assert es[2 * id] == CallOf(ops[id], id) && es[2 * id + 1] == ReturnOf(ops[id], id);
    assert CallOf(ops[id], id) in multiset(h) && ReturnOf(ops[id], id) in multiset(h);
  }

  lemma UnsortedDistinct<I, O>(ops: seq<Operation<I, O>>)
    ensures Distinct(Unsorted(ops))
  {
  }

  lemma SortedDistinct<I, O>(ops: seq<Operation<I, O>>, h: History<I, O>)
    requires IsSortOf(Unsorted(ops), h)
    ensures |h| == 2 * |ops| && Size(h) == |ops| && Distinct(h)
  {
    UnsortedDistinct(ops);
    SameElementsDistinct(Unsorted(ops), h);
    assert |multiset(h)| == |multiset(Unsorted(ops))|;
  }

  /** However ties are sorted, the sorted entries are a history of the operations: they are well formed
      exactly when no operation returns before it is called. */
  lemma SortedRepresents<I, O>(ops: seq<Operation<I, O>>, h: History<I, O>)
    requires IsSortOf(Unsorted(ops), h)
    ensures Timely(ops) <==> WellFormed(h)
    ensures Timely(ops) ==> Represents(h, ops)
  {
    SortedDistinct(ops, h);
    if Timely(ops) {
      SortedWellFormed(ops, h);
      SortedKeepsTime(ops, h);
    }
    if WellFormed(h) {
      forall k | 0 <= k < |ops|
        ensures ops[k].call <= ops[k].ret
      {
        WellFormedIsTimely(ops, h, k);
      }
    }
  }

  lemma SortedWellFormed<I, O>(ops: seq<Operation<I, O>>, h: History<I, O>)
    requires IsSortOf(Unsorted(ops), h) && Timely(ops)
    ensures WellFormed(h) && Size(h) == |ops|
  {
    SortedDistinct(ops, h);
    forall p | 0 <= p < |h|
      ensures 0 <= h[p].id < Size(h)
    {
      EntryIsOneOf(ops, h, p);
    }
    forall p, q | 0 <= p < q < |h| && h[p].id == h[q].id
      ensures h[p].CallEntry? && h[q].ReturnEntry?
    {
      EntryIsOneOf(ops, h, p);
      EntryIsOneOf(ops, h, q);
      assert h[p] != h[q] && !Less(h[q], h[p]);
      assert ops[h[p].id].call <= ops[h[p].id].ret;
    }
    forall id | IsId(h, id)
      ensures exists p :: IsCallOf(h, id, p)
      ensures exists p :: IsReturnOf(h, id, p)
    {
      EntryIsThere(ops, h, id);
      var p :| 0 <= p < |h| && h[p] == CallOf(ops[id], id);
      var q :| 0 <= q < |h| && h[q] == ReturnOf(ops[id], id);
      assert IsCallOf(h, id, p) && IsReturnOf(h, id, q);
    }
  }

  lemma SortedKeepsTime<I, O>(ops: seq<Operation<I, O>>, h: History<I, O>)
    requires IsSortOf(Unsorted(ops), h) && WellFormed(h) && Size(h) == |ops|
    ensures Represents(h, ops)
  {
    forall id | IsId(h, id)
      ensures h[CallPos(h, id)] == CallOf(ops[id], id) && h[ReturnPos(h, id)] == ReturnOf(ops[id], id)
    {
      EntryIsOneOf(ops, h, CallPos(h, id));
      EntryIsOneOf(ops, h, ReturnPos(h, id));
    }
    forall a, b | IsId(h, a) && IsId(h, b)
      ensures Precedes(h, a, b) <==> ops[a].ret < ops[b].call
    {
      var r, c := ReturnPos(h, a), CallPos(h, b);
      assert r < c ==> !Less(h[c], h[r]);
      assert c < r ==> !Less(h[r], h[c]);
    }
  }

  lemma WellFormedIsTimely<I, O>(ops: seq<Operation<I, O>>, h: History<I, O>, id: int)
    requires IsSortOf(Unsorted(ops), h) && WellFormed(h) && Size(h) == |ops| && 0 <= id < |ops|
    ensures ops[id].call <= ops[id].ret
  {
    assert IsId(h, id);
    var c, r := CallPos(h, id), ReturnPos(h, id);
    EntryIsOneOf(ops, h, c);
    EntryIsOneOf(ops, h, r);
    PositionsUnique(h, c);
    assert !Less(h[r], h[c]);
  }

  /** `sort` stands for the library's sort. */
  method MakeEntries<I(!new), O(!new)>(
    history: seq<Operation<I, O>>, sort: seq<Entry<I, O>> -> seq<Entry<I, O>>)
    returns (entries: History<I, O>)
    requires forall es :: IsSortOf(es, sort(es))
    ensures Timely(history) <==> WellFormed(entries)
    ensures Timely(history) ==> Represents(entries, history)
  {
    var es: seq<Entry<I, O>> := [];
    var id := 0;
    while id < |history|
      invariant 0 <= id <= |history|
      invariant es == Unsorted(history)[..2 * id]
    {
      var elem := history[id];
      es := es + [CallOf(elem, id)];
      es := es + [ReturnOf(elem, id)];
      id := id + 1;
    }
    entries := sort(es);
    assert es == Unsorted(history);
    SortedRepresents(history, entries);
  }

  // ---------- a history is linearizable exactly when its operations are ----------

  lemma CompleteGivesOrder<S, I, O>(m: Model<S, I, O>, h: History<I, O>, ops: seq<Operation<I, O>>, s: seq<int>)
    requires Represents(h, ops) && IsComplete(m, h, s)
    ensures IsPermutation(s, |ops|) && IsLinearization(m, ops, Pick(ops, s))
  {
    CoveringIsPermutation(h, s);
    var order := Pick(ops, s);
    PermutationKeepsElements(ops, s);
    forall i, j | 0 <= i < j < |order|
      ensures !(order[j].ret < order[i].call)
    {
      LaterDoesNotPrecede(h, s, i, j);
    }
    SameExchanges(h, ops, s);
  }

  lemma LaterDoesNotPrecede<I, O>(h: History<I, O>, s: seq<int>, i: int, j: int)
    requires WellFormed(h) && AllIds(h, s) && Distinct(s) && TimeClosed(h, s) && 0 <= i < j < |s|
    ensures IsId(h, s[i]) && IsId(h, s[j]) && !Precedes(h, s[j], s[i])
  {
    assert s[j] !in s[..i];
  }

  lemma SameExchanges<I, O>(h: History<I, O>, ops: seq<Operation<I, O>>, s: seq<int>)
    requires Represents(h, ops) && AllIds(h, s)
    ensures forall k :: 0 <= k < |s| ==> 0 <= s[k] < |ops|
    ensures Exchanges(Pick(ops, s)) == IdExchanges(h, s)
  {
    forall k | 0 <= k < |s|
      ensures 0 <= s[k] < |ops| && InputOf(h, s[k]) == ops[s[k]].input && OutputOf(h, s[k]) == ops[s[k]].output
    {
      assert IsId(h, s[k]);
    }
  }

  lemma CoveringIsPermutation<I, O>(h: History<I, O>, s: seq<int>)
    requires WellFormed(h) && AllIds(h, s) && Distinct(s) && Covers(h, s)
    ensures IsPermutation(s, Size(h))
  {
    DistinctSize(s);
    var n := Size(h);
    var ids := seq(n, k => k);
    DistinctSize(ids);
    forall x
      ensures x in Elems(s) <==> x in Elems(ids)
    {
      assert x in s ==> exists k :: 0 <= k < |s| && s[k] == x && IsId(h, s[k]);
      assert 0 <= x < n ==> ids[x] == x && IsId(h, x);
    }
    assert Elems(s) == Elems(ids);
    forall k | 0 <= k < |s|
      ensures 0 <= s[k] < n
    {
      assert IsId(h, s[k]);
    }
    forall x | 0 <= x < n
      ensures x in s
    {
      assert IsId(h, x);
    }
  }

  lemma OrderGivesComplete<S, I, O>(
    m: Model<S, I, O>, h: History<I, O>, ops: seq<Operation<I, O>>, order: seq<Operation<I, O>>) returns (s: seq<int>)
    requires Represents(h, ops) && IsLinearization(m, ops, order)
    ensures IsComplete(m, h, s)
  {
    s := SameElementsPermuted(ops, order);
    assert AllIds(h, s) && Covers(h, s);
    SameExchanges(h, ops, s);
    OrderIsTimeClosed(h, ops, s);
  }

  lemma OrderIsTimeClosed<I, O>(h: History<I, O>, ops: seq<Operation<I, O>>, s: seq<int>)
    requires Represents(h, ops) && AllIds(h, s) && Covers(h, s)
    requires forall k :: 0 <= k < |s| ==> 0 <= s[k] < |ops|
    requires RespectsTime(Pick(ops, s))
    ensures TimeClosed(h, s)
  {
    var order := Pick(ops, s);
    forall k, b | 0 <= k < |s| && IsId(h, b) && Precedes(h, b, s[k])
      ensures b in s[..k]
    {
      assert IsId(h, s[k]) && b in s;
      var j :| 0 <= j < |s| && s[j] == b;
      assert order[j].ret < order[k].call;
      PositionsUnique(h, CallPos(h, b));
      assert j != k;
    }
  }

  /** The entries of operations are linearizable exactly when the operations are. */
  lemma EntriesDecideOperations<S(!new), I(!new), O(!new)>(
    m: Model<S, I, O>, h: History<I, O>, ops: seq<Operation<I, O>>)
    requires Represents(h, ops)
    ensures HistoryLinearizable(m, h) <==> Linearizable(m, ops)
  {
    if HistoryLinearizable(m, h) {
      var s :| IsComplete(m, h, s);
      CompleteGivesOrder(m, h, ops, s);
    }
    if Linearizable(m, ops) {
      var order :| IsLinearization(m, ops, order);
      var s := OrderGivesComplete(m, h, ops, order);
    }
  }

  /** The verdict does not depend on how the sort orders ties. */
  lemma TiesDoNotMatter<S(!new), I(!new), O(!new)>(
    m: Model<S, I, O>, ops: seq<Operation<I, O>>, h1: History<I, O>, h2: History<I, O>)
    requires Timely(ops) && IsSortOf(Unsorted(ops), h1) && IsSortOf(Unsorted(ops), h2)
    ensures WellFormed(h1) && WellFormed(h2)
    ensures HistoryLinearizable(m, h1) <==> HistoryLinearizable(m, h2)
  {
    SortedRepresents(ops, h1);
    SortedRepresents(ops, h2);
    EntriesDecideOperations(m, h1, ops);
    EntriesDecideOperations(m, h2, ops);
  }
}
