/** From a log of call and return events, whose ids only pair them up, to a history of entries. */
module Events {
  import opened FiniteSets
  import opened Linearizability

  datatype Event<I, O> =
    | CallEvent(clientId: int, input: I, id: int)
    | ReturnEvent(clientId: int, output: O, id: int)

  function WithId<I, O>(e: Event<I, O>, id: int): Event<I, O> {
    if e.CallEvent? then CallEvent(e.clientId, e.input, id) else ReturnEvent(e.clientId, e.output, id)
  }

  /** Every id that occurs has one call and, later, one return. */
  ghost predicate Paired<I, O>(events: seq<Event<I, O>>) {
    && (forall p, q :: 0 <= p < q < |events| && events[p].id == events[q].id ==>
         events[p].CallEvent? && events[q].ReturnEvent?)
    && (forall p :: 0 <= p < |events| ==> HasPartner(events, p))
  }

  ghost predicate HasPartner<I, O>(events: seq<Event<I, O>>, p: int)
    requires 0 <= p < |events|
  {
    exists q :: 0 <= q < |events| && q != p && events[q].id == events[p].id
  }

  /** `ids` stands for the first keys: the numbers `0 .. n`, equal where the keys are and in the order in which
      the keys first occur. */
  ghost predicate Renumbers(keys: seq<int>, ids: seq<int>, n: nat) {
    && |ids| <= |keys| && EqualTogether(keys, ids) && FirstsRise(keys, ids) && Onto(ids, n)
  }

  ghost predicate EqualTogether(keys: seq<int>, ids: seq<int>) {
    |ids| <= |keys| && forall p, q :: 0 <= p < q < |ids| ==> (ids[p] == ids[q] <==> keys[p] == keys[q])
  }

  ghost predicate FirstsRise(keys: seq<int>, ids: seq<int>) {
    |ids| <= |keys| && forall p, q :: 0 <= p < q < |ids| && FirstOfItsKey(keys, q) ==> ids[p] < ids[q]
  }

  ghost predicate Onto(ids: seq<int>, n: nat) {
    && (forall p :: 0 <= p < |ids| ==> 0 <= ids[p] < n)
    && (forall id :: 0 <= id < n ==> id in ids)
  }

  ghost predicate FirstOfItsKey(keys: seq<int>, q: int)
    requires 0 <= q < |keys|
  {
    forall p :: 0 <= p < q ==> keys[p] != keys[q]
  }

  ghost function Ids<I, O>(events: seq<Event<I, O>>): seq<int> {
    seq(|events|, p requires 0 <= p < |events| => events[p].id)
  }

  /** The same events under the ids `0 .. n`, in the order in which the old ids first occur. */
  ghost predicate IsRenumbering<I, O>(events: seq<Event<I, O>>, r: seq<Event<I, O>>, n: nat) {
    && |r| == |events| && Renumbers(Ids(events), Ids(r), n)
    && forall p :: 0 <= p < |r| ==> r[p] == WithId(events[p], r[p].id)
  }

  method Renumber<I, O>(events: seq<Event<I, O>>) returns (e: seq<Event<I, O>>, ghost n: nat)
    ensures IsRenumbering(events, e, n)
    ensures EqualTogether(Ids(events), Ids(e)) && FirstsRise(Ids(events), Ids(e))
  {
    e := [];
    var m: map<int, int> := map[];
    var id := 0;
    ghost var keys, ids := Ids(events), [];
    for k := 0 to |events|
      invariant |ids| == k && Renumbers(keys, ids, id) && Recorded(keys, ids, m) && Renamed(events, e, ids)
    {
      var v := events[k];
      assert keys[k] == v.id;
      hide Renumbers, Recorded, Renamed, Ids, WithId;
      RenamedGrows(events, e, ids, if v.id in m then m[v.id] else id);
      if v.id in m {
        KnownKey(keys, ids, m, id);
        e := e + [WithId(v, m[v.id])];
        ids := ids + [m[v.id]];
      } else {
        NewKey(keys, ids, m, id);
        e := e + [WithId(v, id)];
        ids := ids + [id];
        m := m[v.id := id];
        id := id + 1;
      }
    }
    n := id;
    IdsOfRenumbered(events, e, ids);
  }

  /** `e` stands for the first events, under the ids `ids`. */
  ghost predicate Renamed<I, O>(events: seq<Event<I, O>>, e: seq<Event<I, O>>, ids: seq<int>) {
    |e| == |ids| <= |events| && forall p :: 0 <= p < |e| ==> e[p] == WithId(events[p], ids[p])
  }

  lemma RenamedGrows<I, O>(events: seq<Event<I, O>>, e: seq<Event<I, O>>, ids: seq<int>, id: int)
    requires Renamed(events, e, ids) && |ids| < |events|
    ensures Renamed(events, e + [WithId(events[|ids|], id)], ids + [id])
  {
  }

  lemma IdsOfRenumbered<I, O>(events: seq<Event<I, O>>, e: seq<Event<I, O>>, ids: seq<int>)
    requires Renamed(events, e, ids) && |ids| == |events|
    ensures Ids(e) == ids && forall p :: 0 <= p < |e| ==> e[p] == WithId(events[p], e[p].id)
  {
  }

  /** The map knows the number of every key met so far, and no other key. */
  ghost predicate Recorded(keys: seq<int>, ids: seq<int>, m: map<int, int>) {
    && |ids| <= |keys|
    && (forall p :: 0 <= p < |ids| ==> keys[p] in m && m[keys[p]] == ids[p])
    && (forall x :: x in m ==> Met(keys, |ids|, x))
  }

  ghost predicate Met(keys: seq<int>, k: int, x: int)
    requires 0 <= k <= |keys|
  {
    exists p :: 0 <= p < k && keys[p] == x
  }

  lemma KnownKey(keys: seq<int>, ids: seq<int>, m: map<int, int>, n: nat)
    requires |ids| < |keys| && Renumbers(keys, ids, n) && Recorded(keys, ids, m) && keys[|ids|] in m
    ensures Renumbers(keys, ids + [m[keys[|ids|]]], n) && Recorded(keys, ids + [m[keys[|ids|]]], m)
  {
    hide Renumbers;
    var k := |ids|;
    assert Met(keys, k, keys[k]);
    var at :| 0 <= at < k && keys[at] == keys[k];
    SameNumber(keys, ids, at, n);
  }

  lemma SameNumber(keys: seq<int>, ids: seq<int>, at: nat, n: nat)
    requires at < |ids| < |keys| && Renumbers(keys, ids, n) && keys[at] == keys[|ids|]
    ensures Renumbers(keys, ids + [ids[at]], n)
  {
    EqualWithSame(keys, ids, at);
    assert FirstsRise(keys, ids + [ids[at]]) by {
      assert !FirstOfItsKey(keys, |ids|);
    }
    OntoWithSame(ids, at, n);
    hide EqualTogether, FirstsRise, Onto;
  }

  lemma EqualWithSame(keys: seq<int>, ids: seq<int>, at: nat)
    requires at < |ids| < |keys| && EqualTogether(keys, ids) && keys[at] == keys[|ids|]
    ensures EqualTogether(keys, ids + [ids[at]])
  {
    assert forall p :: 0 <= p < |ids| && p != at ==> (ids[p] == ids[at] <==> keys[p] == keys[at]);
  }

  lemma OntoWithSame(ids: seq<int>, at: nat, n: nat)
    requires at < |ids| && Onto(ids, n)
    ensures Onto(ids + [ids[at]], n)
  {
  }

  lemma NewKey(keys: seq<int>, ids: seq<int>, m: map<int, int>, n: nat)
    requires |ids| < |keys| && Renumbers(keys, ids, n) && Recorded(keys, ids, m) && keys[|ids|] !in m
    ensures Renumbers(keys, ids + [n], n + 1) && Recorded(keys, ids + [n], m[keys[|ids|] := n])
  {
    hide Renumbers;
    NewNumber(keys, ids, n);
    var after := m[keys[|ids|] := n];
    forall x | x in after
      ensures Met(keys, |ids| + 1, x)
    {
      assert x in m ==> Met(keys, |ids|, x);
    }
  }

  lemma NewNumber(keys: seq<int>, ids: seq<int>, n: nat)
    requires |ids| < |keys| && Renumbers(keys, ids, n)
    requires forall p :: 0 <= p < |ids| ==> keys[p] != keys[|ids|]
    ensures Renumbers(keys, ids + [n], n + 1)
  {
    EqualAndRiseWithNew(keys, ids, n);
    OntoWithNew(ids, n);
    hide EqualTogether, FirstsRise, Onto;
  }

  lemma EqualAndRiseWithNew(keys: seq<int>, ids: seq<int>, n: nat)
    requires |ids| < |keys| && EqualTogether(keys, ids) && FirstsRise(keys, ids)
    requires forall p :: 0 <= p < |ids| ==> keys[p] != keys[|ids|] && ids[p] < n
    ensures EqualTogether(keys, ids + [n]) && FirstsRise(keys, ids + [n])
  {
  }

  lemma OntoWithNew(ids: seq<int>, n: nat)
    requires Onto(ids, n)
    ensures Onto(ids + [n], n + 1)
  {
    var t := ids + [n];
    assert t[|ids|] == n && forall p :: 0 <= p < |ids| ==> t[p] == ids[p];
    assert forall id :: 0 <= id < n ==> id in ids;
  }

  /** The entries of events, with their positions as times. */
  function EntryOf<I, O>(e: Event<I, O>, time: int): Entry<I, O> {
    if e.CallEvent? then CallEntry(e.input, e.id, time, e.clientId) else ReturnEntry(e.output, e.id, time, e.clientId)
  }

  ghost predicate AreEntriesOf<I, O>(h: History<I, O>, events: seq<Event<I, O>>) {
    |h| == |events| && forall p :: 0 <= p < |h| ==> h[p] == EntryOf(events[p], p)
  }

  method ConvertEntries<I, O>(events: seq<Event<I, O>>) returns (entries: History<I, O>)
    ensures AreEntriesOf(entries, events)
  {
    entries := [];
    for i := 0 to |events|
      invariant AreEntriesOf(entries, events[..i])
    {
      entries := entries + [EntryOf(events[i], i)];
      assert forall p :: 0 <= p < i ==> events[..i + 1][p] == events[..i][p];
    }
    assert events[..|events|] == events;
  }

  /** The entries tell what the events tell: which are calls, by whom, with what inputs and outputs, in this order. */
  lemma EntriesSayEvents<I, O>(events: seq<Event<I, O>>, r: seq<Event<I, O>>, n: nat, h: History<I, O>, p: int)
    requires IsRenumbering(events, r, n) && AreEntriesOf(h, r) && 0 <= p < |events|
    ensures |h| == |events| && h[p].clientId == events[p].clientId && h[p].time == p
    ensures h[p].CallEntry? <==> events[p].CallEvent?
    ensures h[p].CallEntry? ==> h[p].input == events[p].input
    ensures h[p].ReturnEntry? ==> h[p].output == events[p].output
  {
    hide Renumbers;
  }

  // ---------- events that pair up become a history that can be searched ----------

  lemma DistinctBelow(s: seq<int>, n: nat)
    requires Distinct(s) && forall k :: 0 <= k < |s| ==> 0 <= s[k] < n
    ensures |s| <= n
  {
    DistinctSize(s);
    IdsBelowMembers(n);
    SubsetSize(Elems(s), IdsBelow(n));
  }

  /** Renumbered events make a well-formed history exactly when the events pair up. */
  lemma RenumberedWellFormed<I, O>(events: seq<Event<I, O>>, r: seq<Event<I, O>>, n: nat, h: History<I, O>)
    requires IsRenumbering(events, r, n) && AreEntriesOf(h, r)
    ensures WellFormed(h) <==> Paired(events)
    ensures Paired(events) ==> Size(h) == n
  {
    hide IsRenumbering;
    if Paired(events) {
      PairedWellFormed(events, r, n, h);
    }
    if WellFormed(h) {
      SameIds(events, r, n, h);
      forall p | 0 <= p < |events|
        ensures HasPartner(events, p)
      {
        PositionsUnique(h, p);
        var q := if h[p].CallEntry? then ReturnPos(h, h[p].id) else CallPos(h, h[p].id);
        assert events[q].id == events[p].id;
      }
    }
  }

  ghost predicate Occurs<I, O>(h: History<I, O>, id: int) {
    exists p :: 0 <= p < |h| && h[p].id == id
  }

  lemma SameIds<I, O>(events: seq<Event<I, O>>, r: seq<Event<I, O>>, n: nat, h: History<I, O>)
    requires IsRenumbering(events, r, n) && AreEntriesOf(h, r)
    ensures |h| == |events|
    ensures forall p :: 0 <= p < |h| ==> 0 <= h[p].id < n && (h[p].CallEntry? <==> events[p].CallEvent?)
    ensures forall p, q :: 0 <= p < |h| && 0 <= q < |h| ==> (h[p].id == h[q].id <==> events[p].id == events[q].id)
    ensures forall id :: 0 <= id < n ==> Occurs(h, id)
  {
    var keys, ids := Ids(events), Ids(r);
    forall p | 0 <= p < |h|
      ensures h[p].id == ids[p] && events[p].id == keys[p]
    {
    }
    forall p, q | 0 <= p < |h| && 0 <= q < |h|
      ensures h[p].id == h[q].id <==> events[p].id == events[q].id
    {
      assert p < q ==> (ids[p] == ids[q] <==> keys[p] == keys[q]);
      assert q < p ==> (ids[q] == ids[p] <==> keys[q] == keys[p]);
    }
    forall id | 0 <= id < n
      ensures Occurs(h, id)
    {
      assert id in ids;
      var p :| 0 <= p < |ids| && ids[p] == id;
      assert h[p].id == id;
    }
  }

  lemma PairedWellFormed<I, O>(events: seq<Event<I, O>>, r: seq<Event<I, O>>, n: nat, h: History<I, O>)
    requires IsRenumbering(events, r, n) && AreEntriesOf(h, r) && Paired(events)
    ensures WellFormed(h) && Size(h) == n
  {
    SameIds(events, r, n, h);
    assert forall p, q :: 0 <= p < q < |h| && h[p].id == h[q].id ==> h[p].CallEntry? && h[q].ReturnEntry?;
    forall id | 0 <= id < n
      ensures HasBoth(h, id)
    {
      PairedHasBoth(events, r, n, h, id);
    }
    hide IsRenumbering, AreEntriesOf, Paired;
    TwoPerId(h, n);
    assert forall id :: IsId(h, id) ==> HasBoth(h, id);
  }

  /** The call and the return with the id of an event. */
  lemma PairAt<I, O>(events: seq<Event<I, O>>, p: int) returns (c: int, d: int)
    requires Paired(events) && 0 <= p < |events|
    ensures 0 <= c < d < |events| && events[c].CallEvent? && events[d].ReturnEvent?
    ensures events[c].id == events[d].id == events[p].id
  {
    assert HasPartner(events, p);
    var q :| 0 <= q < |events| && q != p && events[q].id == events[p].id;
    c, d := if p < q then p else q, if p < q then q else p;
  }

  lemma PairedHasBoth<I, O>(events: seq<Event<I, O>>, r: seq<Event<I, O>>, n: nat, h: History<I, O>, id: int)
    requires IsRenumbering(events, r, n) && AreEntriesOf(h, r) && Paired(events) && 0 <= id < n
    ensures HasBoth(h, id)
  {
    SameIds(events, r, n, h);
    hide IsRenumbering, AreEntriesOf, Paired;
    assert Occurs(h, id);
    var p :| 0 <= p < |h| && h[p].id == id;
    var c, d := PairAt(events, p);
    assert IsCallOf(h, id, c) && IsReturnOf(h, id, d);
  }

  ghost predicate HasBoth<I, O>(h: History<I, O>, id: int) {
    (exists p :: IsCallOf(h, id, p)) && (exists p :: IsReturnOf(h, id, p))
  }

  /** A call and a return for each of `n` ids, and nothing else, are `2 * n` entries. */
  lemma TwoPerId<I, O>(h: History<I, O>, n: nat)
    requires forall p :: 0 <= p < |h| ==> 0 <= h[p].id < n
    requires forall p, q :: 0 <= p < q < |h| && h[p].id == h[q].id ==> h[p].CallEntry? && h[q].ReturnEntry?
    requires forall id :: 0 <= id < n ==> HasBoth(h, id)
    ensures |h| == 2 * n
  {
    var codes := seq(|h|, p requires 0 <= p < |h| => 2 * h[p].id + if h[p].CallEntry? then 0 else 1);
    DistinctBelow(codes, 2 * n);
    var places := Places(h, n);
    DistinctBelow(places, |h|);
  }

  /** The positions of the call and the return of every id below `n`. */
  lemma {:induction false} Places<I, O>(h: History<I, O>, n: nat) returns (s: seq<int>)
    requires forall id :: 0 <= id < n ==> HasBoth(h, id)
    ensures |s| == 2 * n && Distinct(s)
    ensures forall k :: 0 <= k < |s| ==> 0 <= s[k] < |h| && h[s[k]].id < n
  {
    if n == 0 {
      s := [];
    } else {
      var front := Places(h, n - 1);
      assert HasBoth(h, n - 1);
      var c :| IsCallOf(h, n - 1, c);
      var d :| IsReturnOf(h, n - 1, d);
      s := front + [c, d];
    }
  }

  // ---------- the verdict on the events is the verdict on the history ----------

  ghost predicate IsEventId<I, O>(events: seq<Event<I, O>>, id: int) {
    exists p :: 0 <= p < |events| && events[p].id == id
  }

  ghost predicate IsCallAt<I, O>(events: seq<Event<I, O>>, id: int, p: int) {
    0 <= p < |events| && events[p].CallEvent? && events[p].id == id
  }

  ghost predicate IsReturnAt<I, O>(events: seq<Event<I, O>>, id: int, p: int) {
    0 <= p < |events| && events[p].ReturnEvent? && events[p].id == id
  }

  lemma PairOf<I, O>(events: seq<Event<I, O>>, id: int)
    requires Paired(events) && IsEventId(events, id)
    ensures (exists c :: IsCallAt(events, id, c)) && (exists r :: IsReturnAt(events, id, r))
  {
    var p :| 0 <= p < |events| && events[p].id == id;
    var c, d := PairAt(events, p);
    assert IsCallAt(events, id, c) && IsReturnAt(events, id, d);
  }

  ghost function CallAt<I, O>(events: seq<Event<I, O>>, id: int): (p: int)
    requires Paired(events) && IsEventId(events, id)
    ensures IsCallAt(events, id, p)
  {
    PairOf(events, id);
    var p :| IsCallAt(events, id, p);
    p
  }

  ghost function ReturnAt<I, O>(events: seq<Event<I, O>>, id: int): (p: int)
    requires Paired(events) && IsEventId(events, id)
    ensures IsReturnAt(events, id, p)
  {
    PairOf(events, id);
    var p :| IsReturnAt(events, id, p);
    p
  }

  ghost predicate AllEventIds<I, O>(events: seq<Event<I, O>>, order: seq<int>) {
    forall k :: 0 <= k < |order| ==> IsEventId(events, order[k])
  }

  ghost function EventExchanges<I, O>(events: seq<Event<I, O>>, order: seq<int>): seq<(I, O)>
    requires Paired(events) && AllEventIds(events, order)
  {
    seq(|order|, k requires 0 <= k < |order| =>
      (events[CallAt(events, order[k])].input, events[ReturnAt(events, order[k])].output))
  }

  /** `order` lists every id once, none before one that returned before it was called, and the model accepts it. */
  ghost predicate IsEventOrder<S, I, O>(m: Model<S, I, O>, events: seq<Event<I, O>>, order: seq<int>)
    requires Paired(events)
  {
    && AllEventIds(events, order) && Distinct(order)
    && (forall id :: IsEventId(events, id) ==> id in order)
    && (forall i, j :: 0 <= i < j < |order| ==> !(ReturnAt(events, order[j]) < CallAt(events, order[i])))
    && Accepted(m, EventExchanges(events, order))
  }

  /** Events are linearizable under their own ids. */
  ghost predicate EventsLinearizable<S, I, O>(m: Model<S, I, O>, events: seq<Event<I, O>>)
    requires Paired(events)
  {
    exists order :: IsEventOrder(m, events, order)
  }

  /** The old id of an operation of the history. */
  ghost function OldId<I, O>(events: seq<Event<I, O>>, h: History<I, O>, a: int): int
    requires WellFormed(h) && IsId(h, a) && |events| == |h|
  {
    events[CallPos(h, a)].id
  }

  /** Old and new ids have their calls and returns at the same positions, with the same values. */
  lemma OldIdIs<I, O>(events: seq<Event<I, O>>, r: seq<Event<I, O>>, n: nat, h: History<I, O>, a: int)
    requires IsRenumbering(events, r, n) && AreEntriesOf(h, r) && Paired(events) && WellFormed(h) && IsId(h, a)
    ensures var id := OldId(events, h, a);
      && IsEventId(events, id) && CallAt(events, id) == CallPos(h, a) && ReturnAt(events, id) == ReturnPos(h, a)
      && events[CallAt(events, id)].input == InputOf(h, a) && events[ReturnAt(events, id)].output == OutputOf(h, a)
  {
    SameIds(events, r, n, h);
    var id := OldId(events, h, a);
    assert events[CallPos(h, a)].id == id;
    var c, d := CallAt(events, id), ReturnAt(events, id);
    assert h[c].id == a && h[d].id == a;
    PositionsUnique(h, c);
    PositionsUnique(h, d);
  }

  /** Every old id is that of an operation of the history. */
  lemma NewIdOf<I, O>(events: seq<Event<I, O>>, r: seq<Event<I, O>>, n: nat, h: History<I, O>, id: int) returns (a: int)
    requires IsRenumbering(events, r, n) && AreEntriesOf(h, r) && Paired(events) && WellFormed(h)
    requires IsEventId(events, id)
    ensures IsId(h, a) && OldId(events, h, a) == id
  {
    SameIds(events, r, n, h);
    var p :| 0 <= p < |events| && events[p].id == id;
    a := h[p].id;
    assert IsId(h, a);
    assert h[CallPos(h, a)].id == h[p].id;
  }

  /** The order under the old ids. */
  ghost function OldIds<I, O>(events: seq<Event<I, O>>, h: History<I, O>, s: seq<int>): seq<int>
    requires WellFormed(h) && AllIds(h, s) && |events| == |h|
  {
    seq(|s|, k requires 0 <= k < |s| => OldId(events, h, s[k]))
  }

  lemma OldIdsAre<I, O>(events: seq<Event<I, O>>, r: seq<Event<I, O>>, n: nat, h: History<I, O>, s: seq<int>)
    requires IsRenumbering(events, r, n) && AreEntriesOf(h, r) && Paired(events) && WellFormed(h) && AllIds(h, s)
    ensures AllEventIds(events, OldIds(events, h, s))
    ensures EventExchanges(events, OldIds(events, h, s)) == IdExchanges(h, s)
    ensures forall i, j :: 0 <= i < |s| && 0 <= j < |s| ==>
      (s[i] == s[j] <==> OldIds(events, h, s)[i] == OldIds(events, h, s)[j])
    ensures forall i, j :: 0 <= i < |s| && 0 <= j < |s| ==>
      (Precedes(h, s[j], s[i]) <==> ReturnAt(events, OldIds(events, h, s)[j]) < CallAt(events, OldIds(events, h, s)[i]))
  {
    var order := OldIds(events, h, s);
    forall k | 0 <= k < |s|
      ensures IsId(h, s[k]) && IsEventId(events, order[k])
      ensures CallAt(events, order[k]) == CallPos(h, s[k]) && ReturnAt(events, order[k]) == ReturnPos(h, s[k])
      ensures events[CallAt(events, order[k])].input == InputOf(h, s[k])
      ensures events[ReturnAt(events, order[k])].output == OutputOf(h, s[k])
    {
      OldIdIs(events, r, n, h, s[k]);
    }
  }

  /** Renumbering and conversion keep the verdict: paired events are linearizable, under their own ids, exactly
      when the history made of them is. */
  lemma RenumberingKeepsVerdict<S, I, O>(
    m: Model<S, I, O>, events: seq<Event<I, O>>, r: seq<Event<I, O>>, n: nat, h: History<I, O>)
    requires IsRenumbering(events, r, n) && AreEntriesOf(h, r) && Paired(events)
    ensures WellFormed(h) && (EventsLinearizable(m, events) <==> HistoryLinearizable(m, h))
  {
    RenumberedWellFormed(events, r, n, h);
    hide IsRenumbering, AreEntriesOf, Paired, WellFormed;
    if HistoryLinearizable(m, h) {
      var s :| IsComplete(m, h, s);
      CompleteGivesEventOrder(m, events, r, n, h, s);
    }
    if EventsLinearizable(m, events) {
      var order :| IsEventOrder(m, events, order);
      var s := EventOrderGivesComplete(m, events, r, n, h, order);
    }
  }

  lemma CompleteGivesEventOrder<S, I, O>(
    m: Model<S, I, O>, events: seq<Event<I, O>>, r: seq<Event<I, O>>, n: nat, h: History<I, O>, s: seq<int>)
    requires IsRenumbering(events, r, n) && AreEntriesOf(h, r) && Paired(events) && WellFormed(h) && IsComplete(m, h, s)
    ensures |events| == |h| && IsEventOrder(m, events, OldIds(events, h, s))
  {
    assert |events| == |h|;
    hide IsRenumbering, Paired, WellFormed, IsId, IsEventId;
    var order := OldIds(events, h, s);
    OldIdsAre(events, r, n, h, s);
    forall i, j | 0 <= i < j < |s|
      ensures !Precedes(h, s[j], s[i])
    {
      assert s[j] !in s[..i];
    }
    forall id | IsEventId(events, id)
      ensures id in order
    {
      var a := NewIdOf(events, r, n, h, id);
      assert a in s;
      var k :| 0 <= k < |s| && s[k] == a;
      assert order[k] == id;
    }
  }

  lemma EventOrderGivesComplete<S, I, O>(
    m: Model<S, I, O>, events: seq<Event<I, O>>, r: seq<Event<I, O>>, n: nat, h: History<I, O>, order: seq<int>)
    returns (s: seq<int>)
    requires IsRenumbering(events, r, n) && AreEntriesOf(h, r) && Paired(events) && WellFormed(h)
    requires IsEventOrder(m, events, order)
    ensures IsComplete(m, h, s)
  {
    s := NewIds(events, r, n, h, order);
    hide IsRenumbering, AreEntriesOf, Paired, WellFormed, IsId, IsEventId, Covers, TimeClosed;
    NewIdsCover(events, r, n, h, order, s);
    NewIdsInOrder(m, events, r, n, h, order, s);
    PairwiseIsClosed(h, s);
  }

  lemma NewIdsInOrder<S, I, O>(
    m: Model<S, I, O>, events: seq<Event<I, O>>, r: seq<Event<I, O>>, n: nat, h: History<I, O>, order: seq<int>,
    s: seq<int>)
    requires IsRenumbering(events, r, n) && AreEntriesOf(h, r) && Paired(events) && WellFormed(h)
    requires |events| == |h| && AllIds(h, s) && OldIds(events, h, s) == order && IsEventOrder(m, events, order)
    ensures Distinct(s) && Accepted(m, IdExchanges(h, s))
    ensures forall i, j :: 0 <= i < j < |s| ==> !Precedes(h, s[j], s[i])
  {
    hide IsRenumbering, AreEntriesOf, Paired, WellFormed, IsId, IsEventId, Precedes, Accepted;
    OldIdsAre(events, r, n, h, s);
  }

  /** An order that lists every old id lists every operation of the history. */
  lemma NewIdsCover<I, O>(
    events: seq<Event<I, O>>, r: seq<Event<I, O>>, n: nat, h: History<I, O>, order: seq<int>, s: seq<int>)
    requires IsRenumbering(events, r, n) && AreEntriesOf(h, r) && Paired(events) && WellFormed(h)
    requires |events| == |h| && AllIds(h, s) && OldIds(events, h, s) == order
    requires forall id :: IsEventId(events, id) ==> id in order
    ensures Covers(h, s)
  {
    hide IsRenumbering, AreEntriesOf, Paired, WellFormed, IsId, IsEventId;
    forall id | IsId(h, id)
      ensures id in s
    {
      OldIdIs(events, r, n, h, id);
      var was := OldId(events, h, id);
      assert was in order;
      var k :| 0 <= k < |order| && order[k] == was;
      OldIdInjective(events, r, n, h, s[k], id);
    }
  }

  lemma {:induction false} NewIds<I, O>(
    events: seq<Event<I, O>>, r: seq<Event<I, O>>, n: nat, h: History<I, O>, order: seq<int>)
    returns (s: seq<int>)
    requires IsRenumbering(events, r, n) && AreEntriesOf(h, r) && Paired(events) && WellFormed(h)
    requires AllEventIds(events, order)
    ensures AllIds(h, s) && |events| == |h| && OldIds(events, h, s) == order
  {
    if order == [] {
      s := [];
    } else {
      var front, last := order[..|order| - 1], order[|order| - 1];
      assert AllEventIds(events, front);
      var t := NewIds(events, r, n, h, front);
      var a := NewIdOf(events, r, n, h, last);
      s := t + [a];
      hide IsRenumbering, AreEntriesOf, Paired, WellFormed, IsId, IsEventId;
      assert OldIds(events, h, s) == OldIds(events, h, t) + [last];
    }
  }

  lemma OldIdInjective<I, O>(events: seq<Event<I, O>>, r: seq<Event<I, O>>, n: nat, h: History<I, O>, a: int, b: int)
    requires IsRenumbering(events, r, n) && AreEntriesOf(h, r) && WellFormed(h) && IsId(h, a) && IsId(h, b)
    requires |events| == |h| && OldId(events, h, a) == OldId(events, h, b)
    ensures a == b
  {
    SameIds(events, r, n, h);
  }

  /** When everything is listed, none before one that precedes it, then what precedes an operation is listed
      before it. */
  lemma PairwiseIsClosed<I, O>(h: History<I, O>, s: seq<int>)
    requires WellFormed(h) && AllIds(h, s) && Covers(h, s)
    requires forall i, j :: 0 <= i < j < |s| ==> !Precedes(h, s[j], s[i])
    ensures TimeClosed(h, s)
  {
    forall k, b | 0 <= k < |s| && IsId(h, b) && Precedes(h, b, s[k])
      ensures b in s[..k]
    {
      assert b in s && IsId(h, s[k]);
      var j :| 0 <= j < |s| && s[j] == b;
      PositionsUnique(h, CallPos(h, b));
      assert j != k;
    }
  }
}
