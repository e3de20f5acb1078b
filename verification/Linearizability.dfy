/** What it means for a concurrent history to be linearizable: operations with invocation and
    response times, and the same operations as a sequence of call and return entries. */
module Linearizability {

  datatype Option<+T> = None | Some(value: T)

  /** A sequential specification. `step` says whether the system could answer an input with an
      output in a state, and the state that follows; `equal` compares states. */
  datatype Model<!S, !I, !O> = Model(init: S, step: (S, I, O) -> (bool, S), equal: (S, S) -> bool)

  /** `equal` is an equivalence that `step` respects. */
  ghost predicate GoodModel<S(!new), I(!new), O(!new)>(m: Model<S, I, O>) {
    && (forall s :: m.equal(s, s))
    && (forall s, t :: m.equal(s, t) ==> m.equal(t, s))
    && (forall s, t, u :: m.equal(s, t) && m.equal(t, u) ==> m.equal(s, u))
    && (forall s, t, i, o :: m.equal(s, t) ==> SameStep(m, s, t, i, o))
  }

  ghost predicate SameStep<S, I, O>(m: Model<S, I, O>, s: S, t: S, i: I, o: O) {
    && m.step(s, i, o).0 == m.step(t, i, o).0
    && (m.step(s, i, o).0 ==> m.equal(m.step(s, i, o).1, m.step(t, i, o).1))
  }

  /** The state after a sequence of (input, output) exchanges, from the initial state. */
  function After<S, I, O>(m: Model<S, I, O>, xs: seq<(I, O)>): S {
    if xs == [] then m.init
    else
      var last := xs[|xs| - 1];
      m.step(After(m, xs[..|xs| - 1]), last.0, last.1).1
  }

  /** Every exchange is one the model could make. */
  predicate Accepted<S, I, O>(m: Model<S, I, O>, xs: seq<(I, O)>) {
    xs == [] ||
    (var last := xs[|xs| - 1];
     && Accepted(m, xs[..|xs| - 1])
     && m.step(After(m, xs[..|xs| - 1]), last.0, last.1).0)
  }

  // ---------- operations with timestamps ----------

  datatype Operation<I, O> = Operation(clientId: int, input: I, call: int, output: O, ret: int)

  function Exchanges<I, O>(ops: seq<Operation<I, O>>): seq<(I, O)> {
    seq(|ops|, k requires 0 <= k < |ops| => (ops[k].input, ops[k].output))
  }

  /** No operation comes before one that had returned before it was called. */
  ghost predicate RespectsTime<I, O>(ops: seq<Operation<I, O>>) {
    forall i, j :: 0 <= i < j < |ops| ==> !(ops[j].ret < ops[i].call)
  }

  /** `order` holds exactly the operations of `ops`, in an order that time allows and the model accepts. */
  ghost predicate IsLinearization<S, I, O>(m: Model<S, I, O>, ops: seq<Operation<I, O>>, order: seq<Operation<I, O>>) {
    && multiset(order) == multiset(ops)
    && RespectsTime(order)
    && Accepted(m, Exchanges(order))
  }

  ghost predicate Linearizable<S(!new), I(!new), O(!new)>(m: Model<S, I, O>, ops: seq<Operation<I, O>>) {
    exists order :: IsLinearization(m, ops, order)
  }

  // ---------- call and return entries ----------

  datatype Entry<I, O> =
    | CallEntry(input: I, id: int, time: int, clientId: int)
    | ReturnEntry(output: O, id: int, time: int, clientId: int)

  type History<I, O> = seq<Entry<I, O>>

  /** The number of operations in a history. */
  function Size<I, O>(h: History<I, O>): nat {
    |h| / 2
  }

  ghost predicate IsId<I, O>(h: History<I, O>, id: int) {
    0 <= id < Size(h)
  }

  ghost predicate IsCallOf<I, O>(h: History<I, O>, id: int, p: int) {
    0 <= p < |h| && h[p].CallEntry? && h[p].id == id
  }

  ghost predicate IsReturnOf<I, O>(h: History<I, O>, id: int, p: int) {
    0 <= p < |h| && h[p].ReturnEntry? && h[p].id == id
  }

  /** Every id below `Size(h)` has one call and, later, one return; there is nothing else. */
  ghost predicate WellFormed<I, O>(h: History<I, O>) {
    && |h| % 2 == 0
    && (forall p :: 0 <= p < |h| ==> 0 <= h[p].id < Size(h))
    && (forall p, q :: 0 <= p < q < |h| && h[p].id == h[q].id ==> h[p].CallEntry? && h[q].ReturnEntry?)
    && (forall id :: IsId(h, id) ==> exists p :: IsCallOf(h, id, p))
    && (forall id :: IsId(h, id) ==> exists p :: IsReturnOf(h, id, p))
  }

  ghost function CallPos<I, O>(h: History<I, O>, id: int): (p: int)
    requires WellFormed(h) && IsId(h, id)
    ensures IsCallOf(h, id, p)
  {
    var p :| IsCallOf(h, id, p);
    p
  }

  ghost function ReturnPos<I, O>(h: History<I, O>, id: int): (p: int)
    requires WellFormed(h) && IsId(h, id)
    ensures IsReturnOf(h, id, p)
  {
    var p :| IsReturnOf(h, id, p);
    p
  }

  lemma PositionsUnique<I, O>(h: History<I, O>, p: int)
    requires WellFormed(h) && 0 <= p < |h|
    ensures h[p].CallEntry? ==> p == CallPos(h, h[p].id)
    ensures h[p].ReturnEntry? ==> p == ReturnPos(h, h[p].id)
    ensures CallPos(h, h[p].id) < ReturnPos(h, h[p].id)
  {
  }

  ghost function InputOf<I, O>(h: History<I, O>, id: int): I
    requires WellFormed(h) && IsId(h, id)
  {
    h[CallPos(h, id)].input
  }

  ghost function OutputOf<I, O>(h: History<I, O>, id: int): O
    requires WellFormed(h) && IsId(h, id)
  {
    h[ReturnPos(h, id)].output
  }

  /** Operation `a` returned before operation `b` was called. */
  ghost predicate Precedes<I, O>(h: History<I, O>, a: int, b: int)
    requires WellFormed(h) && IsId(h, a) && IsId(h, b)
  {
    ReturnPos(h, a) < CallPos(h, b)
  }

  ghost predicate AllIds<I, O>(h: History<I, O>, s: seq<int>) {
    forall k :: 0 <= k < |s| ==> IsId(h, s[k])
  }

  ghost function IdExchanges<I, O>(h: History<I, O>, s: seq<int>): seq<(I, O)>
    requires WellFormed(h) && AllIds(h, s)
  {
    seq(|s|, k requires 0 <= k < |s| => (InputOf(h, s[k]), OutputOf(h, s[k])))
  }

  ghost function StateAfter<S, I, O>(m: Model<S, I, O>, h: History<I, O>, s: seq<int>): S
    requires WellFormed(h) && AllIds(h, s)
  {
    After(m, IdExchanges(h, s))
  }

  predicate Distinct<T(==)>(s: seq<T>) {
    forall i, j :: 0 <= i < j < |s| ==> s[i] != s[j]
  }

  /** What must have been linearized before an operation is: everything that returned before its call. */
  ghost predicate TimeClosed<I, O>(h: History<I, O>, s: seq<int>)
    requires WellFormed(h) && AllIds(h, s)
  {
    forall k, b :: 0 <= k < |s| && IsId(h, b) && Precedes(h, b, s[k]) ==> b in s[..k]
  }

  /** A valid partial linearization, as a sequence of ids. */
  ghost predicate IsPartial<S, I, O>(m: Model<S, I, O>, h: History<I, O>, s: seq<int>)
    requires WellFormed(h)
  {
    && AllIds(h, s)
    && Distinct(s)
    && TimeClosed(h, s)
    && Accepted(m, IdExchanges(h, s))
  }

  ghost predicate Covers<I, O>(h: History<I, O>, s: seq<int>) {
    forall id :: IsId(h, id) ==> id in s
  }

  /** A complete linearization: a permutation of all the ids that time allows and the model accepts. */
  ghost predicate IsComplete<S, I, O>(m: Model<S, I, O>, h: History<I, O>, s: seq<int>)
    requires WellFormed(h)
  {
    IsPartial(m, h, s) && Covers(h, s)
  }

  ghost predicate HistoryLinearizable<S, I, O>(m: Model<S, I, O>, h: History<I, O>)
    requires WellFormed(h)
  {
    exists s :: IsComplete(m, h, s)
  }

  // ---------- growing a partial linearization by one operation ----------

  ghost function Elems(s: seq<int>): set<int> {
    set x | x in s
  }

  /** `a` is not done and everything that returned before its call is. */
  ghost predicate Eligible<I, O>(h: History<I, O>, done: set<int>, a: int)
    requires WellFormed(h)
  {
    && IsId(h, a)
    && a !in done
    && forall b :: IsId(h, b) && Precedes(h, b, a) ==> b in done
  }

  ghost function StepFrom<S, I, O>(m: Model<S, I, O>, h: History<I, O>, s: seq<int>, a: int): (bool, S)
    requires WellFormed(h) && AllIds(h, s) && IsId(h, a)
  {
    m.step(StateAfter(m, h, s), InputOf(h, a), OutputOf(h, a))
  }

  lemma StateAfterSnoc<S, I, O>(m: Model<S, I, O>, h: History<I, O>, s: seq<int>, a: int)
    requires WellFormed(h) && AllIds(h, s) && IsId(h, a)
    ensures AllIds(h, s + [a])
    ensures StateAfter(m, h, s + [a]) == StepFrom(m, h, s, a).1
    ensures Accepted(m, IdExchanges(h, s + [a])) <==> Accepted(m, IdExchanges(h, s)) && StepFrom(m, h, s, a).0
  {
    var xs := IdExchanges(h, s + [a]);
    assert xs[..|xs| - 1] == IdExchanges(h, s);
  }

  lemma ElemsSnoc(s: seq<int>, a: int)
    ensures Elems(s + [a]) == Elems(s) + {a}
  {
  }

  lemma PartialShrinks<S, I, O>(m: Model<S, I, O>, h: History<I, O>, s: seq<int>, a: int)
    requires WellFormed(h) && IsPartial(m, h, s + [a])
    ensures IsPartial(m, h, s) && Eligible(h, Elems(s), a) && StepFrom(m, h, s, a).0
  {
    hide WellFormed, Accepted, IdExchanges, StateAfter, StepFrom, Precedes, IsId;
    var t := s + [a];
    assert t[..|s|] == s && t[|s|] == a;
    assert forall k :: 0 <= k < |s| ==> t[k] == s[k] && t[..k] == s[..k];
    StateAfterSnoc(m, h, s, a);
    forall b | IsId(h, b) && Precedes(h, b, a)
      ensures b in Elems(s)
    {
      assert Precedes(h, b, t[|s|]);
    }
  }

  lemma PartialGrows<S, I, O>(m: Model<S, I, O>, h: History<I, O>, s: seq<int>, a: int)
    requires WellFormed(h) && IsPartial(m, h, s) && Eligible(h, Elems(s), a) && StepFrom(m, h, s, a).0
    ensures IsPartial(m, h, s + [a])
  {
    hide WellFormed, Accepted, IdExchanges, StateAfter, StepFrom, Precedes, IsId;
    var t := s + [a];
    StateAfterSnoc(m, h, s, a);
    forall k, b | 0 <= k < |t| && IsId(h, b) && Precedes(h, b, t[k])
      ensures b in t[..k]
    {
      if k < |s| {
        assert t[k] == s[k] && t[..k] == s[..k];
      } else {
        assert t[k] == a && t[..k] == s && b in Elems(s);
      }
    }
  }

  /** A partial linearization grows exactly by an eligible operation that the model accepts next. */
  lemma PartialSnoc<S, I, O>(m: Model<S, I, O>, h: History<I, O>, s: seq<int>, a: int)
    requires WellFormed(h)
    ensures IsPartial(m, h, s + [a]) <==> IsPartial(m, h, s) && Eligible(h, Elems(s), a) && StepFrom(m, h, s, a).0
  {
    hide StepFrom;
    if IsPartial(m, h, s + [a]) {
      PartialShrinks(m, h, s, a);
    } else if IsPartial(m, h, s) && Eligible(h, Elems(s), a) && StepFrom(m, h, s, a).0 {
      PartialGrows(m, h, s, a);
    }
  }

  lemma {:induction false} DistinctSize(s: seq<int>)
    requires Distinct(s)
    ensures |Elems(s)| == |s|
  {
    if s != [] {
      var front, last := s[..|s| - 1], s[|s| - 1];
      assert s == front + [last];
      DistinctSize(front);
      ElemsSnoc(front, last);
      assert last !in front;
    }
  }
}
