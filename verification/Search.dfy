/** What the depth-first search of the checker knows at each of its steps, on values alone.
    `visited` holds the sequences of ids that were ever on the stack (the empty one included);
    `at` is the position of the cursor in the history. */
module Search {
  import opened FiniteSets
  import opened Linearizability

  // ---------- what pruning relies on ----------

  /** The same operations done, and states the model cannot tell apart. */
  ghost predicate SameOutcome<S, I, O>(m: Model<S, I, O>, h: History<I, O>, u: seq<int>, w: seq<int>)
    requires WellFormed(h)
  {
    && AllIds(h, u) && AllIds(h, w)
    && Elems(u) == Elems(w)
    && m.equal(StateAfter(m, h, u), StateAfter(m, h, w))
  }

  ghost predicate Reached<S, I, O>(m: Model<S, I, O>, h: History<I, O>, visited: set<seq<int>>, u: seq<int>)
    requires WellFormed(h)
  {
    exists w :: w in visited && SameOutcome(m, h, u, w)
  }

  /** Every possible next operation of `v` whose call is before `bound` leads to something reached. */
  ghost predicate Closed<S, I, O>(m: Model<S, I, O>, h: History<I, O>, visited: set<seq<int>>, v: seq<int>, bound: int)
    requires WellFormed(h) && AllIds(h, v)
  {
    forall a :: Eligible(h, Elems(v), a) && CallPos(h, a) < bound && StepFrom(m, h, v, a).0 ==>
      Reached(m, h, visited, v + [a])
  }

  /** How far the calls after `v` have been tried: up to the call taken next on the stack, up to the
      cursor at the top of the stack, and all of them below a sequence that was popped. */
  ghost function Bound<I, O>(h: History<I, O>, stack: seq<int>, at: int, v: seq<int>): int
    requires WellFormed(h) && AllIds(h, stack)
  {
    if v == stack then at
    else if v < stack then CallPos(h, stack[|v|])
    else |h|
  }

  ghost predicate AllPartial<S, I, O>(m: Model<S, I, O>, h: History<I, O>, visited: set<seq<int>>)
    requires WellFormed(h)
  {
    forall v :: v in visited ==> IsPartial(m, h, v)
  }

  ghost predicate AllClosed<S, I, O>(
    m: Model<S, I, O>, h: History<I, O>, visited: set<seq<int>>, stack: seq<int>, at: int)
    requires WellFormed(h) && AllIds(h, stack) && AllPartial(m, h, visited)
  {
    forall v :: v in visited ==> Closed(m, h, visited, v, Bound(h, stack, at, v))
  }

  ghost predicate NoReturnBefore<I, O>(h: History<I, O>, done: set<int>, at: int)
    requires WellFormed(h)
  {
    forall b :: IsId(h, b) && ReturnPos(h, b) < at ==> b in done
  }

  /** The invariant of the search. */
  ghost predicate Explored<S, I, O>(
    m: Model<S, I, O>, h: History<I, O>, visited: set<seq<int>>, stack: seq<int>, at: int)
    requires WellFormed(h)
  {
    && 0 <= at <= |h|
    && IsPartial(m, h, stack)
    && (forall v :: v <= stack ==> v in visited)
    && AllPartial(m, h, visited)
    && AllClosed(m, h, visited, stack, at)
    && (forall v :: v in visited && Covers(h, v) ==> Covers(h, stack))
    && NoReturnBefore(h, Elems(stack), at)
  }

  /** Between two positions of the linked list everything has been lifted out. */
  ghost predicate LiftedBetween<I, O>(h: History<I, O>, done: set<int>, from: int, to: int) {
    forall p :: from < p < to && 0 <= p < |h| ==> h[p].id in done
  }

  lemma LiftedNotEligible<I, O>(h: History<I, O>, done: set<int>, from: int, to: int, x: int)
    requires WellFormed(h) && LiftedBetween(h, done, from, to) && Eligible(h, done, x)
    ensures !(from < CallPos(h, x) < to)
  {
  }

  lemma LiftedReturn<I, O>(h: History<I, O>, done: set<int>, from: int, to: int, x: int)
    requires WellFormed(h) && LiftedBetween(h, done, from, to) && IsId(h, x)
    ensures from < ReturnPos(h, x) < to ==> x in done
  {
  }

  lemma PrefixSnoc(v: seq<int>, stack: seq<int>, a: int)
    ensures v <= stack + [a] <==> v <= stack || v == stack + [a]
  {
    if v <= stack + [a] && |v| <= |stack| {
      assert v == (stack + [a])[..|v|] == stack[..|v|];
    }
  }

  lemma ClosedMonotone<S, I, O>(
    m: Model<S, I, O>, h: History<I, O>, visited: set<seq<int>>, more: set<seq<int>>, v: seq<int>, bound: int)
    requires WellFormed(h) && AllIds(h, v) && visited <= more && Closed(m, h, visited, v, bound)
    ensures Closed(m, h, more, v, bound)
  {
    hide WellFormed, SameOutcome, StepFrom;
    forall a | Eligible(h, Elems(v), a) && CallPos(h, a) < bound && StepFrom(m, h, v, a).0
      ensures Reached(m, h, more, v + [a])
    {
      var w :| w in visited && SameOutcome(m, h, v + [a], w);
      assert w in more;
    }
  }

  lemma ExploredIds<S, I, O>(m: Model<S, I, O>, h: History<I, O>, visited: set<seq<int>>, stack: seq<int>, at: int)
    requires WellFormed(h) && Explored(m, h, visited, stack, at)
    ensures 0 <= at <= |h| && AllIds(h, stack) && Distinct(stack)
  {
  }

  lemma TopClosed<S, I, O>(m: Model<S, I, O>, h: History<I, O>, visited: set<seq<int>>, stack: seq<int>, at: int)
    requires WellFormed(h) && Explored(m, h, visited, stack, at)
    ensures stack in visited && Closed(m, h, visited, stack, at)
  {
    PartialIsIds(m, h, stack);
    hide WellFormed, Closed, IsPartial, NoReturnBefore, Covers;
    assert stack <= stack;
    assert Bound(h, stack, at, stack) == at;
  }

  // ---------- the start and the three moves ----------

  lemma StartExplored<S, I, O>(m: Model<S, I, O>, h: History<I, O>)
    requires WellFormed(h)
    ensures Explored(m, h, {[]}, [], 0)
  {
    var visited: set<seq<int>> := {[]};
    assert Closed(m, h, visited, [], 0);
  }

  /** The cursor leaves a call that the model refuses, or whose outcome has been reached before. */
  lemma SkipKeeps<S, I, O>(
    m: Model<S, I, O>, h: History<I, O>, visited: set<seq<int>>, stack: seq<int>, at: int, next: int)
    requires WellFormed(h) && Explored(m, h, visited, stack, at)
    requires at < next <= |h| && h[at].CallEntry? && LiftedBetween(h, Elems(stack), at, next)
    requires IsId(h, h[at].id)
    requires !StepFrom(m, h, stack, h[at].id).0 || Reached(m, h, visited, stack + [h[at].id])
    ensures Explored(m, h, visited, stack, next)
  {
    hide Closed, Covers, IsPartial, StepFrom, Reached, AllClosed, WellFormed, NoReturnBefore, LiftedBetween;
    TopClosed(m, h, visited, stack, at);
    ExploredIds(m, h, visited, stack, at);
    SkipCloses(m, h, visited, stack, at, next);
    SkipAllClosed(m, h, visited, stack, at, next);
    SkipNoReturn(h, Elems(stack), at, next);
  }

  lemma SkipNoReturn<I, O>(h: History<I, O>, done: set<int>, at: int, next: int)
    requires WellFormed(h) && NoReturnBefore(h, done, at) && LiftedBetween(h, done, at, next)
    requires 0 <= at < |h| && h[at].CallEntry?
    ensures NoReturnBefore(h, done, next)
  {
    PositionsUnique(h, at);
    forall b | IsId(h, b) && ReturnPos(h, b) < next
      ensures b in done
    {
      LiftedReturn(h, done, at, next, b);
    }
  }

  lemma SkipAllClosed<S, I, O>(
    m: Model<S, I, O>, h: History<I, O>, visited: set<seq<int>>, stack: seq<int>, at: int, next: int)
    requires WellFormed(h) && AllIds(h, stack) && AllPartial(m, h, visited) && AllClosed(m, h, visited, stack, at)
    requires Closed(m, h, visited, stack, next)
    ensures AllClosed(m, h, visited, stack, next)
  {
    hide WellFormed, Closed;
    forall v | v in visited
      ensures Closed(m, h, visited, v, Bound(h, stack, next, v))
    {
      assert v != stack ==> Bound(h, stack, next, v) == Bound(h, stack, at, v);
    }
  }

  lemma SkipCloses<S, I, O>(
    m: Model<S, I, O>, h: History<I, O>, visited: set<seq<int>>, stack: seq<int>, at: int, next: int)
    requires WellFormed(h) && AllIds(h, stack) && 0 <= at < next <= |h|
    requires Closed(m, h, visited, stack, at)
    requires h[at].CallEntry? && LiftedBetween(h, Elems(stack), at, next)
    requires IsId(h, h[at].id)
    requires !StepFrom(m, h, stack, h[at].id).0 || Reached(m, h, visited, stack + [h[at].id])
    ensures Closed(m, h, visited, stack, next)
  {
    hide WellFormed, LiftedBetween, StepFrom, Reached;
    forall x | Eligible(h, Elems(stack), x) && CallPos(h, x) < next && StepFrom(m, h, stack, x).0
      ensures Reached(m, h, visited, stack + [x])
    {
      LiftedNotEligible(h, Elems(stack), at, next, x);
    }
  }

  /** The cursor's call is linearized next: it goes on the stack and the cursor back to the first entry left. */
  lemma PushKeeps<S, I, O>(
    m: Model<S, I, O>, h: History<I, O>, visited: set<seq<int>>, stack: seq<int>, at: int, next: int)
    requires WellFormed(h) && Explored(m, h, visited, stack, at)
    requires at < |h| && h[at].CallEntry? && IsId(h, h[at].id) && h[at].id !in stack
    requires StepFrom(m, h, stack, h[at].id).0
    requires 0 <= next <= |h| && LiftedBetween(h, Elems(stack + [h[at].id]), -1, next)
    ensures Explored(m, h, visited + {stack + [h[at].id]}, stack + [h[at].id], next)
  {
    hide Closed, Covers, IsPartial, StepFrom, AllClosed, WellFormed, NoReturnBefore, LiftedBetween, Eligible, IsId;
    hide Elems;
    var a := h[at].id;
    ExploredIds(m, h, visited, stack, at);
    TopClosed(m, h, visited, stack, at);
    CursorIsEligible(h, stack, at);
    PartialSnoc(m, h, stack, a);
    PushPrefixes(visited, stack, a);
    PushAllClosed(m, h, visited, stack, at, a, next);
    NotCovered(h, stack, at);
    FrontNoReturn(h, Elems(stack + [a]), next);
  }

  lemma CursorIsEligible<I, O>(h: History<I, O>, stack: seq<int>, at: int)
    requires WellFormed(h) && 0 <= at < |h| && h[at].CallEntry? && h[at].id !in stack
    requires NoReturnBefore(h, Elems(stack), at)
    ensures Eligible(h, Elems(stack), h[at].id) && CallPos(h, h[at].id) == at
  {
    PositionsUnique(h, at);
  }

  /** An operation whose entry remains is not done. */
  lemma NotCovered<I, O>(h: History<I, O>, stack: seq<int>, at: int)
    requires WellFormed(h) && 0 <= at < |h| && h[at].id !in stack
    ensures IsId(h, h[at].id) && !Covers(h, stack)
  {
  }

  lemma PushPrefixes(visited: set<seq<int>>, stack: seq<int>, a: int)
    requires forall v :: v <= stack ==> v in visited
    ensures forall v :: v <= stack + [a] ==> v in visited + {stack + [a]}
  {
    forall v | v <= stack + [a]
      ensures v in visited + {stack + [a]}
    {
      PrefixSnoc(v, stack, a);
    }
  }

  lemma FrontNoReturn<I, O>(h: History<I, O>, done: set<int>, next: int)
    requires WellFormed(h) && LiftedBetween(h, done, -1, next)
    ensures NoReturnBefore(h, done, next)
  {
    forall b | IsId(h, b) && ReturnPos(h, b) < next
      ensures b in done
    {
      LiftedReturn(h, done, -1, next, b);
    }
  }

  lemma PushAllClosed<S, I, O>(
    m: Model<S, I, O>, h: History<I, O>, visited: set<seq<int>>, stack: seq<int>, at: int, a: int, next: int)
    requires WellFormed(h) && AllIds(h, stack) && AllPartial(m, h, visited) && AllClosed(m, h, visited, stack, at)
    requires IsPartial(m, h, stack + [a]) && IsId(h, a) && CallPos(h, a) == at
    requires LiftedBetween(h, Elems(stack + [a]), -1, next)
    ensures AllPartial(m, h, visited + {stack + [a]})
    ensures AllClosed(m, h, visited + {stack + [a]}, stack + [a], next)
  {
    var top, more := stack + [a], visited + {stack + [a]};
    FirstEntryCloses(m, h, more, top, next);
    assert AllIds(h, top);
    hide WellFormed, Closed, IsPartial, LiftedBetween;
    assert AllPartial(m, h, more);
    forall v | v in more
      ensures Closed(m, h, more, v, Bound(h, top, next, v))
    {
      if v != top {
        PushBound(h, stack, at, a, next, v);
        PartialIsIds(m, h, v);
        ClosedMonotone(m, h, visited, more, v, Bound(h, stack, at, v));
      }
    }
  }

  lemma PartialIsIds<S, I, O>(m: Model<S, I, O>, h: History<I, O>, v: seq<int>)
    requires WellFormed(h) && IsPartial(m, h, v)
    ensures AllIds(h, v)
  {
  }

  lemma PushBound<I, O>(h: History<I, O>, stack: seq<int>, at: int, a: int, next: int, v: seq<int>)
    requires WellFormed(h) && AllIds(h, stack) && IsId(h, a) && CallPos(h, a) == at && v != stack + [a]
    ensures AllIds(h, stack + [a]) && Bound(h, stack + [a], next, v) == Bound(h, stack, at, v)
  {
    hide WellFormed, IsId;
    PrefixSnoc(v, stack, a);
    assert v < stack ==> (stack + [a])[|v|] == stack[|v|];
    assert (stack + [a])[|stack|] == a;
  }

  lemma FirstEntryCloses<S, I, O>(
    m: Model<S, I, O>, h: History<I, O>, visited: set<seq<int>>, stack: seq<int>, next: int)
    requires WellFormed(h) && AllIds(h, stack) && LiftedBetween(h, Elems(stack), -1, next)
    ensures Closed(m, h, visited, stack, next)
  {
    forall x | Eligible(h, Elems(stack), x)
      ensures next <= CallPos(h, x)
    {
      LiftedNotEligible(h, Elems(stack), -1, next, x);
    }
  }

  /** The cursor has met a return: no later call can be linearized next, so the top of the stack is done. */
  lemma PopKeeps<S(!new), I(!new), O(!new)>(
    m: Model<S, I, O>, h: History<I, O>, visited: set<seq<int>>, stack: seq<int>, a: int, at: int, next: int)
    requires GoodModel(m) && WellFormed(h) && Explored(m, h, visited, stack + [a], at)
    requires at < |h| && h[at].ReturnEntry? && h[at].id !in stack + [a]
    requires IsId(h, a) && CallPos(h, a) < next <= |h| && LiftedBetween(h, Elems(stack), CallPos(h, a), next)
    ensures Explored(m, h, visited, stack, next)
  {
    hide Closed, Covers, IsPartial, StepFrom, AllClosed, WellFormed, NoReturnBefore, LiftedBetween, Eligible, IsId;
    hide Elems;
    var top := stack + [a];
    ExploredIds(m, h, visited, top, at);
    PartialSnoc(m, h, stack, a);
    TopClosed(m, h, visited, top, at);
    ReturnCloses(m, h, visited, top, at);
    NotCovered(h, top, at);
    PopPrefixes(visited, stack, a);
    PopAllClosed(m, h, visited, stack, a, at, next);
    PopNoReturn(h, Elems(stack), a, next);
  }

  lemma PopPrefixes(visited: set<seq<int>>, stack: seq<int>, a: int)
    requires forall v :: v <= stack + [a] ==> v in visited
    ensures forall v :: v <= stack ==> v in visited
    ensures stack in visited && stack + [a] in visited
  {
    assert stack + [a] <= stack + [a];
    forall v | v <= stack
      ensures v in visited
    {
      PrefixSnoc(v, stack, a);
    }
    assert stack <= stack;
  }

  lemma PopNoReturn<I, O>(h: History<I, O>, done: set<int>, a: int, next: int)
    requires WellFormed(h) && Eligible(h, done, a) && LiftedBetween(h, done, CallPos(h, a), next)
    ensures NoReturnBefore(h, done, next)
  {
    forall b | IsId(h, b) && ReturnPos(h, b) < next
      ensures b in done
    {
      LiftedReturn(h, done, CallPos(h, a), next, b);
      assert ReturnPos(h, b) < CallPos(h, a) ==> Precedes(h, b, a);
      assert ReturnPos(h, b) != CallPos(h, a);
    }
  }

  lemma PopAllClosed<S(!new), I(!new), O(!new)>(
    m: Model<S, I, O>, h: History<I, O>, visited: set<seq<int>>, stack: seq<int>, a: int, at: int, next: int)
    requires GoodModel(m) && WellFormed(h) && AllPartial(m, h, visited) && IsId(h, a)
    requires IsPartial(m, h, stack) && IsPartial(m, h, stack + [a]) && stack in visited && stack + [a] in visited
    requires AllClosed(m, h, visited, stack + [a], at) && Closed(m, h, visited, stack + [a], |h|)
    requires LiftedBetween(h, Elems(stack), CallPos(h, a), next)
    ensures AllClosed(m, h, visited, stack, next)
  {
    var top := stack + [a];
    hide WellFormed, Closed, LiftedBetween, IsId;
    assert stack < top && top[|stack|] == a;
    assert SameOutcome(m, h, top, top);
    PartialIsIds(m, h, stack);
    assert Bound(h, top, at, stack) == CallPos(h, a);
    PopCloses(m, h, visited, stack, a, next);
    hide IsPartial;
    forall v | v in visited
      ensures Closed(m, h, visited, v, Bound(h, stack, next, v))
    {
      assert IsPartial(m, h, v);
      if v == top {
        assert Bound(h, stack, next, v) == |h|;
      } else if v != stack {
        PushBound(h, stack, CallPos(h, a), a, at, v);
        assert Bound(h, stack, next, v) == Bound(h, stack, CallPos(h, a), v);
      }
    }
  }

  lemma ReturnCloses<S, I, O>(m: Model<S, I, O>, h: History<I, O>, visited: set<seq<int>>, v: seq<int>, at: int)
    requires WellFormed(h) && AllIds(h, v) && 0 <= at < |h| && h[at].ReturnEntry? && h[at].id !in v
    requires Closed(m, h, visited, v, at)
    ensures Closed(m, h, visited, v, |h|)
  {
    PositionsUnique(h, at);
    hide StepFrom, Reached;
    forall x | Eligible(h, Elems(v), x)
      ensures CallPos(h, x) < at
    {
      assert Precedes(h, h[at].id, x) <==> at < CallPos(h, x);
    }
  }

  lemma PopCloses<S, I, O>(
    m: Model<S, I, O>, h: History<I, O>, visited: set<seq<int>>, stack: seq<int>, a: int, next: int)
    requires WellFormed(h) && AllIds(h, stack) && IsId(h, a)
    requires Closed(m, h, visited, stack, CallPos(h, a)) && Reached(m, h, visited, stack + [a])
    requires LiftedBetween(h, Elems(stack), CallPos(h, a), next)
    ensures Closed(m, h, visited, stack, next)
  {
    hide WellFormed, LiftedBetween, StepFrom, Reached;
    forall x | Eligible(h, Elems(stack), x) && CallPos(h, x) < next && StepFrom(m, h, stack, x).0
      ensures Reached(m, h, visited, stack + [x])
    {
      LiftedNotEligible(h, Elems(stack), CallPos(h, a), next, x);
    }
  }

  // ---------- the end of an unsuccessful search ----------

  /** Nothing is left to try anywhere, and nothing visited is complete. */
  ghost predicate Exhausted<S, I, O>(m: Model<S, I, O>, h: History<I, O>, visited: set<seq<int>>)
    requires WellFormed(h)
  {
    && [] in visited
    && (forall v :: v in visited ==> IsPartial(m, h, v) && !Covers(h, v))
    && (forall v :: v in visited ==> Closed(m, h, visited, v, |h|))
  }

  lemma EmptyStackExhausts<S, I, O>(m: Model<S, I, O>, h: History<I, O>, visited: set<seq<int>>, at: int)
    requires WellFormed(h) && Explored(m, h, visited, [], at)
    requires at < |h| && h[at].ReturnEntry?
    ensures Exhausted(m, h, visited)
  {
    var root: seq<int> := [];
    TopClosed(m, h, visited, root, at);
    ReturnCloses(m, h, visited, root, at);
    assert IsId(h, h[at].id) && !Covers(h, root);
    hide WellFormed, Closed, IsPartial;
    forall v | v in visited
      ensures Closed(m, h, visited, v, |h|)
    {
      assert v == root || Bound(h, root, at, v) == |h|;
    }
  }

  /** Pruning loses nothing: every valid partial linearization has a visited one with the same outcome. */
  lemma {:induction false} ExhaustedReachesAll<S(!new), I(!new), O(!new)>(
    m: Model<S, I, O>, h: History<I, O>, visited: set<seq<int>>, s: seq<int>)
    requires GoodModel(m) && WellFormed(h) && Exhausted(m, h, visited) && IsPartial(m, h, s)
    ensures Reached(m, h, visited, s)
  {
    hide IsPartial, StepFrom, WellFormed, SameOutcome, GoodModel, Exhausted, Eligible, Elems;
    if s == [] {
      EmptyReached(m, h, visited);
    } else {
      var front, a := s[..|s| - 1], s[|s| - 1];
      assert s == front + [a];
      PartialSnoc(m, h, front, a);
      ExhaustedReachesAll(m, h, visited, front);
      var w :| w in visited && SameOutcome(m, h, front, w);
      PartialIsIds(m, h, front);
      ExtendReached(m, h, visited, front, w, a);
    }
  }

  lemma EmptyReached<S(!new), I(!new), O(!new)>(m: Model<S, I, O>, h: History<I, O>, visited: set<seq<int>>)
    requires GoodModel(m) && WellFormed(h) && Exhausted(m, h, visited)
    ensures Reached(m, h, visited, [])
  {
    assert SameOutcome(m, h, [], []);
  }

  lemma ExtendReached<S(!new), I(!new), O(!new)>(
    m: Model<S, I, O>, h: History<I, O>, visited: set<seq<int>>, u: seq<int>, w: seq<int>, a: int)
    requires GoodModel(m) && WellFormed(h) && Exhausted(m, h, visited) && AllIds(h, u)
    requires w in visited && SameOutcome(m, h, u, w) && Eligible(h, Elems(u), a) && StepFrom(m, h, u, a).0
    ensures Reached(m, h, visited, u + [a])
  {
    ExtendOutcome(m, h, u, w, a);
    hide IsPartial, StepFrom, WellFormed, GoodModel, Covers, StateAfter;
    assert CallPos(h, a) < |h|;
    assert Reached(m, h, visited, w + [a]);
    hide SameOutcome, Exhausted;
    var v :| v in visited && SameOutcome(m, h, w + [a], v);
    SameOutcomeTransitive(m, h, u + [a], w + [a], v);
  }

  lemma ExtendOutcome<S(!new), I(!new), O(!new)>(m: Model<S, I, O>, h: History<I, O>, u: seq<int>, w: seq<int>, a: int)
    requires GoodModel(m) && WellFormed(h) && SameOutcome(m, h, u, w) && IsId(h, a)
    requires StepFrom(m, h, u, a).0
    ensures StepFrom(m, h, w, a).0 && SameOutcome(m, h, u + [a], w + [a])
  {
    hide WellFormed, StateAfter;
    StateAfterSnoc(m, h, u, a);
    StateAfterSnoc(m, h, w, a);
    ElemsSnoc(u, a);
    ElemsSnoc(w, a);
    assert SameStep(m, StateAfter(m, h, u), StateAfter(m, h, w), InputOf(h, a), OutputOf(h, a));
  }

  lemma SameOutcomeTransitive<S(!new), I(!new), O(!new)>(
    m: Model<S, I, O>, h: History<I, O>, u: seq<int>, v: seq<int>, w: seq<int>)
    requires GoodModel(m) && WellFormed(h) && SameOutcome(m, h, u, v) && SameOutcome(m, h, v, w)
    ensures SameOutcome(m, h, u, w)
  {
  }

  /** An exhausted search without a complete sequence means there is no linearization. */
  lemma ExhaustedNotLinearizable<S(!new), I(!new), O(!new)>(m: Model<S, I, O>, h: History<I, O>, visited: set<seq<int>>)
    requires GoodModel(m) && WellFormed(h) && Exhausted(m, h, visited)
    ensures !HistoryLinearizable(m, h)
  {
    forall s | IsComplete(m, h, s)
      ensures false
    {
      ExhaustedReachesAll(m, h, visited, s);
      var w :| w in visited && SameOutcome(m, h, s, w);
      assert forall id :: IsId(h, id) ==> id in s && id in Elems(s) && id in Elems(w);
      assert Covers(h, w);
    }
  }

  // ---------- the longest partial linearizations ----------

  type Longest = seq<Option<seq<int>>>

  /** Whatever is recorded for an operation is a valid partial linearization that contains it. */
  ghost predicate LongestValid<S, I, O>(m: Model<S, I, O>, h: History<I, O>, longest: Longest)
    requires WellFormed(h)
  {
    && |longest| == Size(h)
    && forall id :: IsId(h, id) && longest[id].Some? ==> IsPartial(m, h, longest[id].value) && id in longest[id].value
  }

  ghost predicate AtLeast(longest: Longest, v: seq<int>) {
    forall id :: id in v ==> 0 <= id < |longest| && longest[id].Some? && |v| <= |longest[id].value|
  }

  /** Every sequence that has left the stack is matched in length for each of its operations. */
  ghost predicate Recorded(visited: set<seq<int>>, stack: seq<int>, longest: Longest) {
    forall v :: v in visited && !(v <= stack) ==> AtLeast(longest, v)
  }

  /** No valid partial linearization that contains an operation is longer than the recorded one. */
  ghost predicate LongestMaximal<S, I, O>(m: Model<S, I, O>, h: History<I, O>, longest: Longest)
    requires WellFormed(h)
  {
    forall s :: IsPartial(m, h, s) ==> AtLeast(longest, s)
  }

  lemma ExhaustedMaximal<S(!new), I(!new), O(!new)>(
    m: Model<S, I, O>, h: History<I, O>, visited: set<seq<int>>, longest: Longest)
    requires GoodModel(m) && WellFormed(h) && Exhausted(m, h, visited) && Recorded(visited, [], longest)
    ensures LongestMaximal(m, h, longest)
  {
    forall s | IsPartial(m, h, s)
      ensures AtLeast(longest, s)
    {
      ExhaustedReachesAll(m, h, visited, s);
      var w :| w in visited && SameOutcome(m, h, s, w);
      DistinctSize(s);
      DistinctSize(w);
      forall id | id in s
        ensures 0 <= id < |longest| && longest[id].Some? && |s| <= |longest[id].value|
      {
        assert id in Elems(s);
        assert id in w && AtLeast(longest, w);
      }
    }
  }

  // ---------- termination ----------

  /** All sequences of at most `k` ids below `n`. */
  ghost function Orders(n: nat, k: nat): set<seq<int>> {
    if k == 0 then {[]}
    else Orders(n, k - 1) + set s, a | s in Orders(n, k - 1) && 0 <= a < n :: s + [a]
  }

  lemma {:induction false} OrdersContain(n: nat, k: nat, s: seq<int>)
    requires |s| <= k && forall i :: 0 <= i < |s| ==> 0 <= s[i] < n
    ensures s in Orders(n, k)
  {
    if s == [] {
      if k > 0 {
        OrdersContain(n, k - 1, s);
      }
    } else {
      var front, a := s[..|s| - 1], s[|s| - 1];
      assert s == front + [a];
      OrdersContain(n, k - 1, front);
    }
  }

  lemma CompleteIsFull<S, I, O>(m: Model<S, I, O>, h: History<I, O>, s: seq<int>)
    requires WellFormed(h) && IsComplete(m, h, s)
    ensures Size(h) <= |s|
  {
    hide TimeClosed, Accepted, WellFormed;
    DistinctSize(s);
    IdsBelowMembers(Size(h));
    forall id | id in IdsBelow(Size(h))
      ensures id in Elems(s)
    {
      assert IsId(h, id);
    }
    SubsetSize(IdsBelow(Size(h)), Elems(s));
  }

  lemma PartialIsBounded<S, I, O>(m: Model<S, I, O>, h: History<I, O>, s: seq<int>)
    requires WellFormed(h) && IsPartial(m, h, s)
    ensures |s| <= Size(h) && s in Orders(Size(h), Size(h))
  {
    DistinctSize(s);
    IdsBelowMembers(Size(h));
    SubsetSize(Elems(s), IdsBelow(Size(h)));
    forall i | 0 <= i < |s|
      ensures 0 <= s[i] < Size(h)
    {
      assert IsId(h, s[i]);
    }
    OrdersContain(Size(h), Size(h), s);
  }
}
