/** What the linked list holds during the search: the history minus the operations on the stack. */
module ListHistory {
  import opened Linearizability
  import opened LinkedHistory
  import Search

  ghost predicate Remains<I, O>(h: History<I, O>, done: set<int>, i: int) {
    i == 0 || (0 < i <= |h| && h[i - 1].id !in done)
  }

  /** The sentinel and the entries of the operations not yet linearized. */
  ghost function LiveSlots<I, O>(h: History<I, O>, done: set<int>): set<int> {
    set i: int | 0 <= i <= |h| && Remains(h, done, i)
  }

  ghost function CallSlot<I, O>(h: History<I, O>, a: int): int
    requires WellFormed(h) && IsId(h, a)
  {
    CallPos(h, a) + 1
  }

  ghost function ReturnSlot<I, O>(h: History<I, O>, a: int): int
    requires WellFormed(h) && IsId(h, a)
  {
    ReturnPos(h, a) + 1
  }

  ghost predicate LiftedOne<I, O>(h: History<I, O>, before: Links, after: Links, a: int)
    requires WellFormed(h) && IsId(h, a)
  {
    && ValidLinks(before, |h| + 1)
    && after == Lifted(before, |h| + 1, CallSlot(h, a), ReturnSlot(h, a))
  }

  ghost predicate UnliftedOne<I, O>(h: History<I, O>, before: Links, after: Links, a: int)
    requires WellFormed(h) && IsId(h, a)
  {
    && Removed(before, |h| + 1, CallSlot(h, a), ReturnSlot(h, a))
    && after == Unlifted(before, |h| + 1, CallSlot(h, a), ReturnSlot(h, a))
  }

  /** `saved[k]` is the list as it was with the first `k` operations of the stack lifted out. */
  ghost predicate ListInvariant<I, O>(h: History<I, O>, saved: seq<Links>, stack: seq<int>)
    requires WellFormed(h) && AllIds(h, stack)
  {
    && |saved| == |stack| + 1
    && (forall k :: 0 <= k <= |stack| ==> Linked(saved[k], |h| + 1, LiveSlots(h, Elems(stack[..k]))))
    && (forall k :: 0 <= k < |stack| ==> LiftedOne(h, saved[k], saved[k + 1], stack[k]))
  }

  lemma ListTop<I, O>(h: History<I, O>, saved: seq<Links>, stack: seq<int>)
    requires WellFormed(h) && AllIds(h, stack) && ListInvariant(h, saved, stack)
    ensures |saved| == |stack| + 1 && Linked(saved[|stack|], |h| + 1, LiveSlots(h, Elems(stack)))
    ensures ValidLinks(saved[|stack|], |h| + 1)
  {
    hide WellFormed, LiveSlots, LiftedOne;
    assert stack[..|stack|] == stack;
  }

  lemma StartList<I, O>(h: History<I, O>)
    requires WellFormed(h)
    ensures ListInvariant(h, [FreshLinks(|h| + 1)], [])
  {
    FreshLinked(|h| + 1);
    assert LiveSlots(h, Elems([])) == AllSlots(|h| + 1);
  }

  lemma LiveWithout<I, O>(h: History<I, O>, stack: seq<int>, a: int)
    requires WellFormed(h) && IsId(h, a) && a !in stack
    ensures CallSlot(h, a) in LiveSlots(h, Elems(stack)) && ReturnSlot(h, a) in LiveSlots(h, Elems(stack))
    ensures 0 < CallSlot(h, a) < ReturnSlot(h, a) <= |h|
    ensures LiveSlots(h, Elems(stack + [a])) == LiveSlots(h, Elems(stack)) - {CallSlot(h, a)} - {ReturnSlot(h, a)}
  {
    PositionsUnique(h, CallPos(h, a));
    ElemsSnoc(stack, a);
    forall i | 0 <= i <= |h|
      ensures Remains(h, Elems(stack + [a]), i) <==>
        Remains(h, Elems(stack), i) && i != CallSlot(h, a) && i != ReturnSlot(h, a)
    {
      if 0 < i {
        PositionsUnique(h, i - 1);
      }
    }
  }

  lemma PushList<I, O>(h: History<I, O>, saved: seq<Links>, stack: seq<int>, a: int, after: Links)
    requires WellFormed(h) && AllIds(h, stack) && ListInvariant(h, saved, stack)
    requires IsId(h, a) && a !in stack && LiftedOne(h, saved[|stack|], after, a)
    ensures AllIds(h, stack + [a]) && ListInvariant(h, saved + [after], stack + [a])
  {
    hide WellFormed, Linked, LiveSlots, Lifted, ValidLinks;
    var top, more := stack + [a], saved + [after];
    LiveWithout(h, stack, a);
    assert stack[..|stack|] == stack;
    LiftLinked(saved[|stack|], |h| + 1, LiveSlots(h, Elems(stack)), CallSlot(h, a), ReturnSlot(h, a));
    hide LiftedOne, CallSlot, ReturnSlot;
    forall k | 0 <= k <= |top|
      ensures Linked(more[k], |h| + 1, LiveSlots(h, Elems(top[..k])))
    {
      assert top[..k] == if k <= |stack| then stack[..k] else top;
    }
    forall k | 0 <= k < |top|
      ensures LiftedOne(h, more[k], more[k + 1], top[k])
    {
      if k < |stack| {
        assert LiftedOne(h, saved[k], saved[k + 1], stack[k]);
      }
    }
  }

  /** The top of the stack is what was lifted last; `unlift` gives back the list as it was before. */
  lemma UnliftTop<I, O>(h: History<I, O>, saved: seq<Links>, stack: seq<int>, a: int)
    requires WellFormed(h) && AllIds(h, stack + [a]) && a !in stack && ListInvariant(h, saved, stack + [a])
    ensures IsId(h, a) && ValidLinks(saved[|stack|], |h| + 1)
    ensures UnliftedOne(h, saved[|stack| + 1], saved[|stack|], a)
  {
    hide WellFormed, LiveSlots, Lifted, Unlifted;
    var top := stack + [a];
    assert top[|stack|] == a && top[..|stack|] == stack;
    LiveWithout(h, stack, a);
    assert LiftedOne(h, saved[|stack|], saved[|stack| + 1], a);
    UnliftLifted(saved[|stack|], |h| + 1, LiveSlots(h, Elems(stack)), CallSlot(h, a), ReturnSlot(h, a));
  }

  lemma PopList<I, O>(h: History<I, O>, saved: seq<Links>, stack: seq<int>, a: int)
    requires WellFormed(h) && AllIds(h, stack + [a]) && ListInvariant(h, saved, stack + [a])
    ensures AllIds(h, stack) && ListInvariant(h, saved[..|stack| + 1], stack)
  {
    hide WellFormed, Linked, LiftedOne, LiveSlots;
    var top := stack + [a];
    forall k | 0 <= k < |stack|
      ensures IsId(h, stack[k])
    {
      assert top[k] == stack[k];
    }
    forall k | 0 <= k <= |stack|
      ensures Linked(saved[k], |h| + 1, LiveSlots(h, Elems(stack[..k])))
    {
      assert top[..k] == stack[..k];
    }
    forall k | 0 <= k < |stack|
      ensures LiftedOne(h, saved[k], saved[k + 1], stack[k])
    {
      assert top[k] == stack[k];
    }
  }

  /** Following `next` from a remaining slot leads to the next remaining one. */
  lemma NextRemaining<I, O>(h: History<I, O>, l: Links, done: set<int>, i: int)
    requires Linked(l, |h| + 1, LiveSlots(h, done)) && 0 <= i <= |h| && Remains(h, done, i)
    ensures i < l.next[i] <= |h| + 1
    ensures l.next[i] <= |h| ==> Remains(h, done, l.next[i])
    ensures Search.LiftedBetween(h, done, i - 1, l.next[i] - 1)
  {
    assert i in LiveSlots(h, done);
    LinkedNext(l, |h| + 1, LiveSlots(h, done), i);
    forall p | i - 1 < p < l.next[i] - 1 && 0 <= p < |h|
      ensures h[p].id in done
    {
      assert p + 1 !in LiveSlots(h, done);
      assert p + 1 in LiveSlots(h, done) <==> Remains(h, done, p + 1);
    }
  }
}
