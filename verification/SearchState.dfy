/** The variables of a search as values, and what each move of the search does to them. */
module SearchState {
  import opened Linearizability
  import opened LinkedHistory
  import opened ListHistory
  import opened Search
  import opened SearchRun

  // ---------- the stack of calls ----------

  datatype CallsEntry<S, I, O> = CallsEntry(entry: Node<I, O>, state: S)

  /** The stack holds, for each operation linearized so far, its call node and the state before it. */
  ghost predicate StackOf<S, I, O>(
    m: Model<S, I, O>, h: History<I, O>, nodes: seq<Node<I, O>>, calls: seq<CallsEntry<S, I, O>>, stack: seq<int>)
    requires WellFormed(h) && AllIds(h, stack) && |nodes| == |h| + 1
  {
    && |calls| == |stack|
    && (forall k :: 0 <= k < |stack| ==> Frame(m, h, nodes, calls[k], stack[..k], stack[k]))
  }

  ghost predicate Frame<S, I, O>(
    m: Model<S, I, O>, h: History<I, O>, nodes: seq<Node<I, O>>, c: CallsEntry<S, I, O>, below: seq<int>, id: int)
    requires WellFormed(h) && |nodes| == |h| + 1
  {
    && IsId(h, id) && AllIds(h, below)
    && c.entry == nodes[CallSlot(h, id)]
    && c.state == StateAfter(m, h, below)
    && c.entry.id == id
  }

  lemma StackPush<S, I, O>(
    m: Model<S, I, O>, h: History<I, O>, nodes: seq<Node<I, O>>,
    calls: seq<CallsEntry<S, I, O>>, stack: seq<int>, c: CallsEntry<S, I, O>, a: int)
    requires WellFormed(h) && AllIds(h, stack) && |nodes| == |h| + 1
    requires StackOf(m, h, nodes, calls, stack) && IsId(h, a) && Frame(m, h, nodes, c, stack, a)
    ensures AllIds(h, stack + [a]) && StackOf(m, h, nodes, calls + [c], stack + [a])
  {
    hide WellFormed, Frame;
    var top, more := stack + [a], calls + [c];
    forall k | 0 <= k < |top|
      ensures IsId(h, top[k]) && Frame(m, h, nodes, more[k], top[..k], top[k])
    {
      if k < |stack| {
        assert top[..k] == stack[..k] && Frame(m, h, nodes, calls[k], stack[..k], stack[k]);
      } else {
        assert top[..k] == stack;
      }
    }
  }

  // ---------- the cache and the visited sequences ----------

  ghost predicate NonEmptyIds<I, O>(h: History<I, O>, v: seq<int>) {
    v != [] && AllIds(h, v)
  }

  ghost function OutcomeOf<S, I, O>(m: Model<S, I, O>, h: History<I, O>, v: seq<int>): (set<int>, S)
    requires WellFormed(h) && AllIds(h, v)
  {
    (Elems(v), StateAfter(m, h, v))
  }

  /** The pairs cached for the sequences visited so far. */
  ghost function Outcomes<S, I, O>(m: Model<S, I, O>, h: History<I, O>, visited: set<seq<int>>): set<(set<int>, S)>
    requires WellFormed(h)
  {
    set v | v in visited && NonEmptyIds(h, v) :: OutcomeOf(m, h, v)
  }

  /** A cached pair that matches the next outcome is one the search has reached. */
  lemma CachedIsReached<S, I, O>(m: Model<S, I, O>, h: History<I, O>, visited: set<seq<int>>, u: seq<int>)
    requires WellFormed(h) && AllIds(h, u)
    requires exists pr :: pr in Outcomes(m, h, visited) && pr.0 == Elems(u) && m.equal(StateAfter(m, h, u), pr.1)
    ensures Reached(m, h, visited, u)
  {
    var pr :| pr in Outcomes(m, h, visited) && pr.0 == Elems(u) && m.equal(StateAfter(m, h, u), pr.1);
    var w :| w in visited && NonEmptyIds(h, w) && OutcomeOf(m, h, w) == pr;
    assert SameOutcome(m, h, u, w);
  }

  lemma VisitedIsCached<S(!new), I(!new), O(!new)>(
    m: Model<S, I, O>, h: History<I, O>, visited: set<seq<int>>, u: seq<int>)
    requires GoodModel(m) && WellFormed(h) && NonEmptyIds(h, u)
    ensures u in visited ==>
      exists pr :: pr in Outcomes(m, h, visited) && pr.0 == Elems(u) && m.equal(StateAfter(m, h, u), pr.1)
  {
    if u in visited {
      assert OutcomeOf(m, h, u) in Outcomes(m, h, visited);
    }
  }

  lemma OutcomesGrow<S, I, O>(m: Model<S, I, O>, h: History<I, O>, visited: set<seq<int>>, u: seq<int>)
    requires WellFormed(h) && NonEmptyIds(h, u)
    ensures Outcomes(m, h, visited + {u}) == Outcomes(m, h, visited) + {OutcomeOf(m, h, u)}
  {
    var a, b := Outcomes(m, h, visited + {u}), Outcomes(m, h, visited) + {OutcomeOf(m, h, u)};
    forall pr | pr in a
      ensures pr in b
    {
      var v :| v in visited + {u} && NonEmptyIds(h, v) && OutcomeOf(m, h, v) == pr;
    }
    forall pr | pr in b
      ensures pr in a
    {
      if pr == OutcomeOf(m, h, u) {
        assert u in visited + {u};
      }
    }
  }

  // ---------- the longest partial linearizations ----------

  lemma RecordKeeps<S, I, O>(
    m: Model<S, I, O>, h: History<I, O>, visited: set<seq<int>>, stack: seq<int>, a: int, longest: Longest, r: Longest)
    requires WellFormed(h) && LongestValid(m, h, longest) && IsPartial(m, h, stack + [a])
    requires Recorded(visited, stack + [a], longest) && RecordedIn(longest, stack + [a], r)
    ensures LongestValid(m, h, r) && Recorded(visited, stack, r)
  {
    hide IsPartial;
    var top := stack + [a];
    PartialIsIds(m, h, top);
    forall v | v in visited && !(v <= stack)
      ensures AtLeast(r, v)
    {
      PrefixSnoc(v, stack, a);
      forall id | id in v
        ensures 0 <= id < |r| && r[id].Some? && |v| <= |r[id].value|
      {
        if v == top {
          var k :| 0 <= k < |top| && top[k] == id;
          assert IsId(h, top[k]);
        } else {
          assert AtLeast(longest, v);
        }
      }
    }
  }

  // ---------- the invariant ----------

  /** The program variables of a search that are not on the heap. */
  datatype Vars<S, I, O> = Vars(calls: seq<CallsEntry<S, I, O>>, state: S, longest: Longest)

  /** The history of a search: the list before every lift, the sequences visited, the ids on the
      stack and the position of the cursor. */
  datatype Trail = Trail(saved: seq<Links>, visited: set<seq<int>>, stack: seq<int>, at: int)

  /** Everything the search knows that does not depend on the heap. */
  ghost predicate SearchInvariant<S, I, O>(
    m: Model<S, I, O>, h: History<I, O>, nodes: seq<Node<I, O>>, t: Trail, v: Vars<S, I, O>, computePartial: bool)
    requires WellFormed(h)
  {
    && |nodes| == |h| + 1 && NodesFrom(h, 0, nodes[1..])
    && Explored(m, h, t.visited, t.stack, t.at)
    && ListInvariant(h, t.saved, t.stack)
    && StackOf(m, h, nodes, v.calls, t.stack)
    && v.state == StateAfter(m, h, t.stack)
    && LongestInvariant(m, h, t, v.longest, computePartial)
  }

  ghost predicate LongestInvariant<S, I, O>(
    m: Model<S, I, O>, h: History<I, O>, t: Trail, longest: Longest, computePartial: bool)
    requires WellFormed(h)
  {
    && LongestValid(m, h, longest)
    && if computePartial then Recorded(t.visited, t.stack, longest)
      else forall id :: IsId(h, id) ==> longest[id] == None
  }

  /** The cursor is at a remaining entry or at the end. */
  ghost predicate AtRemaining<I, O>(h: History<I, O>, t: Trail) {
    0 <= t.at <= |h| && (t.at < |h| ==> h[t.at].id !in t.stack)
  }

  ghost predicate AtCall<I, O>(h: History<I, O>, t: Trail) {
    0 <= t.at < |h| && h[t.at].CallEntry?
  }

  /** The search as the simple machine sees it. */
  ghost function PointOf(t: Trail, longest: Longest): Point {
    Point(t.visited, t.stack, t.at, longest)
  }

  /** The list as it is now. */
  ghost function Now(t: Trail): Links {
    if t.saved == [] then Links([], []) else t.saved[|t.saved| - 1]
  }

  lemma Start<S, I, O>(
    m: Model<S, I, O>, h: History<I, O>, nodes: seq<Node<I, O>>, t: Trail, v: Vars<S, I, O>, computePartial: bool)
    requires WellFormed(h) && |nodes| == |h| + 1 && NodesFrom(h, 0, nodes[1..])
    requires t == Trail([FreshLinks(|h| + 1)], {[]}, [], 0)
    requires v.calls == [] && v.state == m.init && |v.longest| == Size(h) && forall id :: 0 <= id < Size(h) ==>
      v.longest[id] == None
    ensures SearchInvariant(m, h, nodes, t, v, computePartial) && AtRemaining(h, t)
    ensures Elems(t.stack) == {} && Outcomes(m, h, t.visited) == {}
  {
    StartExplored(m, h);
    StartList(h);
  }

  lemma ListNow<S, I, O>(
    m: Model<S, I, O>, h: History<I, O>, nodes: seq<Node<I, O>>, t: Trail, v: Vars<S, I, O>, computePartial: bool)
    requires WellFormed(h) && SearchInvariant(m, h, nodes, t, v, computePartial)
    ensures 0 <= t.at <= |h| && AllIds(h, t.stack) && |v.calls| == |t.stack| && |nodes| == |h| + 1
    ensures |t.saved| == |t.stack| + 1 && Linked(Now(t), |h| + 1, LiveSlots(h, Elems(t.stack)))
    ensures ValidLinks(Now(t), |h| + 1)
    ensures v.state == StateAfter(m, h, t.stack)
  {
    hide Explored, ListInvariant, LongestInvariant, NodesFrom, Linked, LiveSlots, ValidLinks;
    ExploredIds(m, h, t.visited, t.stack, t.at);
    ListTop(h, t.saved, t.stack);
  }

  // ---------- the cursor at a call ----------

  lemma CallIsId<I, O>(h: History<I, O>, at: int)
    requires WellFormed(h) && 0 <= at < |h| && h[at].CallEntry?
    ensures IsId(h, h[at].id) && CallSlot(h, h[at].id) == at + 1
  {
    PositionsUnique(h, at);
  }

  /** The operation whose call the cursor is at. */
  ghost function Current<I, O>(h: History<I, O>, t: Trail): int
    requires AtCall(h, t)
  {
    h[t.at].id
  }

  ghost function CurrentReturn<I, O>(h: History<I, O>, t: Trail): int
    requires WellFormed(h) && AtCall(h, t)
  {
    CallIsId(h, t.at);
    ReturnSlot(h, h[t.at].id)
  }

  ghost function CurrentStep<S, I, O>(m: Model<S, I, O>, h: History<I, O>, t: Trail): (bool, S)
    requires WellFormed(h) && AtCall(h, t) && AllIds(h, t.stack)
  {
    CallIsId(h, t.at);
    StepFrom(m, h, t.stack, h[t.at].id)
  }

  lemma CallFacts<S, I, O>(
    m: Model<S, I, O>, h: History<I, O>, nodes: seq<Node<I, O>>, t: Trail, v: Vars<S, I, O>, computePartial: bool)
    requires WellFormed(h) && SearchInvariant(m, h, nodes, t, v, computePartial) && AtCall(h, t) && AtRemaining(h, t)
    ensures |nodes| == |h| + 1 && AllIds(h, t.stack)
    ensures 0 <= Current(h, t) < 64 * ((Size(h) + 63) / 64) && Current(h, t) !in Elems(t.stack)
    ensures 0 < t.at + 1 < CurrentReturn(h, t) < |nodes|
    ensures t.at + 1 in LiveSlots(h, Elems(t.stack)) && CurrentReturn(h, t) in LiveSlots(h, Elems(t.stack))
    ensures nodes[t.at + 1].id == Current(h, t) && nodes[t.at + 1].matching == nodes[CurrentReturn(h, t)]
    ensures nodes[t.at + 1].value.Input? && nodes[CurrentReturn(h, t)].value.Output?
    ensures m.step(v.state, nodes[t.at + 1].value.input, nodes[CurrentReturn(h, t)].value.output) ==
      CurrentStep(m, h, t)
  {
    hide Explored, ListInvariant, StackOf, LongestInvariant, StateAfter, LiveSlots;
    ExploredIds(m, h, t.visited, t.stack, t.at);
    CallIsId(h, t.at);
    var a := Current(h, t);
    LiveWithout(h, t.stack, a);
    var rest, r := nodes[1..], ReturnPos(h, a);
    assert NodeOf(h, t.at, 0, rest) && rest[t.at] == nodes[t.at + 1];
    assert NodeOf(h, r, 0, rest) && rest[r] == nodes[r + 1];
  }

  lemma NextAfterCall<I, O>(h: History<I, O>, l: Links, stack: seq<int>, at: int)
    requires WellFormed(h) && AllIds(h, stack) && Linked(l, |h| + 1, LiveSlots(h, Elems(stack)))
    requires 0 <= at < |h| && h[at].CallEntry? && h[at].id !in stack
    ensures |l.next| == |h| + 1 && at < l.next[at + 1] - 1 < |h|
    ensures h[l.next[at + 1] - 1].id !in stack
    ensures LiftedBetween(h, Elems(stack), at, l.next[at + 1] - 1)
  {
    NextRemaining(h, l, Elems(stack), at + 1);
    PositionsUnique(h, at);
    assert h[ReturnPos(h, h[at].id)].id !in Elems(stack);
  }

  lemma SkipInvariant<S, I, O>(
    m: Model<S, I, O>, h: History<I, O>, nodes: seq<Node<I, O>>, t: Trail, v: Vars<S, I, O>, computePartial: bool)
    returns (p: Trail)
    requires WellFormed(h) && SearchInvariant(m, h, nodes, t, v, computePartial) && AtCall(h, t) && AtRemaining(h, t)
    requires AllIds(h, t.stack) && (!CurrentStep(m, h, t).0 || Reached(m, h, t.visited, t.stack + [Current(h, t)]))
    ensures t.at + 1 < |Now(t).next| && p == t.(at := Now(t).next[t.at + 1] - 1) && t.at < p.at < |h|
    ensures SearchInvariant(m, h, nodes, p, v, computePartial) && AtRemaining(h, p)
    ensures Skips(m, h, PointOf(t, v.longest), PointOf(p, v.longest))
  {
    hide Explored, ListInvariant, StackOf, NodesFrom, LongestValid, Recorded, Linked, LiveSlots, WellFormed, StepFrom;
    hide StateAfter, Reached, LiftedBetween;
    ListNow(m, h, nodes, t, v, computePartial);
    CallIsId(h, t.at);
    NextAfterCall(h, Now(t), t.stack, t.at);
    p := t.(at := Now(t).next[t.at + 1] - 1);
    SkipKeeps(m, h, t.visited, t.stack, t.at, p.at);
  }

  /** The current call is linearized: it goes on the stack and its two entries out of the list. */
  lemma PushInvariant<S, I, O>(
    m: Model<S, I, O>, h: History<I, O>, nodes: seq<Node<I, O>>, t: Trail,
    v: Vars<S, I, O>, computePartial: bool, c: CallsEntry<S, I, O>)
    returns (p: Trail)
    requires WellFormed(h) && SearchInvariant(m, h, nodes, t, v, computePartial) && AtCall(h, t) && AtRemaining(h, t)
    requires AllIds(h, t.stack) && CurrentStep(m, h, t).0 && |nodes| == |h| + 1
    requires !Reached(m, h, t.visited, t.stack + [Current(h, t)])
    requires c == CallsEntry(nodes[t.at + 1], v.state)
    ensures p.stack == t.stack + [Current(h, t)] && p.visited == t.visited + {p.stack}
    ensures |Now(p).next| == |h| + 1 && p.at == Now(p).next[0] - 1 && AtRemaining(h, p)
    ensures IsId(h, Current(h, t)) && LiftedOne(h, Now(t), Now(p), Current(h, t))
    ensures SearchInvariant(m, h, nodes, p, Vars(v.calls + [c], CurrentStep(m, h, t).1, v.longest), computePartial)
    ensures Outcomes(m, h, p.visited) == Outcomes(m, h, t.visited) + {(Elems(p.stack), CurrentStep(m, h, t).1)}
    ensures Elems(p.stack) == Elems(t.stack) + {Current(h, t)}
    ensures Pushes(m, h, PointOf(t, v.longest), PointOf(p, v.longest))
  {
    hide Explored, ListInvariant, StackOf, NodesFrom, LongestInvariant, WellFormed, StepFrom, StateAfter, Linked;
    hide LiveSlots, Outcomes, ValidLinks, Lifted, Reached, LiftedBetween;
    ListNow(m, h, nodes, t, v, computePartial);
    CallIsId(h, t.at);
    CallFacts(m, h, nodes, t, v, computePartial);
    var a := Current(h, t);
    var after := Lifted(Now(t), |h| + 1, t.at + 1, CurrentReturn(h, t));
    var top := t.stack + [a];
    PushList(h, t.saved, t.stack, a, after);
    ListTop(h, t.saved + [after], top);
    NextOfSentinel(h, after, top);
    p := Trail(t.saved + [after], t.visited + {top}, top, after.next[0] - 1);
    PushKeeps(m, h, t.visited, t.stack, t.at, p.at);
    StateAfterSnoc(m, h, t.stack, a);
    ElemsSnoc(t.stack, a);
    StackPush(m, h, nodes, v.calls, t.stack, c, a);
    PushLongest(m, h, t, p, v.longest, computePartial, a);
    OutcomesGrow(m, h, t.visited, top);
  }

  lemma NextOfSentinel<I, O>(h: History<I, O>, l: Links, stack: seq<int>)
    requires Linked(l, |h| + 1, LiveSlots(h, Elems(stack)))
    ensures |l.next| == |h| + 1 && 0 <= l.next[0] - 1 <= |h|
    ensures l.next[0] - 1 < |h| ==> h[l.next[0] - 1].id !in stack
    ensures LiftedBetween(h, Elems(stack), -1, l.next[0] - 1)
  {
    NextRemaining(h, l, Elems(stack), 0);
    assert forall x :: x in stack ==> x in Elems(stack);
  }

  lemma PushLongest<S, I, O>(
    m: Model<S, I, O>, h: History<I, O>, t: Trail, p: Trail, longest: Longest, computePartial: bool, a: int)
    requires WellFormed(h) && LongestInvariant(m, h, t, longest, computePartial)
    requires p.stack == t.stack + [a] && p.visited == t.visited + {p.stack}
    ensures LongestInvariant(m, h, p, longest, computePartial)
  {
    hide LongestValid;
    if computePartial {
      forall v | v in p.visited && !(v <= p.stack)
        ensures AtLeast(longest, v)
      {
        PrefixSnoc(v, t.stack, a);
      }
    }
  }

  /** Some cached pair has the set `done` and a state the model cannot tell from `state`. */
  ghost predicate Seen<S, I, O>(m: Model<S, I, O>, pairs: set<(set<int>, S)>, done: set<int>, state: S) {
    exists pr :: pr in pairs && pr.0 == done && m.equal(state, pr.1)
  }

  lemma ReachedIsCached<S(!new), I(!new), O(!new)>(
    m: Model<S, I, O>, h: History<I, O>, visited: set<seq<int>>, u: seq<int>)
    requires WellFormed(h) && NonEmptyIds(h, u) && Reached(m, h, visited, u)
    ensures Seen(m, Outcomes(m, h, visited), Elems(u), StateAfter(m, h, u))
  {
    var w :| w in visited && SameOutcome(m, h, u, w);
    assert u[0] in Elems(w);
    assert NonEmptyIds(h, w);
    assert OutcomeOf(m, h, w) in Outcomes(m, h, visited);
  }

  /** What the cache says about the outcome of the current call. */
  lemma SeenOutcome<S(!new), I(!new), O(!new)>(m: Model<S, I, O>, h: History<I, O>, t: Trail, state: S)
    requires GoodModel(m) && WellFormed(h) && AtCall(h, t) && AllIds(h, t.stack)
    requires CurrentStep(m, h, t) == (true, state)
    ensures Seen(m, Outcomes(m, h, t.visited), Elems(t.stack) + {Current(h, t)}, state) <==>
      Reached(m, h, t.visited, t.stack + [Current(h, t)])
    ensures !Seen(m, Outcomes(m, h, t.visited), Elems(t.stack) + {Current(h, t)}, state) ==>
      t.stack + [Current(h, t)] !in t.visited
  {
    CallIsId(h, t.at);
    var a := Current(h, t);
    var u := t.stack + [a];
    hide WellFormed, Outcomes, StepFrom, StateAfter;
    StateAfterSnoc(m, h, t.stack, a);
    ElemsSnoc(t.stack, a);
    VisitedIsCached(m, h, t.visited, u);
    if Seen(m, Outcomes(m, h, t.visited), Elems(t.stack) + {a}, state) {
      CachedIsReached(m, h, t.visited, u);
    }
    if Reached(m, h, t.visited, u) {
      ReachedIsCached(m, h, t.visited, u);
    }
  }

  // ---------- the cursor at a return ----------

  ghost predicate AtReturn<I, O>(h: History<I, O>, t: Trail) {
    0 <= t.at < |h| && h[t.at].ReturnEntry?
  }

  lemma StackTop<S, I, O>(
    m: Model<S, I, O>, h: History<I, O>, nodes: seq<Node<I, O>>,
    calls: seq<CallsEntry<S, I, O>>, stack: seq<int>, a: int)
    requires WellFormed(h) && AllIds(h, stack + [a]) && |nodes| == |h| + 1 && NodesFrom(h, 0, nodes[1..])
    requires StackOf(m, h, nodes, calls, stack + [a])
    ensures |calls| == |stack| + 1 && IsId(h, a) && AllIds(h, stack)
    ensures 0 < CallSlot(h, a) < ReturnSlot(h, a) < |nodes|
    ensures TopEntry(h, nodes, calls[|stack|].entry, a)
    ensures calls[|stack|].state == StateAfter(m, h, stack)
    ensures StackOf(m, h, nodes, calls[..|stack|], stack)
  {
    var top := stack + [a];
    hide StateAfter;
    assert top[|stack|] == a && top[..|stack|] == stack;
    assert Frame(m, h, nodes, calls[|stack|], top[..|stack|], top[|stack|]);
    var c, rest := CallPos(h, a), nodes[1..];
    assert NodeOf(h, c, 0, rest) && rest[c] == nodes[c + 1];
    assert rest[ReturnPos(h, a)] == nodes[ReturnSlot(h, a)];
    hide Frame, NodesFrom, NodeOf, WellFormed, CallSlot, ReturnSlot;
    forall k | 0 <= k < |stack|
      ensures IsId(h, stack[k]) && Frame(m, h, nodes, calls[k], stack[..k], stack[k])
    {
      assert top[k] == stack[k] && top[..k] == stack[..k];
    }
  }

  /** The top of the stack is taken back: its call and return return to the list, after its call the cursor. */
  lemma PopInvariant<S(!new), I(!new), O(!new)>(
    m: Model<S, I, O>, h: History<I, O>, nodes: seq<Node<I, O>>, t: Trail,
    v: Vars<S, I, O>, computePartial: bool, r: Longest, a: int)
    returns (p: Trail)
    requires GoodModel(m) && WellFormed(h) && SearchInvariant(m, h, nodes, t, v, computePartial) && AtReturn(h, t)
    requires AtRemaining(h, t)
    requires t.stack != [] && a == t.stack[|t.stack| - 1]
    requires if computePartial then RecordedIn(v.longest, t.stack, r) else r == v.longest
    ensures p.stack == t.stack[..|t.stack| - 1] && p.visited == t.visited
    ensures IsId(h, a) && UnliftedOne(h, Now(t), Now(p), a) && |Now(p).next| == |h| + 1
    ensures CallSlot(h, a) <= |h| && p.at == Now(p).next[CallSlot(h, a)] - 1 && AtRemaining(h, p) && p.at < |h|
    ensures |v.calls| == |t.stack| == |p.stack| + 1
    ensures SearchInvariant(m, h, nodes, p, Vars(v.calls[..|p.stack|], v.calls[|p.stack|].state, r), computePartial)
    ensures Elems(p.stack) == Elems(t.stack) - {a} && 0 <= a < 64 * ((Size(h) + 63) / 64)
    ensures 0 < CallSlot(h, a) < |nodes| && 0 < ReturnSlot(h, a) < |nodes|
    ensures TopEntry(h, nodes, v.calls[|p.stack|].entry, a)
    ensures Pops(h, computePartial, PointOf(t, v.longest), PointOf(p, r))
  {
    hide Explored, ListInvariant, StackOf, LongestInvariant, StateAfter, UnliftedOne, CallSlot, ReturnSlot, NodesFrom;
    hide GoodModel, TopEntry, RecordedIn, WellFormed, LiftedBetween, AllIds;
    var stack := t.stack[..|t.stack| - 1];
    assert t.stack == stack + [a];
    ExploredTop(m, h, t.visited, stack, a, t.at);
    StackTop(m, h, nodes, v.calls, stack, a);
    var saved, at := PopListAndCursor(h, t.saved, stack, a);
    p := Trail(saved, t.visited, stack, at);
    PopKeeps(m, h, t.visited, stack, a, t.at, p.at);
    PopLongest(m, h, t, p, v.longest, r, computePartial, a);
    ElemsSnoc(stack, a);
    assert Nearest(h, stack, CallPos(h, a), at);
  }

  lemma ExploredTop<S, I, O>(
    m: Model<S, I, O>, h: History<I, O>, visited: set<seq<int>>, stack: seq<int>, a: int, at: int)
    requires WellFormed(h) && Explored(m, h, visited, stack + [a], at)
    ensures AllIds(h, stack + [a]) && AllIds(h, stack) && a !in stack && a !in Elems(stack)
    ensures IsPartial(m, h, stack + [a]) && IsPartial(m, h, stack) && IsId(h, a)
  {
    PartialSnoc(m, h, stack, a);
    assert a !in Elems(stack);
  }

  /** Unlifting the top of the stack leaves the cursor at the entry after its call. */
  lemma PopListAndCursor<I, O>(h: History<I, O>, saved: seq<Links>, stack: seq<int>, a: int)
    returns (popped: seq<Links>, at: int)
    requires WellFormed(h) && AllIds(h, stack + [a]) && AllIds(h, stack) && IsId(h, a) && a !in stack
    requires ListInvariant(h, saved, stack + [a])
    ensures ListInvariant(h, popped, stack) && |saved| == |stack| + 2 && |popped| == |stack| + 1
    ensures UnliftedOne(h, saved[|stack| + 1], popped[|stack|], a) && |popped[|stack|].next| == |h| + 1
    ensures 0 < CallSlot(h, a) <= |h| && at == popped[|stack|].next[CallSlot(h, a)] - 1
    ensures CallPos(h, a) < at < |h| && h[at].id !in stack && LiftedBetween(h, Elems(stack), CallPos(h, a), at)
  {
    hide Linked, LiveSlots, UnliftedOne, WellFormed, LiftedOne, LiftedBetween;
    UnliftTop(h, saved, stack, a);
    PopList(h, saved, stack, a);
    popped := saved[..|stack| + 1];
    ListTop(h, popped, stack);
    CallOfId(h, a);
    NextAfterCall(h, popped[|stack|], stack, CallPos(h, a));
    at := popped[|stack|].next[CallSlot(h, a)] - 1;
  }

  /** `entry` is the call node of operation `a`. */
  ghost predicate TopEntry<I, O>(h: History<I, O>, nodes: seq<Node<I, O>>, entry: Node<I, O>, a: int)
    requires WellFormed(h) && IsId(h, a) && 0 < CallSlot(h, a) < |nodes| && 0 < ReturnSlot(h, a) < |nodes|
  {
    entry == nodes[CallSlot(h, a)] && entry.id == a && entry.matching == nodes[ReturnSlot(h, a)]
  }

  lemma CallOfId<I, O>(h: History<I, O>, a: int)
    requires WellFormed(h) && IsId(h, a)
    ensures 0 <= CallPos(h, a) < |h| && h[CallPos(h, a)].CallEntry? && h[CallPos(h, a)].id == a
    ensures CallSlot(h, a) == CallPos(h, a) + 1
  {
  }

  lemma PopLongest<S, I, O>(
    m: Model<S, I, O>, h: History<I, O>, t: Trail, p: Trail, longest: Longest, r: Longest, computePartial: bool, a: int)
    requires WellFormed(h) && LongestInvariant(m, h, t, longest, computePartial)
    requires t.stack == p.stack + [a] && p.visited == t.visited && IsPartial(m, h, t.stack)
    requires if computePartial then RecordedIn(longest, t.stack, r) else r == longest
    ensures LongestInvariant(m, h, p, r, computePartial)
  {
    hide IsPartial, WellFormed;
    if computePartial {
      RecordKeeps(m, h, t.visited, p.stack, a, longest, r);
    }
  }

  // ---------- the two ends of a search ----------

  lemma GivesUp<S(!new), I(!new), O(!new)>(
    m: Model<S, I, O>, h: History<I, O>, nodes: seq<Node<I, O>>, t: Trail, v: Vars<S, I, O>, computePartial: bool)
    requires GoodModel(m) && WellFormed(h) && SearchInvariant(m, h, nodes, t, v, computePartial) && AtReturn(h, t)
    requires t.stack == []
    ensures !HistoryLinearizable(m, h)
    ensures computePartial ==> LongestMaximal(m, h, v.longest)
  {
    hide Explored, ListInvariant, StackOf, WellFormed, GoodModel, NodesFrom, LongestValid;
    EmptyStackExhausts(m, h, t.visited, t.at);
    ExhaustedNotLinearizable(m, h, t.visited);
    if computePartial {
      ExhaustedMaximal(m, h, t.visited, v.longest);
    }
  }

  lemma Succeeds<S, I, O>(
    m: Model<S, I, O>, h: History<I, O>, nodes: seq<Node<I, O>>, t: Trail, v: Vars<S, I, O>, computePartial: bool)
    requires WellFormed(h) && SearchInvariant(m, h, nodes, t, v, computePartial)
    requires |Now(t).next| > 0 && Now(t).next[0] == |h| + 1
    ensures IsComplete(m, h, t.stack) && |v.calls| == |t.stack|
    ensures forall k :: 0 <= k < |t.stack| ==> v.calls[k].entry.id == t.stack[k]
  {
    ListNow(m, h, nodes, t, v, computePartial);
    NextOfSentinel(h, Now(t), t.stack);
    hide ListInvariant, Linked, LiveSlots, NodesFrom, LongestInvariant;
    forall id | IsId(h, id)
      ensures id in t.stack
    {
      assert h[CallPos(h, id)].id in Elems(t.stack);
    }
  }

  lemma IdsOfStack<S, I, O>(
    m: Model<S, I, O>, h: History<I, O>, nodes: seq<Node<I, O>>, t: Trail, v: Vars<S, I, O>, computePartial: bool)
    requires WellFormed(h) && SearchInvariant(m, h, nodes, t, v, computePartial)
    ensures |v.calls| == |t.stack| && |v.longest| == Size(h)
    ensures forall k :: 0 <= k < |t.stack| ==> v.calls[k].entry.id == t.stack[k] && 0 <= t.stack[k] < Size(h)
  {
  }

  lemma LongestSize<S, I, O>(m: Model<S, I, O>, h: History<I, O>, longest: Longest)
    requires WellFormed(h) && LongestValid(m, h, longest)
    ensures |longest| == Size(h)
  {
  }

  lemma VisitedBounded<S, I, O>(
    m: Model<S, I, O>, h: History<I, O>, nodes: seq<Node<I, O>>, t: Trail, v: Vars<S, I, O>, computePartial: bool)
    requires WellFormed(h) && SearchInvariant(m, h, nodes, t, v, computePartial)
    ensures t.visited <= Orders(Size(h), Size(h)) && LongestValid(m, h, v.longest)
  {
    hide IsPartial, Orders, AllClosed;
    forall s | s in t.visited
      ensures s in Orders(Size(h), Size(h))
    {
      PartialIsBounded(m, h, s);
    }
  }
}
