/** The search for a linearization of one history: an explicit-stack depth-first search over a linked
    list it edits in place, pruned by a cache of the (linearized set, state) pairs it has seen. */
module Checker {
  import opened Linearizability
  import opened LinkedHistory
  import opened ListHistory
  import opened Search
  import opened SearchRun
  import opened SearchState
  import Bitset
  import Cache

  /** What a search may return, as a function of what it was given and of whether it was told to stop. */
  ghost predicate SingleSpec<S(!new), I(!new), O(!new)>(
    m: Model<S, I, O>, h: History<I, O>, computePartial: bool, killed: bool, ok: bool, longest: Longest)
    requires WellFormed(h)
  {
    && LongestValid(m, h, longest)
    && (ok ==> exists s :: IsComplete(m, h, s) && forall id :: IsId(h, id) ==> longest[id] == Some(s))
    && (!ok && !killed ==> !HistoryLinearizable(m, h))
    && (!ok && !killed && computePartial ==> LongestMaximal(m, h, longest))
    && (!ok && !computePartial ==> forall id :: IsId(h, id) ==> longest[id] == None)
  }

  // ---------- the longest partial linearizations ----------

  /** Records the stack for each of its operations that has none as long yet. */
  method RecordLongest<S, I, O>(calls: seq<CallsEntry<S, I, O>>, longest: Longest, ghost stack: seq<int>)
    returns (r: Longest)
    requires |calls| == |stack| && forall k :: 0 <= k < |stack| ==>
      calls[k].entry.id == stack[k] && 0 <= stack[k] < |longest|
    ensures RecordedIn(longest, stack, r)
  {
    r := longest;
    var ids: Option<seq<int>> := None;
    for j := 0 to |calls|
      invariant |r| == |longest|
      invariant ids == None || ids == Some(stack)
      invariant forall id :: 0 <= id < |longest| ==>
        r[id] == if id in stack[..j] && (longest[id] == None || |stack| > |longest[id].value|) then Some(stack)
          else longest[id]
    {
      var id := calls[j].entry.id;
      if r[id] == None || |calls| > |r[id].value| {
        if ids == None {
          ids := Some(IdsOf(calls));
          assert ids.value == stack;
        }
        r := r[id := ids];
      }
      assert stack[..j + 1] == stack[..j] + [stack[j]];
    }
    assert stack[..|calls|] == stack;
  }

  function IdsOf<S, I, O>(calls: seq<CallsEntry<S, I, O>>): seq<int> {
    seq(|calls|, k requires 0 <= k < |calls| => calls[k].entry.id)
  }

  // ---------- building the list ----------

  lemma NextNode<I, O>(nodes: seq<Node<I, O>>, l: Links, i: int)
    requires Represents(nodes, l) && 0 <= i < |nodes|
    ensures |l.next| == |nodes| && nodes[i].next == NodeAt(nodes, l.next[i])
  {
  }

  /** Builds the list, measures it and puts the sentinel in front. */
  method LinkHistory<I, O>(history: History<I, O>)
    returns (entry: Node?<I, O>, n: nat, headEntry: Node<I, O>, ghost nodes: seq<Node<I, O>>)
    requires WellFormed(history)
    ensures forall k :: 0 <= k < |nodes| ==> fresh(nodes[k])
    ensures |nodes| == |history| + 1 && NodesFrom(history, 0, nodes[1..])
    ensures headEntry == nodes[0] && entry == NodeAt(nodes, 1) && n == Size(history)
    ensures Represents(nodes, FreshLinks(|nodes|))
  {
    ghost var chain;
    entry, chain := MakeLinkedEntries(history);
    var len := Length(entry, chain);
    n := len / 2;
    assert entry != null ==> entry in chain;
    headEntry, nodes := AddSentinel(entry, chain);
    assert nodes[1..] == chain;
    assert forall k :: 1 <= k < |nodes| ==> nodes[k] == chain[k - 1];
  }

  method AddSentinel<I, O>(entry: Node?<I, O>, ghost chain: seq<Node<I, O>>)
    returns (headEntry: Node<I, O>, ghost nodes: seq<Node<I, O>>)
    requires Chained(chain) && Placed(chain, 1) && entry == NodeAt(chain, 0)
    modifies entry
    ensures fresh(headEntry) && nodes == [headEntry] + chain
    ensures Represents(nodes, FreshLinks(|nodes|))
  {
    var sentinel := new Node(NoValue, null, -1, 0);
    nodes := [sentinel] + chain;
    hide Chained, Represents;
    assert Placed(nodes, 0);
    headEntry := Prepend(sentinel, entry, chain, 0);
    ChainRepresents(nodes);
  }

  lemma ChainRepresents<I, O>(nodes: seq<Node<I, O>>)
    requires Chained(nodes) && Placed(nodes, 0) && nodes != []
    ensures Represents(nodes, FreshLinks(|nodes|))
  {
  }

  // ---------- the search ----------

  /** Caches an outcome and adds its operation to the set of the ones linearized. */
  method Remember<S>(cache: Cache.Buckets<S>, linearized: array<bv64>, newCacheEntry: Cache.CacheEntry<S>, id: nat)
    requires cache.Valid() && linearized !in cache.Repr && newCacheEntry.linearized != linearized
    requires newCacheEntry.linearized.Length == linearized.Length == cache.words && id < 64 * linearized.Length
    modifies cache, linearized
    ensures cache.Valid() && linearized !in cache.Repr
    ensures cache.Repr == old(cache.Repr) + {newCacheEntry.linearized}
    ensures cache.pairs == old(cache.pairs) + {(old(Bitset.Members(newCacheEntry.linearized[..])), newCacheEntry.state)}
    ensures Bitset.Members(linearized[..]) == old(Bitset.Members(linearized[..])) + {id}
  {
    hide Bitset.Members, Bitset.HashOf, Cache.Buckets.Valid;
    var hash := Bitset.Hash(newCacheEntry.linearized);
    cache.Add(hash, newCacheEntry);
    var _ := Bitset.Set(linearized, id);
  }

  /** Takes an operation out of the set, and puts its call and return back into the list. */
  method TakeBack<S, I, O>(
    ghost cache: Cache.Buckets<S>, linearized: array<bv64>, entry: Node<I, O>, ghost nodes: seq<Node<I, O>>,
    ghost h: History<I, O>, ghost before: Links, ghost after: Links, ghost a: int)
    requires cache.Valid() && linearized !in cache.Repr && 0 <= a < 64 * linearized.Length
    requires WellFormed(h) && IsId(h, a) && |nodes| == |h| + 1 && UnliftedOne(h, before, after, a)
    requires Represents(nodes, before) && TopEntry(h, nodes, entry, a)
    modifies linearized, nodes
    ensures cache.Valid() && Represents(nodes, after)
    ensures Bitset.Members(linearized[..]) == old(Bitset.Members(linearized[..])) - {a}
  {
    hide WellFormed, Represents, Removed, Unlifted, Cache.Buckets.Valid, Bitset.Members;
    var _ := Bitset.Clear(linearized, entry.id);
    UnliftTopEntry(entry, nodes, h, before, after, a);
  }

  /** The variables of one search. */
  class Run<S(!new), I(!new), O(!new)> {
    const model: Model<S, I, O>
    const history: History<I, O>
    const computePartial: bool
    const headEntry: Node<I, O>
    const linearized: array<bv64>
    const cache: Cache.Buckets<S>
    var entry: Node?<I, O>
    var calls: seq<CallsEntry<S, I, O>>
    var state: S
    var longest: Longest

    ghost const nodes: seq<Node<I, O>>
    ghost var trail: Trail

    ghost predicate Valid()
      reads this, nodes, linearized, cache, cache.Repr
    {
      && GoodModel(model) && WellFormed(history)
      && SearchInvariant(model, history, nodes, trail, Vars(calls, state, longest), computePartial)
      && AtRemaining(history, trail)
      && |nodes| == |history| + 1 && Represents(nodes, Now(trail))
      && headEntry == nodes[0] && entry == NodeAt(nodes, trail.at + 1)
      && (headEntry.next != null ==> trail.at < |history|)
      && cache.Valid() && linearized !in cache.Repr && linearized.Length == (Size(history) + 63) / 64 == cache.words
      && Bitset.Members(linearized[..]) == Elems(trail.stack)
      && cache.pairs == Outcomes(model, history, trail.visited)
    }

    /** Where the search is. */
    ghost function Here(): Point
      reads `trail, `longest
    {
      PointOf(trail, longest)
    }

    constructor (model: Model<S, I, O>, history: History<I, O>, computePartial: bool)
      requires GoodModel(model) && WellFormed(history)
      ensures Valid() && fresh(linearized) && fresh(cache) && fresh(cache.Repr)
      ensures forall k :: 0 <= k < |nodes| ==> fresh(nodes[k])
      ensures this.model == model && this.history == history && this.computePartial == computePartial
      ensures Here() == Begin(history)
    {
      hide GoodModel, WellFormed, SearchInvariant, AtRemaining, NodesFrom, Represents, Outcomes, Elems, Bitset.Members;
      hide Cache.Buckets.Valid;
      var entry, n, headEntry, nodes := LinkHistory(history);
      var linearized := Bitset.NewBitset(n);
      var cache := new Cache.Buckets<S>(linearized.Length);

      this.model, this.history, this.computePartial := model, history, computePartial;
      this.entry, this.headEntry, this.nodes := entry, headEntry, nodes;
      this.linearized, this.cache := linearized, cache;
      calls := [];
      longest := seq(n, _ => None);
      state := model.init;
      trail := Trail([FreshLinks(|history| + 1)], {[]}, [], 0);
      new;
      Start(model, history, nodes, trail, Vars(calls, state, longest), computePartial);
      NextNode(nodes, Now(trail), 0);
    }

    /** The cursor moves past a call that the model refuses or whose outcome has been reached. */
    method Skip()
      requires Valid() && AtCall(history, trail) && AllIds(history, trail.stack)
      requires !CurrentStep(model, history, trail).0 ||
        Reached(model, history, trail.visited, trail.stack + [Current(history, trail)])
      modifies this`entry, this`trail
      ensures Valid() && trail == old(trail).(at := trail.at) && old(trail.at) < trail.at
      ensures Skips(model, history, old(Here()), Here())
    {
      hide SearchInvariant, WellFormed, GoodModel, Represents, CurrentStep, Reached, Outcomes, Skips;
      ghost var t := SkipInvariant(model, history, nodes, trail, Vars(calls, state, longest), computePartial);
      NextNode(nodes, Now(trail), trail.at + 1);
      entry := entry.next;
      trail := t;
    }

    /** The cursor's call is linearized: cached, pushed, lifted out, and the search restarts at the front. */
    method Push(newCacheEntry: Cache.CacheEntry<S>)
      requires Valid() && AtCall(history, trail) && AllIds(history, trail.stack)
      requires CurrentStep(model, history, trail) == (true, newCacheEntry.state)
      requires !Reached(model, history, trail.visited, trail.stack + [Current(history, trail)])
      requires newCacheEntry.linearized.Length == linearized.Length && newCacheEntry.linearized != linearized
      requires Bitset.Members(newCacheEntry.linearized[..]) == Elems(trail.stack) + {Current(history, trail)}
      modifies this`entry, this`calls, this`state, this`trail, linearized, cache, nodes
      ensures Valid() && cache.Repr == old(cache.Repr) + {newCacheEntry.linearized}
      ensures trail.stack == old(trail.stack) + [old(Current(history, trail))]
      ensures trail.visited == old(trail.visited) + {trail.stack}
      ensures Pushes(model, history, old(Here()), Here())
    {
      hide SearchInvariant, WellFormed, GoodModel, Represents, CurrentStep, Outcomes, Bitset.Members, Elems;
      hide Cache.Buckets.Valid, LiftedOne, Now, AtRemaining, Reached, Pushes;
      CallFacts(model, history, nodes, trail, Vars(calls, state, longest), computePartial);
      var frame := CallsEntry(entry, state);
      ghost var t := PushInvariant(model, history, nodes, trail, Vars(calls, state, longest), computePartial, frame);
      Remember(cache, linearized, newCacheEntry, entry.id);
      LiftCurrent(entry, model, history, nodes, trail, Vars(calls, state, longest), computePartial, Now(t));
      NextNode(nodes, Now(t), 0);
      calls := calls + [frame];
      state := newCacheEntry.state;
      entry := headEntry.next;
      trail := t;

    }

    /** Tries to linearize the operation whose call the cursor is at. */
    method TryCall()
      requires Valid() && AtCall(history, trail)
      modifies this`entry, this`calls, this`state, this`trail, linearized, cache, nodes
      ensures Valid() && fresh(cache.Repr - old(cache.Repr))
      ensures (trail == old(trail).(at := trail.at) && old(trail.at) < trail.at) ||
              (old(trail.visited) < trail.visited)
      ensures Skips(model, history, old(Here()), Here()) || Pushes(model, history, old(Here()), Here())
    {
      hide SearchInvariant, WellFormed, GoodModel, Represents, CurrentStep, Reached, Outcomes, Bitset.Members;
      hide Cache.Buckets.Valid, Elems, AtRemaining, Outcomes, Now, CurrentReturn, Skips, Pushes;
      CallFacts(model, history, nodes, trail, Vars(calls, state, longest), computePartial);
      var matching := entry.matching;
      var (stepped, newState) := model.step(state, entry.value.input, matching.value.output);
      if stepped {
        var dataCopy := Bitset.Clone(linearized);
        var newLinearized := Bitset.Set(dataCopy, entry.id);
        var newCacheEntry := Cache.CacheEntry(newLinearized, newState);
        var seen := cache.Contains(model, newCacheEntry);
        SeenOutcome(model, history, trail, newState);
        if !seen {
          Push(newCacheEntry);
        } else {
          Skip();
        }
      } else {
        Skip();
      }
    }

    /** The recorded sequences, with the stack recorded when that is asked for. */
    method RecordStack() returns (r: Longest)
      requires Valid()
      ensures |calls| == |trail.stack|
      ensures if computePartial then RecordedIn(longest, trail.stack, r) else r == longest
    {
      hide SearchInvariant, WellFormed, GoodModel, Represents, Outcomes, Bitset.Members, Elems, Cache.Buckets.Valid;
      hide AtRemaining, Now, RecordedIn;
      IdsOfStack(model, history, nodes, trail, Vars(calls, state, longest), computePartial);
      r := longest;
      if computePartial {
        r := RecordLongest(calls, longest, trail.stack);
      }
    }

    /** The cursor is at a return: the last operation linearized is taken back. */
    method Backtrack()
      requires Valid() && AtReturn(history, trail) && calls != []
      modifies this`entry, this`calls, this`state, this`trail, this`longest, linearized, nodes
      ensures Valid() && trail.visited == old(trail.visited) && |trail.stack| < old(|trail.stack|)
      ensures Pops(history, computePartial, old(Here()), Here())
    {
      hide SearchInvariant, WellFormed, GoodModel, Represents, Outcomes, Bitset.Members, Elems, Cache.Buckets.Valid;
      hide AtRemaining, Now, CallSlot, ReturnSlot, UnliftedOne, RecordedIn, AtReturn, IsId, Size, Pops;
      var recorded := RecordStack();
      ghost var a := trail.stack[|trail.stack| - 1];
      ghost var t := PopInvariant(model, history, nodes, trail, Vars(calls, state, longest), computePartial, recorded,
        a);
      var callsTop := calls[|calls| - 1];
      TakeBack(cache, linearized, callsTop.entry, nodes, history, Now(trail), Now(t), a);
      NextNode(nodes, Now(t), CallSlot(history, a));
      entry := callsTop.entry.next;
      state, calls, longest := callsTop.state, calls[..|calls| - 1], recorded;
      trail := t;
      assert SearchInvariant(model, history, nodes, trail, Vars(calls, state, longest), computePartial);
      assert entry == NodeAt(nodes, trail.at + 1) && Represents(nodes, Now(trail)) && cache.Valid();

    }

    /** The search has come nearer to its end: more visited, or a lower stack, or a later cursor. */
    twostate predicate Progress()
      reads this
    {
      || old(trail.visited) < trail.visited
      || (old(trail.visited) == trail.visited && |trail.stack| < old(|trail.stack|))
      || (old(trail.visited) == trail.visited && old(trail.stack) == trail.stack && old(trail.at) < trail.at)
    }

    /** One round of the search while entries remain. It gives up when the cursor has met a return
        with nothing on the stack. */
    method Round() returns (gaveUp: bool)
      requires Valid() && headEntry.next != null
      modifies this`entry, this`calls, this`state, this`trail, this`longest, linearized, cache, nodes
      ensures Valid()
      ensures gaveUp ==> forall killed :: SingleSpec(model, history, computePartial, killed, false, longest)
      ensures gaveUp ==> Here() == old(Here()) && Stuck(history, Here())
      ensures !gaveUp ==> Progress() && Moves(model, history, computePartial, old(Here()), Here())
    {
      hide SearchInvariant, WellFormed, GoodModel, Represents, Outcomes, Bitset.Members, Elems, Cache.Buckets.Valid;
      hide SingleSpec, Skips, Pushes, Pops;
      if entry.matching != null {
        AtCallNode();
        TryCall();
      } else {
        AtReturnNode();
        if |calls| == 0 {
          GiveUp();
          return true;
        }
        Backtrack();
      }
      return false;
    }

    lemma Bounded()
      requires Valid()
      ensures trail.visited <= Orders(Size(history), Size(history))
      ensures 0 <= trail.at <= |history| && (headEntry.next != null ==> entry != null)
    {
      hide Orders, SearchInvariant, WellFormed;
      VisitedBounded(model, history, nodes, trail, Vars(calls, state, longest), computePartial);
    }

    /** The list is empty exactly when the cursor is at the end. */
    lemma EmptyAtEnd()
      requires Valid()
      ensures headEntry.next == null <==> AtEnd(history, Here())
    {
      if headEntry.next == null {
        Finished();
        hide SearchInvariant, Represents, IsPartial;
        assert trail.at < |history| ==> IsId(history, history[trail.at].id);
      }
    }

    lemma Unfinished()
      requires Valid()
      ensures SingleSpec(model, history, computePartial, true, false, longest)
      ensures computePartial ==> Recorded(trail.visited, trail.stack, longest)
    {
      hide IsPartial, WellFormed, Recorded;
      VisitedBounded(model, history, nodes, trail, Vars(calls, state, longest), computePartial);
    }

    lemma AtCallNode()
      requires Valid() && entry != null && entry.matching != null
      ensures AtCall(history, trail)
    {
      hide Explored, ListInvariant, StackOf, LongestInvariant, Represents, WellFormed;
      assert NodeOf(history, trail.at, 0, nodes[1..]);
    }

    lemma AtReturnNode()
      requires Valid() && entry != null && entry.matching == null
      ensures AtReturn(history, trail) && |calls| == |trail.stack|
    {
      hide Explored, ListInvariant, LongestInvariant, Represents, WellFormed;
      assert NodeOf(history, trail.at, 0, nodes[1..]);
    }

    lemma GiveUp()
      requires Valid() && AtReturn(history, trail) && |calls| == 0 == |trail.stack|
      ensures forall killed :: SingleSpec(model, history, computePartial, killed, false, longest)
      ensures Stuck(history, Here())
    {
      hide IsPartial, WellFormed;
      VisitedBounded(model, history, nodes, trail, Vars(calls, state, longest), computePartial);
      GivesUp(model, history, nodes, trail, Vars(calls, state, longest), computePartial);
    }

    lemma Finished()
      requires Valid() && headEntry.next == null
      ensures IsComplete(model, history, trail.stack) && |calls| == |trail.stack| && |longest| == Size(history)
      ensures IdsOf(calls) == trail.stack
    {
      hide SearchInvariant, WellFormed, IsComplete, LongestValid;
      NextNode(nodes, Now(trail), 0);
      VisitedBounded(model, history, nodes, trail, Vars(calls, state, longest), computePartial);
      Succeeds(model, history, nodes, trail, Vars(calls, state, longest), computePartial);
      LongestSize(model, history, longest);
    }
  }

  /** Lifts the call the cursor is at, and its return, out of the list. */
  method LiftCurrent<S, I, O>(
    entry: Node<I, O>, ghost m: Model<S, I, O>, ghost h: History<I, O>, ghost nodes: seq<Node<I, O>>,
    ghost t: Trail, ghost v: Vars<S, I, O>, ghost computePartial: bool, ghost after: Links)
    requires WellFormed(h) && SearchInvariant(m, h, nodes, t, v, computePartial) && AtCall(h, t) && AtRemaining(h, t)
    requires IsId(h, Current(h, t)) && LiftedOne(h, Now(t), after, Current(h, t))
    requires Represents(nodes, Now(t)) && entry == NodeAt(nodes, t.at + 1)
    modifies nodes
    ensures Represents(nodes, after)
  {
    hide SearchInvariant, WellFormed, Represents, Linked, LiveSlots, Elems, Lifted;
    CallFacts(m, h, nodes, t, v, computePartial);
    ListNow(m, h, nodes, t, v, computePartial);
    CallIsId(h, t.at);
    Lift(entry, nodes, Now(t), LiveSlots(h, Elems(t.stack)), t.at + 1, CurrentReturn(h, t));
  }

  method UnliftTopEntry<I, O>(
    entry: Node<I, O>, ghost nodes: seq<Node<I, O>>, ghost h: History<I, O>,
    ghost before: Links, ghost after: Links, ghost a: int)
    requires WellFormed(h) && IsId(h, a) && |nodes| == |h| + 1 && UnliftedOne(h, before, after, a)
    requires Represents(nodes, before) && TopEntry(h, nodes, entry, a)
    modifies nodes
    ensures Represents(nodes, after)
  {
    hide WellFormed, Represents, Removed, Unlifted;
    Unlift(entry, nodes, before, CallSlot(h, a), ReturnSlot(h, a));
  }

  /** One of the first `looks` looks at the kill flag has seen it set. */
  ghost predicate SawKill(kill: nat -> bool, looks: nat) {
    exists t: nat :: t < looks && kill(t)
  }

  /** How a search has ended. `points` is where it was before each of its rounds and at last; each round is preceded
      by one look at the kill flag. A search that succeeds has reached the end and records its stack for every
      operation; any other has looked once more, and was stuck or saw the flag, and what it has recorded by then
      is its result. */
  ghost predicate Ended<S, I, O>(
    m: Model<S, I, O>, h: History<I, O>, computePartial: bool, kill: nat -> bool,
    ok: bool, longest: Longest, looks: nat, points: seq<Point>)
    requires WellFormed(h)
  {
    && IsSearch(m, h, computePartial, points)
    && var last := points[|points| - 1];
    if ok then
      AtEnd(h, last) && looks == |points| - 1 && longest == seq(Size(h), _ => Some(last.stack))
    else
      && !AtEnd(h, last) && looks == |points| && longest == last.longest
      && (Stuck(h, last) || kill(looks - 1))
      && (computePartial ==> Recorded(last.visited, last.stack, longest))
  }

  /** Searches for a linearization. `kill(t)` is what the `t`-th look at the kill flag sees; only the `looks`
      looks that the search has made count. */
  method CheckSingle<S(!new), I(!new), O(!new)>(
    model: Model<S, I, O>, history: History<I, O>, computePartial: bool, kill: nat -> bool)
    returns (ok: bool, longest: Longest, ghost looks: nat, ghost points: seq<Point>)
    requires GoodModel(model) && WellFormed(history)
    ensures SingleSpec(model, history, computePartial, SawKill(kill, looks), ok, longest)
    ensures Ended(model, history, computePartial, kill, ok, longest, looks, points)
    ensures (history != [] ==> 0 < looks) && (ok ==> Size(history) <= looks)
    ensures forall t: nat :: t + 1 < looks ==> !kill(t)
    ensures SawKill(kill, looks) ==> !ok && kill(looks - 1)
  {
    hide Run.Valid, WellFormed, GoodModel, SingleSpec, IsComplete, Orders, Moves, Recorded, Stuck, IsSearch;
    SearchBegins(model, history, computePartial);
    var run := new Run(model, history, computePartial);
    ghost var orders := Orders(Size(history), Size(history));
    var polls := 0;
    points := [run.Here()];
    while run.headEntry.next != null
      invariant run.Valid() && run.model == model && run.history == history && run.computePartial == computePartial
      invariant !SawKill(kill, polls)
      invariant |points| == polls + 1 && IsSearch(model, history, computePartial, points) && points[polls] == run.Here()
      invariant fresh(run) && fresh(run.linearized) && fresh(run.cache)
      invariant forall k :: 0 <= k < |run.nodes| ==> fresh(run.nodes[k])
      decreases orders - run.trail.visited, |run.trail.stack|, |history| - run.trail.at
    {
      run.Bounded();
      run.EmptyAtEnd();
      run.Unfinished();
      if kill(polls) {
        assert SawKill(kill, polls + 1);
        return false, run.longest, polls + 1, points;
      }
      polls := polls + 1;
      var gaveUp := run.Round();
      if gaveUp {
        return false, run.longest, polls, points;
      }
      SearchGrows(model, history, computePartial, points, run.Here());
      points := points + [run.Here()];
      run.Bounded();
    }
    run.EmptyAtEnd();
    run.Finished();
    var ids := IdsOf(run.calls);
    longest := seq(|run.longest|, _ => Some(ids));
    CompleteSpec(model, history, computePartial, SawKill(kill, polls), ids, longest);
    EnoughRounds(model, history, computePartial, points);
    return true, longest, polls, points;
  }

  /** A complete linearization takes a round for each operation. */
  lemma EnoughRounds<S(!new), I(!new), O(!new)>(
    m: Model<S, I, O>, h: History<I, O>, computePartial: bool, points: seq<Point>)
    requires WellFormed(h) && IsSearch(m, h, computePartial, points) && IsComplete(m, h, points[|points| - 1].stack)
    ensures Size(h) < |points| && (h != [] ==> 1 < |points|)
  {
    StackIsBounded(m, h, computePartial, points, |points| - 1);
    CompleteIsFull(m, h, points[|points| - 1].stack);
  }

  lemma CompleteSpec<S(!new), I(!new), O(!new)>(
    m: Model<S, I, O>, h: History<I, O>, computePartial: bool, killed: bool, ids: seq<int>, longest: Longest)
    requires WellFormed(h) && IsComplete(m, h, ids) && |longest| == Size(h)
    requires forall k :: 0 <= k < |longest| ==> longest[k] == Some(ids)
    ensures SingleSpec(m, h, computePartial, killed, true, longest)
  {
  }
}
