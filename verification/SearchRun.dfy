/** The search as a run of a simple machine: a set of sequences instead of a cache, a sequence of ids instead of a
    stack of nodes, and the history itself instead of a linked list. */
module SearchRun {
  import opened Linearizability
  import opened Search

  /** Between two rounds: what has been visited, the ids on the stack, the position of the cursor, and what is
      recorded. */
  datatype Point = Point(visited: set<seq<int>>, stack: seq<int>, at: int, longest: Longest)

  /** `at` is the first position after `from` of an operation that is not on the stack, or the end. */
  ghost predicate Nearest<I, O>(h: History<I, O>, stack: seq<int>, from: int, at: int) {
    && -1 <= from < at <= |h| && LiftedBetween(h, Elems(stack), from, at)
    && (at < |h| ==> h[at].id !in stack)
  }

  /** `r` is `longest` with the stack recorded for each of its operations that had none as long. */
  ghost predicate RecordedIn(longest: Longest, stack: seq<int>, r: Longest) {
    && |r| == |longest|
    && forall id :: 0 <= id < |longest| ==>
         r[id] == if id in stack && (longest[id] == None || |stack| > |longest[id].value|) then Some(stack)
           else longest[id]
  }

  ghost function Begin<I, O>(h: History<I, O>): Point {
    Point({[]}, [], 0, seq(Size(h), _ => None))
  }

  /** The cursor is at the call of an operation. */
  ghost predicate FacesCall<I, O>(h: History<I, O>, p: Point) {
    AllIds(h, p.stack) && 0 <= p.at < |h| && h[p.at].CallEntry? && IsId(h, h[p.at].id)
  }

  ghost predicate FacesReturn<I, O>(h: History<I, O>, p: Point) {
    AllIds(h, p.stack) && 0 <= p.at < |h| && h[p.at].ReturnEntry?
  }

  /** The call may come next, and nothing like it has been visited. */
  ghost predicate IsNew<S, I, O>(m: Model<S, I, O>, h: History<I, O>, p: Point)
    requires WellFormed(h) && FacesCall(h, p)
  {
    var a := h[p.at].id;
    StepFrom(m, h, p.stack, a).0 && !Reached(m, h, p.visited, p.stack + [a])
  }

  /** A call that is not new is passed over. */
  ghost predicate Skips<S, I, O>(m: Model<S, I, O>, h: History<I, O>, p: Point, q: Point)
    requires WellFormed(h)
  {
    && FacesCall(h, p) && !IsNew(m, h, p)
    && q == p.(at := q.at) && Nearest(h, p.stack, p.at, q.at)
  }

  /** A new one goes on the stack, and the cursor back to the first call that is left. */
  ghost predicate Pushes<S, I, O>(m: Model<S, I, O>, h: History<I, O>, p: Point, q: Point)
    requires WellFormed(h)
  {
    && FacesCall(h, p) && IsNew(m, h, p)
    && var u := p.stack + [h[p.at].id];
    q == Point(p.visited + {u}, u, q.at, p.longest) && Nearest(h, u, -1, q.at)
  }

  /** At a return the last operation is taken back, after the stack has been recorded if that is asked for; the
      cursor goes behind its call. */
  ghost predicate Pops<I, O>(h: History<I, O>, computePartial: bool, p: Point, q: Point)
    requires WellFormed(h)
  {
    && FacesReturn(h, p) && p.stack != []
    && var n := |p.stack| - 1;
    && IsId(h, p.stack[n])
    && q == Point(p.visited, p.stack[..n], q.at, q.longest) && Nearest(h, q.stack, CallPos(h, p.stack[n]), q.at)
    && if computePartial then RecordedIn(p.longest, p.stack, q.longest) else q.longest == p.longest
  }

  ghost predicate Moves<S, I, O>(m: Model<S, I, O>, h: History<I, O>, computePartial: bool, p: Point, q: Point)
    requires WellFormed(h)
  {
    Skips(m, h, p, q) || Pushes(m, h, p, q) || Pops(h, computePartial, p, q)
  }

  /** Nothing is left to linearize. */
  ghost predicate AtEnd<I, O>(h: History<I, O>, p: Point) {
    p.at >= |h|
  }

  /** A return is met with nothing on the stack. */
  ghost predicate Stuck<I, O>(h: History<I, O>, p: Point) {
    FacesReturn(h, p) && p.stack == []
  }

  ghost predicate IsSearch<S, I, O>(m: Model<S, I, O>, h: History<I, O>, computePartial: bool, points: seq<Point>)
    requires WellFormed(h)
  {
    && points != [] && points[0] == Begin(h)
    && forall k :: 0 <= k < |points| - 1 ==> Moves(m, h, computePartial, points[k], points[k + 1])
  }

  lemma SearchBegins<S, I, O>(m: Model<S, I, O>, h: History<I, O>, computePartial: bool)
    requires WellFormed(h)
    ensures IsSearch(m, h, computePartial, [Begin(h)])
  {
  }

  lemma SearchGrows<S, I, O>(
    m: Model<S, I, O>, h: History<I, O>, computePartial: bool, points: seq<Point>, q: Point)
    requires WellFormed(h) && IsSearch(m, h, computePartial, points)
    requires Moves(m, h, computePartial, points[|points| - 1], q)
    ensures IsSearch(m, h, computePartial, points + [q])
  {
    hide Moves;
  }

  // ---------- the machine is deterministic ----------

  lemma NearestIsUnique<I, O>(h: History<I, O>, stack: seq<int>, from: int, at: int, other: int)
    requires Nearest(h, stack, from, at) && Nearest(h, stack, from, other)
    ensures at == other
  {
    assert forall x :: x in Elems(stack) ==> x in stack;
  }

  lemma MovesOneWay<S, I, O>(
    m: Model<S, I, O>, h: History<I, O>, computePartial: bool, p: Point, q: Point, other: Point)
    requires WellFormed(h) && Moves(m, h, computePartial, p, q) && Moves(m, h, computePartial, p, other)
    ensures q == other
  {
    hide IsNew, Nearest, WellFormed;
    var from, stack := if Skips(m, h, p, q) then p.at else if Pushes(m, h, p, q) then -1
      else CallPos(h, p.stack[|p.stack| - 1]), q.stack;
    NearestIsUnique(h, stack, from, q.at, other.at);
    assert q.longest == other.longest;
  }

  lemma MovesAt<S, I, O>(m: Model<S, I, O>, h: History<I, O>, computePartial: bool, points: seq<Point>, k: nat)
    requires WellFormed(h) && IsSearch(m, h, computePartial, points) && k < |points| - 1
    ensures points[0] == Begin(h) && Moves(m, h, computePartial, points[k], points[k + 1])
  {
    hide Moves;
  }

  /** There is one search: two runs agree as far as both go. */
  lemma {:induction false} SearchIsUnique<S, I, O>(
    m: Model<S, I, O>, h: History<I, O>, computePartial: bool, a: seq<Point>, b: seq<Point>, k: nat)
    requires WellFormed(h) && IsSearch(m, h, computePartial, a) && IsSearch(m, h, computePartial, b)
    requires k < |a| && k < |b|
    ensures a[k] == b[k]
    decreases k
  {
    if k > 0 {
      hide IsSearch, Moves, WellFormed;
      SearchIsUnique(m, h, computePartial, a, b, k - 1);
      MovesAt(m, h, computePartial, a, k - 1);
      MovesAt(m, h, computePartial, b, k - 1);
      MovesOneWay(m, h, computePartial, a[k - 1], a[k], b[k]);
    }
  }

  // ---------- what a run has done by its end ----------

  /** Each round linearizes at most one operation. */
  lemma {:induction false} StackIsBounded<S, I, O>(
    m: Model<S, I, O>, h: History<I, O>, computePartial: bool, points: seq<Point>, k: nat)
    requires WellFormed(h) && IsSearch(m, h, computePartial, points) && k < |points|
    ensures |points[k].stack| <= k && |points[k].longest| == Size(h)
    decreases k
  {
    if k > 0 {
      StackIsBounded(m, h, computePartial, points, k - 1);
      MovesAt(m, h, computePartial, points, k - 1);
      hide IsSearch, IsNew, Nearest, WellFormed;
    }
  }

  /** What is recorded for an operation gives way only to something longer, and without partial results to nothing. */
  lemma LongerReplaces<S, I, O>(
    m: Model<S, I, O>, h: History<I, O>, computePartial: bool, p: Point, q: Point, id: int)
    requires WellFormed(h) && Moves(m, h, computePartial, p, q) && 0 <= id < |p.longest|
    ensures |q.longest| == |p.longest|
    ensures q.longest[id] != p.longest[id] ==>
      && computePartial && FacesReturn(h, p) && q.longest[id] == Some(p.stack) && id in p.stack
      && (p.longest[id] == None || |p.longest[id].value| < |p.stack|)
  {
    hide IsNew, Nearest, WellFormed;
  }

  /** What is recorded never gets shorter. */
  lemma RecordsGrow<S, I, O>(
    m: Model<S, I, O>, h: History<I, O>, computePartial: bool, p: Point, q: Point, v: seq<int>)
    requires WellFormed(h) && Moves(m, h, computePartial, p, q) && AtLeast(p.longest, v)
    ensures AtLeast(q.longest, v)
  {
    hide IsNew, Nearest, WellFormed;
  }

  lemma PopRecords<S, I, O>(m: Model<S, I, O>, h: History<I, O>, p: Point, q: Point)
    requires WellFormed(h) && Moves(m, h, true, p, q) && FacesReturn(h, p) && |p.longest| == Size(h)
    ensures AtLeast(q.longest, p.stack)
  {
    hide IsNew, Nearest, WellFormed;
    forall id | id in p.stack
      ensures IsId(h, id)
    {
      var k :| 0 <= k < |p.stack| && p.stack[k] == id;
    }
  }

  /** When partial results are asked for, every stack that was given up is recorded with each of its operations,
      whether or not the search is told to stop later. */
  lemma {:induction false} GivenUpIsRecorded<S, I, O>(
    m: Model<S, I, O>, h: History<I, O>, points: seq<Point>, k: nat, j: nat)
    requires WellFormed(h) && IsSearch(m, h, true, points) && k < j < |points| && FacesReturn(h, points[k])
    ensures AtLeast(points[j].longest, points[k].stack)
    decreases j
  {
    hide IsSearch, Moves, WellFormed, FacesReturn, AtLeast;
    MovesAt(m, h, true, points, j - 1);
    if k < j - 1 {
      GivenUpIsRecorded(m, h, points, k, j - 1);
      RecordsGrow(m, h, true, points[j - 1], points[j], points[k].stack);
    } else {
      StackIsBounded(m, h, true, points, k);
      PopRecords(m, h, points[k], points[j]);
    }
  }
}
