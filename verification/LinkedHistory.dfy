/** The doubly linked list of call and return nodes that the search unlinks and relinks in place.
    A node has a slot: 0 is the sentinel, i + 1 the node of entry i of the history; the slot after
    the last node stands for null. `Links` is the value of all the pointers. */
module LinkedHistory {
  import opened Linearizability

  // ---------- pointers as a value ----------

  /** The successor and the predecessor of every slot; -1 is the predecessor of the sentinel. */
  datatype Links = Links(next: seq<int>, prev: seq<int>)

  ghost predicate ValidLinks(l: Links, n: int) {
    && 0 < n == |l.next| == |l.prev|
    && (forall i :: 0 <= i < n ==> 0 < l.next[i] <= n)
    && (forall i :: 1 <= i < n ==> 0 <= l.prev[i] < n)
    && l.prev[0] == -1
  }

  /** Makes the neighbours of slot `i` neighbours of each other. */
  ghost function Bypassed(l: Links, n: int, i: int): (r: Links)
    requires ValidLinks(l, n) && 0 < i < n
    ensures ValidLinks(r, n)
  {
    Links(l.next[l.prev[i] := l.next[i]],
          if l.next[i] < n then l.prev[l.next[i] := l.prev[i]] else l.prev)
  }

  /** Makes the neighbours that slot `i` remembers point at it. */
  ghost function Restored(l: Links, n: int, i: int): (r: Links)
    requires ValidLinks(l, n) && 0 < i < n
    ensures ValidLinks(r, n)
  {
    Links(l.next[l.prev[i] := i],
          if l.next[i] < n then l.prev[l.next[i] := i] else l.prev)
  }

  ghost function Lifted(l: Links, n: int, call: int, ret: int): Links
    requires ValidLinks(l, n) && 0 < call < n && 0 < ret < n
  {
    Bypassed(Bypassed(l, n, call), n, ret)
  }

  ghost function Unlifted(l: Links, n: int, call: int, ret: int): Links
    requires ValidLinks(l, n) && 0 < call < n && 0 < ret < n
  {
    Restored(Restored(l, n, ret), n, call)
  }

  // ---------- neighbours among the live slots ----------

  ghost predicate Slots(live: set<int>, n: int) {
    0 in live && forall i :: i in live ==> 0 <= i < n
  }

  /** `i` is live, `j` is live or the end, and nothing between them is. */
  ghost predicate Adjacent(live: set<int>, n: int, i: int, j: int) {
    && i in live && i < j <= n && (j < n ==> j in live)
    && forall k :: i < k < j ==> k !in live
  }

  /** The list from the sentinel is exactly the live slots, in order, linked both ways. */
  ghost predicate Linked(l: Links, n: int, live: set<int>) {
    && ValidLinks(l, n) && Slots(live, n)
    && (forall i, j :: Adjacent(live, n, i, j) ==> l.next[i] == j && (j < n ==> l.prev[j] == i))
  }

  lemma {:induction false} NextExists(live: set<int>, n: int, i: int, from: int) returns (j: int)
    requires i in live && i < from <= n && forall k :: i < k < from ==> k !in live
    ensures Adjacent(live, n, i, j) && from <= j
    decreases n - from
  {
    if from == n || from in live {
      j := from;
    } else {
      j := NextExists(live, n, i, from + 1);
    }
  }

  lemma {:induction false} PrevExists(live: set<int>, n: int, j: int, upto: int) returns (i: int)
    requires Slots(live, n) && 0 <= upto < j <= n && (j < n ==> j in live)
    requires forall k :: upto < k < j ==> k !in live
    ensures Adjacent(live, n, i, j) && i <= upto
  {
    if upto in live {
      i := upto;
    } else {
      i := PrevExists(live, n, j, upto - 1);
    }
  }

  lemma LinkedNext(l: Links, n: int, live: set<int>, i: int)
    requires Linked(l, n, live) && i in live
    ensures Adjacent(live, n, i, l.next[i])
  {
    var j := NextExists(live, n, i, i + 1);
  }

  lemma LinkedPrev(l: Links, n: int, live: set<int>, j: int)
    requires Linked(l, n, live) && j in live && 0 < j
    ensures Adjacent(live, n, l.prev[j], j)
  {
    var i := PrevExists(live, n, j, j - 1);
  }

  /** Bypassing a live slot takes it, and only it, out of the list. */
  lemma BypassLinked(l: Links, n: int, live: set<int>, s: int)
    requires Linked(l, n, live) && s in live && 0 < s
    ensures Linked(Bypassed(l, n, s), n, live - {s})
  {
    LinkedNext(l, n, live, s);
    LinkedPrev(l, n, live, s);
    var p, q, r := l.prev[s], l.next[s], Bypassed(l, n, s);
    forall i, j | Adjacent(live - {s}, n, i, j)
      ensures r.next[i] == j && (j < n ==> r.prev[j] == i)
    {
      BypassAdjacent(live, n, p, s, q, i, j);
    }
  }

  lemma BypassAdjacent(live: set<int>, n: int, p: int, s: int, q: int, i: int, j: int)
    requires Slots(live, n) && Adjacent(live, n, p, s) && Adjacent(live, n, s, q) && s < n
    requires Adjacent(live - {s}, n, i, j)
    ensures (i == p && j == q) || (i != p && j != q && Adjacent(live, n, i, j))
  {
    if i < s < j {
      assert i <= p && q <= j;
      assert p in live - {s};
      assert q < n ==> q in live - {s};
    } else {
      forall k | i < k < j
        ensures k !in live
      {
        assert k !in live - {s};
      }
    }
  }

  /** Putting the slot back restores every pointer that taking it out changed. */
  lemma RestoreBypassed(l: Links, n: int, live: set<int>, s: int)
    requires Linked(l, n, live) && s in live && 0 < s
    ensures Restored(Bypassed(l, n, s), n, s) == l
  {
    LinkedNext(l, n, live, s);
    LinkedPrev(l, n, live, s);
  }

  lemma LiftLinked(l: Links, n: int, live: set<int>, call: int, ret: int)
    requires Linked(l, n, live) && call in live && ret in live && 0 < call < ret
    ensures Linked(Lifted(l, n, call, ret), n, live - {call} - {ret})
  {
    BypassLinked(l, n, live, call);
    BypassLinked(Bypassed(l, n, call), n, live - {call}, ret);
  }

  /** What `unlift` needs of the pointers that the two removed nodes kept. */
  ghost predicate Removed(l: Links, n: int, call: int, ret: int) {
    && ValidLinks(l, n) && 0 < call < n && 0 < ret < n && l.prev[ret] != ret
    && (var m := Restored(l, n, ret); m.prev[call] != call && m.next[call] < n)
  }

  /** `unlift` undoes `lift` pointer for pointer, when the list is again what `lift` left. */
  lemma UnliftLifted(l: Links, n: int, live: set<int>, call: int, ret: int)
    requires Linked(l, n, live) && call in live && ret in live && 0 < call < ret
    ensures Removed(Lifted(l, n, call, ret), n, call, ret)
    ensures Unlifted(Lifted(l, n, call, ret), n, call, ret) == l
  {
    BypassLinked(l, n, live, call);
    RestoreBypassed(Bypassed(l, n, call), n, live - {call}, ret);
    RestoreBypassed(l, n, live, call);
    LinkedNext(l, n, live, call);
    LinkedPrev(l, n, live, call);
    LinkedPrev(Bypassed(l, n, call), n, live - {call}, ret);
  }

  /** The links of a list that has just been built: every slot next to its neighbour. */
  ghost function FreshLinks(n: nat): Links {
    Links(seq(n, i => i + 1), seq(n, i => i - 1))
  }

  ghost predicate IsSlot(n: nat, i: int) {
    0 <= i < n
  }

  ghost function AllSlots(n: nat): set<int> {
    set i: int | 0 <= i < n && IsSlot(n, i)
  }

  lemma FreshLinked(n: nat)
    requires 0 < n
    ensures Linked(FreshLinks(n), n, AllSlots(n))
  {
    forall i, j | Adjacent(AllSlots(n), n, i, j)
      ensures j == i + 1
    {
      assert i + 1 < j ==> i + 1 !in AllSlots(n);
    }
  }

  // ---------- the nodes on the heap ----------

  datatype Value<I, O> = NoValue | Input(input: I) | Output(output: O)

  class Node<I, O> {
    const value: Value<I, O>
    /** The return node of a call; null in a return node. */
    const matching: Node?<I, O>
    const id: int
    ghost const slot: int
    var next: Node?<I, O>
    var prev: Node?<I, O>

    constructor (value: Value<I, O>, matching: Node?<I, O>, id: int, ghost slot: int)
      ensures this.value == value && this.matching == matching && this.id == id && this.slot == slot
      ensures next == null && prev == null
    {
      this.value := value;
      this.matching := matching;
      this.id := id;
      this.slot := slot;
      this.next := null;
      this.prev := null;
    }
  }

  /** Node `k` of the sequence has slot `base + k`; so the nodes are distinct. */
  ghost predicate Placed<I, O>(nodes: seq<Node<I, O>>, base: int) {
    forall k :: 0 <= k < |nodes| ==> nodes[k].slot == base + k
  }

  ghost function NodeAt<I, O>(nodes: seq<Node<I, O>>, i: int): Node?<I, O> {
    if 0 <= i < |nodes| then nodes[i] else null
  }

  /** The pointers on the heap are the ones in `l`. */
  ghost predicate Represents<I, O>(nodes: seq<Node<I, O>>, l: Links)
    reads nodes
  {
    && Placed(nodes, 0)
    && ValidLinks(l, |nodes|)
    && (forall i {:trigger nodes[i].next} :: 0 <= i < |nodes| ==> nodes[i].next == NodeAt(nodes, l.next[i]))
    && (forall i {:trigger nodes[i].prev} :: 0 <= i < |nodes| ==> nodes[i].prev == NodeAt(nodes, l.prev[i]))
  }

  lemma NeighboursOf<I, O>(nodes: seq<Node<I, O>>, l: Links, i: int)
    requires Represents(nodes, l) && 0 < i < |nodes|
    ensures nodes[i].prev == nodes[l.prev[i]] && nodes[i].next == NodeAt(nodes, l.next[i])
  {
  }

  /** Makes the neighbours of `x` neighbours of each other. */
  method Bypass<I, O>(x: Node<I, O>, ghost nodes: seq<Node<I, O>>, ghost l: Links, ghost i: int)
    requires Represents(nodes, l) && 0 < i < |nodes| && x == nodes[i]
    modifies nodes
    ensures Represents(nodes, Bypassed(l, |nodes|, i))
  {
    NeighboursOf(nodes, l, i);
    x.prev.next := x.next;
    if x.next != null {
      x.next.prev := x.prev;
    }
    ghost var t := Bypassed(l, |nodes|, i);
    forall k | 0 <= k < |nodes|
      ensures nodes[k].next == NodeAt(nodes, t.next[k]) && nodes[k].prev == NodeAt(nodes, t.prev[k])
    {
    }
  }

  /** Makes the neighbours that `x` remembers point at it. */
  method Restore<I, O>(x: Node<I, O>, ghost nodes: seq<Node<I, O>>, ghost l: Links, ghost i: int)
    requires Represents(nodes, l) && 0 < i < |nodes| && x == nodes[i] && l.prev[i] != i
    modifies nodes
    ensures Represents(nodes, Restored(l, |nodes|, i))
  {
    NeighboursOf(nodes, l, i);
    x.prev.next := x;
    if x.next != null {
      x.next.prev := x;
    }
    ghost var t := Restored(l, |nodes|, i);
    forall k | 0 <= k < |nodes|
      ensures nodes[k].next == NodeAt(nodes, t.next[k]) && nodes[k].prev == NodeAt(nodes, t.prev[k])
    {
    }
  }

  /** Takes a call and its return out of the list; a live call always has a successor. */
  method Lift<I, O>(
    entry: Node<I, O>, ghost nodes: seq<Node<I, O>>, ghost l: Links,
    ghost live: set<int>, ghost call: int, ghost ret: int)
    requires Represents(nodes, l) && Linked(l, |nodes|, live)
    requires 0 < call < ret && call in live && ret in live
    requires entry == nodes[call] && entry.matching == nodes[ret]
    modifies nodes
    ensures Represents(nodes, Lifted(l, |nodes|, call, ret))
  {
    LinkedNext(l, |nodes|, live, call);
    assert entry.next != null;
    Bypass(entry, nodes, l, call);
    Bypass(entry.matching, nodes, Bypassed(l, |nodes|, call), ret);
  }

  /** Puts a call and its return back, the return first. */
  method Unlift<I, O>(entry: Node<I, O>, ghost nodes: seq<Node<I, O>>, ghost l: Links, ghost call: int, ghost ret: int)
    requires Represents(nodes, l) && Removed(l, |nodes|, call, ret)
    requires entry == nodes[call] && entry.matching == nodes[ret]
    modifies nodes
    ensures Represents(nodes, Unlifted(l, |nodes|, call, ret))
  {
    Restore(entry.matching, nodes, l, ret);
    assert entry.next != null;
    Restore(entry, nodes, Restored(l, |nodes|, ret), call);
  }

  // ---------- building the list ----------

  method InsertBefore<I, O>(n: Node<I, O>, mark: Node?<I, O>) returns (r: Node<I, O>)
    requires mark != null ==> mark != n && mark.prev != n && mark.prev != mark
    modifies n, mark, if mark == null then null else mark.prev
    ensures r == n
    ensures mark == null ==> unchanged(n)
    ensures mark != null ==> n.next == mark && mark.prev == n && mark.next == old(mark.next)
    ensures mark != null && old(mark.prev) == null ==> n.prev == old(n.prev)
    ensures mark != null && old(mark.prev) != null ==> n.prev == old(mark.prev) && n.prev.next == n
  {
    if mark != null {
      var beforeMark := mark.prev;
      mark.prev := n;
      n.next := mark;
      if beforeMark != null {
        n.prev := beforeMark;
        beforeMark.next := n;
      }
    }
    r := n;
  }

  /** The nodes are chained in order, and nothing comes before the first or after the last. */
  ghost predicate Chained<I, O>(nodes: seq<Node<I, O>>)
    reads nodes
  {
    && (forall k {:trigger nodes[k].next} :: 0 <= k < |nodes| ==> nodes[k].next == NodeAt(nodes, k + 1))
    && (forall k {:trigger nodes[k].prev} :: 0 <= k < |nodes| ==> nodes[k].prev == NodeAt(nodes, k - 1))
  }

  /** The nodes are those of the entries from `from` on, each call with its return as its match. */
  ghost predicate NodesFrom<I, O>(h: History<I, O>, from: int, nodes: seq<Node<I, O>>)
    requires WellFormed(h)
  {
    && 0 <= from <= |h| && |nodes| == |h| - from
    && Placed(nodes, from + 1)
    && forall p :: from <= p < |h| ==> NodeOf(h, p, from, nodes)
  }

  ghost predicate NodeOf<I, O>(h: History<I, O>, p: int, from: int, nodes: seq<Node<I, O>>)
    requires WellFormed(h) && 0 <= from <= p < |h| == from + |nodes|
  {
    var node := nodes[p - from];
    && node.id == h[p].id
    && match h[p]
       case CallEntry(input, id, _, _) =>
         node.value == Input(input) && ReturnPos(h, id) > p && node.matching == nodes[ReturnPos(h, id) - from]
       case ReturnEntry(output, _, _, _) =>
         node.value == Output(output) && node.matching == null
  }

  /** `byId` finds the node of every return from `from` on. */
  ghost predicate ReturnsById<I, O>(h: History<I, O>, from: int, nodes: seq<Node<I, O>>, byId: map<int, Node<I, O>>) {
    |nodes| == |h| - from &&
    forall q :: 0 <= from <= q < |h| && h[q].ReturnEntry? ==> h[q].id in byId && byId[h[q].id] == nodes[q - from]
  }

  method MakeLinkedEntries<I, O>(entries: History<I, O>) returns (root: Node?<I, O>, ghost nodes: seq<Node<I, O>>)
    requires WellFormed(entries)
    ensures NodesFrom(entries, 0, nodes) && Chained(nodes)
    ensures forall k :: 0 <= k < |nodes| ==> fresh(nodes[k])
    ensures root == NodeAt(nodes, 0)
  {
    root := null;
    nodes := [];
    var byId: map<int, Node<I, O>> := map[];
    var i := |entries|;
    while i > 0
      invariant 0 <= i <= |entries| && NodesFrom(entries, i, nodes) && Chained(nodes)
      invariant forall k :: 0 <= k < |nodes| ==> fresh(nodes[k])
      invariant root == NodeAt(nodes, 0)
      invariant ReturnsById(entries, i, nodes, byId)
    {
      hide WellFormed, NodesFrom, ReturnsById, Chained;
      i := i - 1;
      var elem := entries[i];
      ghost var rest, found := nodes, byId;
      var entry: Node<I, O>;
      if elem.ReturnEntry? {
        entry := new Node(Output(elem.output), null, elem.id, i + 1);
        byId := byId[elem.id := entry];
      } else {
        MatchFound(entries, i + 1, rest, byId);
        entry := new Node(Input(elem.input), byId[elem.id], elem.id, i + 1);
      }
      PrependNode(entries, i, entry, rest, found);
      root := Prepend(entry, root, rest, i + 1);
      nodes := [entry] + rest;
    }
  }

  /** Puts a new node before the first of a chain. */
  method Prepend<I, O>(entry: Node<I, O>, root: Node?<I, O>, ghost rest: seq<Node<I, O>>, ghost base: int)
    returns (r: Node<I, O>)
    requires Chained(rest) && root == NodeAt(rest, 0) && Placed([entry] + rest, base)
    requires entry.next == null && entry.prev == null
    modifies entry, root
    ensures r == entry && Chained([entry] + rest)
  {
    ghost var nodes := [entry] + rest;
    assert forall k :: 0 <= k < |rest| ==> nodes[k + 1] == rest[k];
    assert nodes[0] == entry && (rest != [] ==> nodes[1] == root && nodes[0].slot < nodes[1].slot);
    assert rest != [] ==> root == rest[0] && root.prev == null;
    r := InsertBefore(entry, root);
    forall k | 0 <= k < |nodes|
      ensures nodes[k].next == NodeAt(nodes, k + 1) && nodes[k].prev == NodeAt(nodes, k - 1)
    {
      assert 0 < k ==> nodes[k] == rest[k - 1];
    }
  }

  lemma MatchFound<I, O>(h: History<I, O>, from: int, rest: seq<Node<I, O>>, byId: map<int, Node<I, O>>)
    requires WellFormed(h) && 0 < from <= |h| && ReturnsById(h, from, rest, byId) && h[from - 1].CallEntry?
    ensures IsId(h, h[from - 1].id) && h[from - 1].id in byId
    ensures from <= ReturnPos(h, h[from - 1].id) && byId[h[from - 1].id] == rest[ReturnPos(h, h[from - 1].id) - from]
  {
    PositionsUnique(h, from - 1);
  }

  lemma PrependNode<I, O>(
    h: History<I, O>, from: int, entry: Node<I, O>, rest: seq<Node<I, O>>, byId: map<int, Node<I, O>>)
    requires WellFormed(h) && 0 <= from < |h| && NodesFrom(h, from + 1, rest) && ReturnsById(h, from + 1, rest, byId)
    requires entry.slot == from + 1 && NewNode(h, from, entry, byId)
    ensures NodesFrom(h, from, [entry] + rest) && Placed([entry] + rest, from + 1)
    ensures ReturnsById(h, from, [entry] + rest, if h[from].ReturnEntry? then byId[h[from].id := entry] else byId)
  {
    PrependReturns(h, from, entry, rest, byId);
    hide WellFormed, ReturnsById;
    var nodes := [entry] + rest;
    assert NodeOf(h, from, from, nodes) by {
      if h[from].CallEntry? {
        MatchFound(h, from + 1, rest, byId);
      }
    }
    hide NewNode;
    forall p | from < p < |h|
      ensures NodeOf(h, p, from, nodes)
    {
      assert NodeOf(h, p, from + 1, rest);
      assert nodes[p - from] == rest[p - (from + 1)];
    }
  }

  /** The node made for the entry at `from`, from the returns found so far. */
  ghost predicate NewNode<I, O>(h: History<I, O>, from: int, entry: Node<I, O>, byId: map<int, Node<I, O>>)
    requires 0 <= from < |h|
  {
    && entry.id == h[from].id
    && match h[from]
       case CallEntry(input, id, _, _) => entry.value == Input(input) && id in byId && entry.matching == byId[id]
       case ReturnEntry(output, _, _, _) => entry.value == Output(output) && entry.matching == null
  }

  lemma PrependReturns<I, O>(
    h: History<I, O>, from: int, entry: Node<I, O>, rest: seq<Node<I, O>>, byId: map<int, Node<I, O>>)
    requires WellFormed(h) && 0 <= from < |h| && ReturnsById(h, from + 1, rest, byId)
    ensures ReturnsById(h, from, [entry] + rest, if h[from].ReturnEntry? then byId[h[from].id := entry] else byId)
  {
    var nodes := [entry] + rest;
    var after := if h[from].ReturnEntry? then byId[h[from].id := entry] else byId;
    forall q | from <= q < |h| && h[q].ReturnEntry?
      ensures h[q].id in after && after[h[q].id] == nodes[q - from]
    {
      if from < q {
        assert nodes[q - from] == rest[q - (from + 1)];
        ReturnsDiffer(h, from, q);
      }
    }
  }

  lemma ReturnsDiffer<I, O>(h: History<I, O>, p: int, q: int)
    requires WellFormed(h) && 0 <= p < q < |h|
    ensures h[p].ReturnEntry? ==> h[p].id != h[q].id
  {
  }

  method Length<I, O>(first: Node?<I, O>, ghost nodes: seq<Node<I, O>>) returns (l: nat)
    requires Chained(nodes) && first == NodeAt(nodes, 0)
    ensures l == |nodes|
  {
    l := 0;
    var n := first;
    while n != null
      invariant l <= |nodes| && n == NodeAt(nodes, l)
      decreases |nodes| - l
    {
      n := n.next;
      l := l + 1;
    }
  }
}
