/** The model of a key/value store, and why a history may be checked one key at a time. */
module KeyValue {
  import opened Linearizability
  import opened Permutations
  import opened Entries

  newtype uint8 = x: int | 0 <= x < 256

  /** Operation 0 reads, 1 writes, anything else appends. */
  datatype KvInput = KvInput(op: uint8, key: string, value: string)

  datatype KvOutput = KvOutput(value: string)

  type KvOperation = Operation<KvInput, KvOutput>

  // ---------- the model of one key ----------

  function KvStep(state: string, input: KvInput, output: KvOutput): (bool, string) {
    if input.op == 0 then (output.value == state, state)
    else if input.op == 1 then (true, input.value)
    else (true, state + input.value)
  }

  const KvModel: Model<string, KvInput, KvOutput> := Model("", KvStep, (s, t) => s == t)

  lemma KvModelIsGood()
    ensures GoodModel(KvModel)
  {
  }

  // ---------- the whole store ----------

  function Lookup(store: map<string, string>, key: string): string {
    if key in store then store[key] else ""
  }

  function StoreStep(store: map<string, string>, input: KvInput, output: KvOutput): (bool, map<string, string>) {
    if input.op == 0 then (output.value == Lookup(store, input.key), store)
    else if input.op == 1 then (true, store[input.key := input.value])
    else (true, store[input.key := Lookup(store, input.key) + input.value])
  }

  const StoreModel: Model<map<string, string>, KvInput, KvOutput> := Model(map[], StoreStep, (s, t) => s == t)

  // ---------- one key of a history ----------

  /** The operations on one key, in their order. */
  function Filter(ops: seq<KvOperation>, key: string): seq<KvOperation> {
    if ops == [] then []
    else
      var last := ops[|ops| - 1];
      Filter(ops[..|ops| - 1], key) + (if last.input.key == key then [last] else [])
  }

  lemma FilterSnoc(ops: seq<KvOperation>, x: KvOperation, key: string)
    ensures Filter(ops + [x], key) == Filter(ops, key) + (if x.input.key == key then [x] else [])
  {
    assert (ops + [x])[..|ops|] == ops;
  }

  lemma {:induction false} FilterConcat(a: seq<KvOperation>, b: seq<KvOperation>, key: string)
    ensures Filter(a + b, key) == Filter(a, key) + Filter(b, key)
  {
    if b == [] {
      assert a + b == a;
    } else {
      var front, last := b[..|b| - 1], b[|b| - 1];
      assert b == front + [last];
      assert a + b == (a + front) + [last];
      FilterConcat(a, front, key);
      FilterSnoc(a + front, last, key);
      FilterSnoc(front, last, key);
    }
  }

  lemma {:induction false} FilterCount(ops: seq<KvOperation>, key: string, x: KvOperation)
    ensures multiset(Filter(ops, key))[x] == if x.input.key == key then multiset(ops)[x] else 0
  {
    if ops != [] {
      var front, last := ops[..|ops| - 1], ops[|ops| - 1];
      assert ops == front + [last];
      FilterCount(front, key, x);
    }
  }

  lemma FilterMember(ops: seq<KvOperation>, key: string, x: KvOperation)
    ensures x in Filter(ops, key) <==> x in ops && x.input.key == key
  {
    FilterCount(ops, key, x);
    assert x in Filter(ops, key) <==> x in multiset(Filter(ops, key));
    assert x in ops <==> x in multiset(ops);
  }

  lemma FilterKeepsElements(a: seq<KvOperation>, b: seq<KvOperation>, key: string)
    requires multiset(a) == multiset(b)
    ensures multiset(Filter(a, key)) == multiset(Filter(b, key))
  {
    forall x: KvOperation
      ensures multiset(Filter(a, key))[x] == multiset(Filter(b, key))[x]
    {
      FilterCount(a, key, x);
      FilterCount(b, key, x);
    }
    assert multiset(Filter(a, key)) == multiset(Filter(b, key));
  }

  ghost predicate SameOnKey(a: seq<KvOperation>, b: seq<KvOperation>, key: string) {
    multiset(Filter(a, key)) == multiset(Filter(b, key))
  }

  /** The same operations on every key are the same operations. */
  lemma SameOnKeysSameElements(a: seq<KvOperation>, b: seq<KvOperation>)
    requires forall key :: SameOnKey(a, b, key)
    ensures multiset(a) == multiset(b)
  {
    forall x: KvOperation
      ensures multiset(a)[x] == multiset(b)[x]
    {
      FilterCount(a, x.input.key, x);
      FilterCount(b, x.input.key, x);
      assert SameOnKey(a, b, x.input.key);
    }
    assert multiset(a) == multiset(b);
  }

  // ---------- the store runs every key as the one-key model does ----------

  lemma SnocRun<S>(m: Model<S, KvInput, KvOutput>, ops: seq<KvOperation>, x: KvOperation)
    ensures After(m, Exchanges(ops + [x])) == m.step(After(m, Exchanges(ops)), x.input, x.output).1
    ensures Accepted(m, Exchanges(ops + [x])) <==>
      Accepted(m, Exchanges(ops)) && m.step(After(m, Exchanges(ops)), x.input, x.output).0
  {
    var xs := Exchanges(ops + [x]);
    assert xs[..|xs| - 1] == Exchanges(ops);
  }

  lemma {:induction false} StoreProjects(ops: seq<KvOperation>, key: string)
    ensures Lookup(After(StoreModel, Exchanges(ops)), key) == After(KvModel, Exchanges(Filter(ops, key)))
  {
    if ops != [] {
      var front, last := ops[..|ops| - 1], ops[|ops| - 1];
      assert ops == front + [last];
      StoreProjects(front, key);
      SnocRun(StoreModel, front, last);
      SnocRun(KvModel, Filter(front, key), last);
      FilterSnoc(front, last, key);
      assert last.input.key != key ==> Filter(ops, key) == Filter(front, key);
    }
  }

  // ---------- which reads are right ----------

  ghost predicate IsGet(op: KvOperation) {
    op.input.op == 0
  }

  ghost predicate IsPut(op: KvOperation, key: string) {
    op.input.key == key && op.input.op == 1
  }

  ghost predicate IsAppend(op: KvOperation, key: string) {
    op.input.key == key && op.input.op >= 2
  }

  /** The last position of a put on a key, or -1. */
  ghost function LastPut(ops: seq<KvOperation>, key: string): (p: int)
    ensures -1 <= p < |ops| && (p >= 0 ==> IsPut(ops[p], key))
    ensures forall i :: p < i < |ops| ==> !IsPut(ops[i], key)
  {
    if ops == [] || IsPut(ops[|ops| - 1], key) then |ops| - 1 else LastPut(ops[..|ops| - 1], key)
  }

  /** The values appended to a key, one after the other. */
  ghost function Appends(ops: seq<KvOperation>, key: string): string {
    if ops == [] then ""
    else if IsAppend(ops[0], key) then ops[0].input.value + Appends(ops[1..], key)
    else Appends(ops[1..], key)
  }

  /** What has been written to a key: what was put last, if anything was, and then what was appended since. */
  ghost function Written(ops: seq<KvOperation>, key: string): string {
    var p := LastPut(ops, key);
    (if p == -1 then "" else ops[p].input.value) + Appends(ops[p + 1..], key)
  }

  /** Every get answers what has been written to its key before it. */
  ghost predicate ReadsRight(ops: seq<KvOperation>) {
    forall i :: 0 <= i < |ops| && IsGet(ops[i]) ==> ops[i].output.value == Written(ops[..i], ops[i].input.key)
  }

  lemma {:induction false} AppendsSnoc(ops: seq<KvOperation>, x: KvOperation, key: string)
    ensures Appends(ops + [x], key) == Appends(ops, key) + if IsAppend(x, key) then x.input.value else ""
  {
    if ops != [] {
      AppendsSnoc(ops[1..], x, key);
      assert (ops + [x])[1..] == ops[1..] + [x];
    }
  }

  lemma LastPutSnoc(ops: seq<KvOperation>, x: KvOperation, key: string)
    ensures LastPut(ops + [x], key) == if IsPut(x, key) then |ops| else LastPut(ops, key)
  {
    assert (ops + [x])[..|ops|] == ops;
  }

  lemma WrittenByPut(ops: seq<KvOperation>, x: KvOperation, key: string)
    requires IsPut(x, key)
    ensures Written(ops + [x], key) == x.input.value
  {
    hide LastPut, Appends;
    LastPutSnoc(ops, x, key);
    NoAppends(key);
    assert (ops + [x])[|ops| + 1..] == [];
  }

  lemma WrittenBehindPut(ops: seq<KvOperation>, x: KvOperation, key: string)
    requires !IsPut(x, key)
    ensures Written(ops + [x], key) == Written(ops, key) + if IsAppend(x, key) then x.input.value else ""
  {
    hide LastPut, Appends, IsPut, IsAppend;
    var more, p := ops + [x], LastPut(ops, key);
    LastPutSnoc(ops, x, key);
    AppendsSnoc(ops[p + 1..], x, key);
    assert more[p + 1..] == ops[p + 1..] + [x];
    var put := if p == -1 then "" else ops[p].input.value;
    assert Written(more, key) == put + Appends(more[p + 1..], key);
    ConcatThree(put, Appends(ops[p + 1..], key), if IsAppend(x, key) then x.input.value else "");
  }

  lemma ConcatThree(a: string, b: string, c: string)
    ensures a + (b + c) == (a + b) + c
  {
  }

  /** A put makes the value what it puts, an append adds to it, and nothing else changes it. */
  lemma WrittenSnoc(ops: seq<KvOperation>, x: KvOperation, key: string)
    ensures Written(ops + [x], key) ==
      if IsPut(x, key) then x.input.value
      else if IsAppend(x, key) then Written(ops, key) + x.input.value
      else Written(ops, key)
  {
    hide Written, IsPut, IsAppend;
    if IsPut(x, key) {
      WrittenByPut(ops, x, key);
    } else {
      WrittenBehindPut(ops, x, key);
      assert Written(ops, key) + "" == Written(ops, key);
    }
  }

  lemma NoAppends(key: string)
    ensures Appends([], key) == ""
  {
  }

  lemma ReadsRightSnoc(ops: seq<KvOperation>, x: KvOperation)
    ensures ReadsRight(ops + [x]) <==>
      ReadsRight(ops) && (IsGet(x) ==> x.output.value == Written(ops, x.input.key))
  {
    var more := ops + [x];
    hide Written;
    assert more[..|ops|] == ops;
    assert forall i :: 0 <= i < |ops| ==> more[i] == ops[i] && more[..i] == ops[..i];
  }

  lemma NothingWritten()
    ensures ReadsRight([]) && forall key :: Written([], key) == ""
    ensures forall key :: Lookup(After(StoreModel, Exchanges([])), key) == ""
    ensures After(KvModel, Exchanges([])) == ""
    ensures Accepted(StoreModel, Exchanges([])) && Accepted(KvModel, Exchanges([]))
  {
  }

  /** One step of the store, seen at one key. */
  lemma StoreStepIs(store: map<string, string>, x: KvOperation, key: string)
    ensures StoreStep(store, x.input, x.output).0 <==> (IsGet(x) ==> x.output.value == Lookup(store, x.input.key))
    ensures Lookup(StoreStep(store, x.input, x.output).1, key) ==
      if IsPut(x, key) then x.input.value
      else if IsAppend(x, key) then Lookup(store, key) + x.input.value
      else Lookup(store, key)
  {
  }

  /** The store holds under every key what has been written to it, and accepts exactly the right reads. */
  lemma {:induction false} StoreReadsWritten(ops: seq<KvOperation>)
    ensures forall key :: Lookup(After(StoreModel, Exchanges(ops)), key) == Written(ops, key)
    ensures Accepted(StoreModel, Exchanges(ops)) <==> ReadsRight(ops)
  {
    hide Written, ReadsRight, StoreStep, Lookup, IsPut, IsAppend, IsGet, Accepted, After;
    if ops == [] {
      NothingWritten();
    } else {
      var front, last := ops[..|ops| - 1], ops[|ops| - 1];
      assert ops == front + [last];
      StoreReadsWritten(front);
      SnocRun(StoreModel, front, last);
      forall key
        ensures Lookup(After(StoreModel, Exchanges(ops)), key) == Written(ops, key)
      {
        WrittenSnoc(front, last, key);
        StoreStepIs(After(StoreModel, Exchanges(front)), last, key);
      }
      StoreStepIs(After(StoreModel, Exchanges(front)), last, last.input.key);
      ReadsRightSnoc(front, last);
    }
  }

  /** One step of the model of one value. */
  lemma KvStepIs(state: string, x: KvOperation)
    ensures KvStep(state, x.input, x.output).0 <==> (IsGet(x) ==> x.output.value == state)
    ensures KvStep(state, x.input, x.output).1 ==
      if IsPut(x, x.input.key) then x.input.value
      else if IsAppend(x, x.input.key) then state + x.input.value
      else state
  {
  }

  /** So does the model of one value, for operations on one key. */
  lemma {:induction false} KvReadsWritten(ops: seq<KvOperation>, key: string)
    requires forall i :: 0 <= i < |ops| ==> ops[i].input.key == key
    ensures After(KvModel, Exchanges(ops)) == Written(ops, key)
    ensures Accepted(KvModel, Exchanges(ops)) <==> ReadsRight(ops)
  {
    hide Written, ReadsRight, KvStep, IsPut, IsAppend, IsGet, Accepted, After;
    if ops == [] {
      NothingWritten();
    } else {
      var front, last := ops[..|ops| - 1], ops[|ops| - 1];
      assert ops == front + [last];
      KvReadsWritten(front, key);
      SnocRun(KvModel, front, last);
      WrittenSnoc(front, last, key);
      KvStepIs(After(KvModel, Exchanges(front)), last);
      ReadsRightSnoc(front, last);
    }
  }

  /** A history of the store is linearizable exactly when it can be put into an order that time allows and in which
      every get answers what has been written to its key before it. */
  lemma StoreLinearizableIs(ops: seq<KvOperation>)
    ensures Linearizable(StoreModel, ops) <==>
      exists order :: multiset(order) == multiset(ops) && RespectsTime(order) && ReadsRight(order)
  {
    hide ReadsRight, RespectsTime, Accepted;
    if Linearizable(StoreModel, ops) {
      var order :| IsLinearization(StoreModel, ops, order);
      StoreReadsWritten(order);
    }
    if order :| multiset(order) == multiset(ops) && RespectsTime(order) && ReadsRight(order) {
      StoreReadsWritten(order);
      assert IsLinearization(StoreModel, ops, order);
    }
  }

  // ---------- acceptance key by key ----------

  ghost predicate KeyAccepts(ops: seq<KvOperation>, key: string) {
    Accepted(KvModel, Exchanges(Filter(ops, key)))
  }

  lemma KeyAcceptsSnoc(front: seq<KvOperation>, last: KvOperation, key: string)
    ensures KeyAccepts(front + [last], key) <==>
      KeyAccepts(front, key) &&
      (key == last.input.key ==> StoreStep(After(StoreModel, Exchanges(front)), last.input, last.output).0)
  {
    FilterSnoc(front, last, key);
    SnocRun(KvModel, Filter(front, key), last);
    StoreProjects(front, key);
    assert key != last.input.key ==> Filter(front + [last], key) == Filter(front, key);
  }

  /** The store accepts a sequence exactly when every key accepts its part of it. */
  lemma {:induction false} StoreAcceptsByKey(ops: seq<KvOperation>)
    ensures Accepted(StoreModel, Exchanges(ops)) <==> forall key :: KeyAccepts(ops, key)
  {
    hide KeyAccepts, StoreStep, Filter;
    if ops == [] {
      EmptyAccepts();
    } else {
      var front, last := ops[..|ops| - 1], ops[|ops| - 1];
      assert ops == front + [last];
      StoreAcceptsByKey(front);
      SnocRun(StoreModel, front, last);
      forall key
        ensures KeyAccepts(ops, key) <==>
          KeyAccepts(front, key) &&
          (key == last.input.key ==> StoreStep(After(StoreModel, Exchanges(front)), last.input, last.output).0)
      {
        KeyAcceptsSnoc(front, last, key);
      }
      assert KeyAccepts(ops, last.input.key) ==>
        StoreStep(After(StoreModel, Exchanges(front)), last.input, last.output).0;
    }
  }

  lemma EmptyAccepts()
    ensures forall key :: KeyAccepts([], key)
  {
  }

  // ---------- locality: orders of the keys merge into one order ----------

  lemma {:induction false} FilterRespectsTime(ops: seq<KvOperation>, key: string)
    requires RespectsTime(ops)
    ensures RespectsTime(Filter(ops, key))
  {
    if ops != [] {
      var front, last := ops[..|ops| - 1], ops[|ops| - 1];
      FilterRespectsTime(front, key);
      var f := Filter(front, key);
      forall i | 0 <= i < |f|
        ensures !(last.ret < f[i].call)
      {
        FilterMember(front, key, f[i]);
        var j :| 0 <= j < |front| && front[j] == f[i];
        assert ops[j] == f[i];
      }
    }
  }

  lemma RespectsTimeSnoc(front: seq<KvOperation>, x: KvOperation)
    requires RespectsTime(front) && forall i :: 0 <= i < |front| ==> !(x.ret < front[i].call)
    ensures RespectsTime(front + [x])
  {
  }

  /** Position `i` holds the last operation on the given key. */
  ghost predicate IsLastOnKey(pool: seq<KvOperation>, key: string, i: int) {
    && 0 <= i < |pool| && pool[i].input.key == key
    && Filter(pool, key) == Filter(Without(pool, i), key) + [pool[i]]
    && forall k :: k != key ==> Filter(Without(pool, i), k) == Filter(pool, k)
  }

  lemma LastIsLast(front: seq<KvOperation>, last: KvOperation)
    ensures IsLastOnKey(front + [last], last.input.key, |front|)
  {
    assert Without(front + [last], |front|) == front;
    hide Filter;
    forall k
      ensures Filter(front + [last], k) == Filter(front, k) + (if last.input.key == k then [last] else [])
    {
      FilterSnoc(front, last, k);
    }
  }

  lemma StillLast(front: seq<KvOperation>, last: KvOperation, key: string, i: int)
    requires IsLastOnKey(front, key, i) && last.input.key != key
    ensures IsLastOnKey(front + [last], key, i)
  {
    var w := Without(front, i);
    assert Without(front + [last], i) == w + [last];
    hide Filter, Without;
    forall k
      ensures Filter(w + [last], k) == Filter(w, k) + (if last.input.key == k then [last] else [])
      ensures Filter(front + [last], k) == Filter(front, k) + (if last.input.key == k then [last] else [])
    {
      FilterSnoc(w, last, k);
      FilterSnoc(front, last, k);
    }
    assert Filter(w + [last], key) == Filter(w, key);
  }

  lemma {:induction false} LastOnKey(pool: seq<KvOperation>, key: string) returns (i: int)
    requires Filter(pool, key) != []
    ensures IsLastOnKey(pool, key, i)
  {
    assert pool != [];
    hide Filter, Without, IsLastOnKey;
    var front, last := pool[..|pool| - 1], pool[|pool| - 1];
    assert pool == front + [last];
    FilterSnoc(front, last, key);
    if last.input.key == key {
      i := |front|;
      LastIsLast(front, last);
    } else {
      i := LastOnKey(front, key);
      StillLast(front, last, key, i);
    }
  }

  /** The operation called last. */
  lemma {:induction false} LastCalled(pool: seq<KvOperation>) returns (y: KvOperation)
    requires pool != []
    ensures y in pool && forall z :: z in pool ==> z.call <= y.call
  {
    var front, last := pool[..|pool| - 1], pool[|pool| - 1];
    assert pool == front + [last];
    if front == [] {
      y := last;
    } else {
      y := LastCalled(front);
      if y.call < last.call {
        y := last;
      }
    }
  }

  /** An operation that may come last: nothing was called after it returned. It is the last one of its key. */
  lemma MayComeLast(pool: seq<KvOperation>) returns (i: int)
    requires pool != [] && Timely(pool) && forall key :: RespectsTime(Filter(pool, key))
    ensures 0 <= i < |pool| && forall z :: z in pool ==> !(pool[i].ret < z.call)
    ensures Filter(pool, pool[i].input.key) == Filter(Without(pool, i), pool[i].input.key) + [pool[i]]
    ensures forall k :: k != pool[i].input.key ==> Filter(Without(pool, i), k) == Filter(pool, k)
  {
    var y := LastCalled(pool);
    var key := y.input.key;
    FilterMember(pool, key, y);
    i := LastOnKey(pool, key);
    var f := Filter(pool, key);
    var j :| 0 <= j < |f| && f[j] == y;
    assert f[|f| - 1] == pool[i];
    assert RespectsTime(f);
  }

  /** Locality. Any sequence whose part on every key respects time can be reordered, without reordering
      any key's part, so that the whole respects time. */
  lemma {:induction false} Locality(pool: seq<KvOperation>) returns (order: seq<KvOperation>)
    requires Timely(pool) && forall key :: RespectsTime(Filter(pool, key))
    ensures RespectsTime(order) && multiset(order) == multiset(pool)
    ensures forall key :: Filter(order, key) == Filter(pool, key)
    decreases |pool|
  {
    if pool == [] {
      order := [];
    } else {
      var i := MayComeLast(pool);
      var rest, x := Without(pool, i), pool[i];
      forall key
        ensures RespectsTime(Filter(rest, key))
      {
        assert RespectsTime(Filter(pool, key));
        assert Filter(rest, key) <= Filter(pool, key);
        PrefixRespectsTime(Filter(rest, key), Filter(pool, key));
      }
      WithoutMultiset(pool, i);
      RestIsTimely(pool, i);
      hide RespectsTime, Timely;
      var front := Locality(rest);
      order := front + [x];
      SomeOf(pool, i, front);
      RespectsTimeSnoc(front, x);
      forall key
        ensures Filter(order, key) == Filter(pool, key)
      {
        FilterSnoc(front, x, key);
      }
    }
  }

  lemma RestIsTimely(pool: seq<KvOperation>, i: nat)
    requires Timely(pool) && i < |pool|
    ensures Timely(Without(pool, i))
  {
  }

  lemma SomeOf(pool: seq<KvOperation>, i: nat, front: seq<KvOperation>)
    requires i < |pool| && multiset(front) == multiset(Without(pool, i))
    ensures forall x :: x in front ==> x in pool
  {
    forall x | x in front
      ensures x in pool
    {
      assert x in multiset(front) && x in multiset(Without(pool, i)) && x in Without(pool, i);
    }
  }

  lemma PrefixRespectsTime(a: seq<KvOperation>, b: seq<KvOperation>)
    requires a <= b && RespectsTime(b)
    ensures RespectsTime(a)
  {
    forall i, j | 0 <= i < j < |a|
      ensures !(a[j].ret < a[i].call)
    {
      assert a[i] == b[i] && a[j] == b[j];
    }
  }

  // ---------- partitioning by key ----------

  /** `parts[i]` is the operations on `keys[i]`, in their order; every key of the history is there once. */
  ghost predicate IsPartition(ops: seq<KvOperation>, keys: seq<string>, parts: seq<seq<KvOperation>>) {
    && |keys| == |parts| && Distinct(keys)
    && (forall i :: 0 <= i < |keys| ==> parts[i] == Filter(ops, keys[i]) && parts[i] != [])
    && (forall k :: 0 <= k < |ops| ==> ops[k].input.key in keys)
  }

  /** An order of the whole store, seen at one key. */
  lemma StoreOrderGivesKeyOrder(ops: seq<KvOperation>, order: seq<KvOperation>, key: string)
    requires IsLinearization(StoreModel, ops, order)
    ensures IsLinearization(KvModel, Filter(ops, key), Filter(order, key))
  {
    FilterKeepsElements(order, ops, key);
    FilterRespectsTime(order, key);
    StoreAcceptsByKey(order);
    assert KeyAccepts(order, key);
  }

  function Concat(os: seq<seq<KvOperation>>): seq<KvOperation> {
    if os == [] then [] else Concat(os[..|os| - 1]) + os[|os| - 1]
  }

  ghost predicate OrdersOf(keys: seq<string>, parts: seq<seq<KvOperation>>, os: seq<seq<KvOperation>>) {
    && |keys| == |parts| == |os|
    && forall i :: 0 <= i < |os| ==> IsLinearization(KvModel, parts[i], os[i])
  }

  lemma {:induction false} KeyOrders(keys: seq<string>, parts: seq<seq<KvOperation>>, n: nat)
    returns (os: seq<seq<KvOperation>>)
    requires n <= |parts| == |keys| && forall i :: 0 <= i < n ==> Linearizable(KvModel, parts[i])
    ensures OrdersOf(keys[..n], parts[..n], os)
  {
    if n == 0 {
      os := [];
    } else {
      var rest := KeyOrders(keys, parts, n - 1);
      var order :| IsLinearization(KvModel, parts[n - 1], order);
      os := rest + [order];
      assert forall i :: 0 <= i < n - 1 ==> parts[..n][i] == parts[..n - 1][i];
    }
  }

  lemma OneKeyFilter(ops: seq<KvOperation>, key: string, other: string)
    requires forall x :: x in ops ==> x.input.key == key
    ensures Filter(ops, other) == if other == key then ops else []
  {
    if ops != [] {
      var front, last := ops[..|ops| - 1], ops[|ops| - 1];
      assert ops == front + [last];
      OneKeyFilter(front, key, other);
    }
  }

  /** The orders of the keys, one after the other, seen at one key. */
  lemma {:induction false} ConcatFilter(keys: seq<string>, os: seq<seq<KvOperation>>, key: string)
    requires |keys| == |os| && Distinct(keys)
    requires forall i, x :: 0 <= i < |os| && x in os[i] ==> x.input.key == keys[i]
    ensures key !in keys ==> Filter(Concat(os), key) == []
    ensures forall i :: 0 <= i < |keys| && keys[i] == key ==> Filter(Concat(os), key) == os[i]
  {
    if os != [] {
      var n := |os| - 1;
      ConcatFilter(keys[..n], os[..n], key);
      FilterConcat(Concat(os[..n]), os[n], key);
      OneKeyFilter(os[n], keys[n], key);
      if key == keys[n] {
        assert key !in keys[..n];
      } else {
        assert forall i :: 0 <= i < n ==> keys[..n][i] == keys[i] && os[..n][i] == os[i];
        assert key in keys ==> key in keys[..n];
      }
    }
  }

  lemma OrderHasKey(ops: seq<KvOperation>, key: string, order: seq<KvOperation>)
    requires multiset(order) == multiset(Filter(ops, key))
    ensures forall x :: x in order ==> x.input.key == key
  {
    forall x | x in order
      ensures x.input.key == key
    {
      assert x in multiset(Filter(ops, key));
      FilterMember(ops, key, x);
    }
  }

  lemma AbsentKeyFilter(ops: seq<KvOperation>, key: string)
    requires forall k :: 0 <= k < |ops| ==> ops[k].input.key != key
    ensures Filter(ops, key) == []
  {
  }

  /** Orders of all the keys merge into an order of the whole store. */
  lemma KeyOrdersGiveStoreOrder(
    ops: seq<KvOperation>, keys: seq<string>, parts: seq<seq<KvOperation>>, os: seq<seq<KvOperation>>)
    returns (order: seq<KvOperation>)
    requires Timely(ops) && IsPartition(ops, keys, parts) && OrdersOf(keys, parts, os)
    ensures IsLinearization(StoreModel, ops, order)
  {
    var pool := Concat(os);
    forall i | 0 <= i < |os|
      ensures forall x :: x in os[i] ==> x.input.key == keys[i]
    {
      OrderHasKey(ops, keys[i], os[i]);
    }
    forall key
      ensures SameOnKey(pool, ops, key) && RespectsTime(Filter(pool, key)) && KeyAccepts(pool, key)
    {
      KeyOfPool(ops, keys, parts, os, key);
    }
    SameOnKeysSameElements(pool, ops);
    forall k | 0 <= k < |pool|
      ensures pool[k].call <= pool[k].ret
    {
      assert pool[k] in multiset(ops);
    }
    order := Locality(pool);
    forall key
      ensures KeyAccepts(order, key)
    {
      assert KeyAccepts(pool, key);
    }
    StoreAcceptsByKey(order);
  }

  lemma KeyOfPool(
    ops: seq<KvOperation>, keys: seq<string>, parts: seq<seq<KvOperation>>, os: seq<seq<KvOperation>>, key: string)
    requires IsPartition(ops, keys, parts) && OrdersOf(keys, parts, os)
    requires forall i, x :: 0 <= i < |os| && x in os[i] ==> x.input.key == keys[i]
    ensures SameOnKey(Concat(os), ops, key) && RespectsTime(Filter(Concat(os), key)) && KeyAccepts(Concat(os), key)
  {
    ConcatFilter(keys, os, key);
    if key in keys {
      var i :| 0 <= i < |keys| && keys[i] == key;
      assert IsLinearization(KvModel, parts[i], os[i]);
    } else {
      AbsentKeyFilter(ops, key);
    }
  }

  /** Partitioning by key is sound and complete: the whole history is linearizable against the store
      exactly when every part is linearizable against the one-key model. */
  lemma PartitionDecidesStore(ops: seq<KvOperation>, keys: seq<string>, parts: seq<seq<KvOperation>>)
    requires Timely(ops) && IsPartition(ops, keys, parts)
    ensures Linearizable(StoreModel, ops) <==> forall i :: 0 <= i < |parts| ==> Linearizable(KvModel, parts[i])
  {
    if Linearizable(StoreModel, ops) {
      var order :| IsLinearization(StoreModel, ops, order);
      forall i | 0 <= i < |parts|
        ensures Linearizable(KvModel, parts[i])
      {
        StoreOrderGivesKeyOrder(ops, order, keys[i]);
      }
    }
    if forall i :: 0 <= i < |parts| ==> Linearizable(KvModel, parts[i]) {
      var os := KeyOrders(keys, parts, |parts|);
      assert keys[..|parts|] == keys && parts[..|parts|] == parts;
      var order := KeyOrdersGiveStoreOrder(ops, keys, parts, os);
    }
  }

  lemma TimelyPart(ops: seq<KvOperation>, key: string)
    requires Timely(ops)
    ensures Timely(Filter(ops, key))
  {
    var f := Filter(ops, key);
    forall k | 0 <= k < |f|
      ensures f[k].call <= f[k].ret
    {
      FilterMember(ops, key, f[k]);
    }
  }

  // ---------- Partition ----------

  /** The order of strings, character by character. */
  predicate Before(a: string, b: string) {
    b != [] && (a == [] || a[0] < b[0] || (a[0] == b[0] && Before(a[1..], b[1..])))
  }

  /** What the library's string sort promises. */
  ghost predicate SortsStrings(ks: seq<string>, sorted: seq<string>) {
    && multiset(sorted) == multiset(ks)
    && forall i, j :: 0 <= i < j < |sorted| ==> !Before(sorted[j], sorted[i])
  }

  /** The map from each key of the history to the operations on it. */
  ghost predicate Groups(ops: seq<KvOperation>, m: map<string, seq<KvOperation>>) {
    && (forall key :: key in m ==> m[key] == Filter(ops, key) && m[key] != [])
    && (forall key :: key !in m ==> Filter(ops, key) == [])
  }

  lemma GroupsSnoc(ops: seq<KvOperation>, v: KvOperation, m: map<string, seq<KvOperation>>)
    requires Groups(ops, m)
    ensures Groups(ops + [v], m[v.input.key := (if v.input.key in m then m[v.input.key] else []) + [v]])
  {
    forall key
      ensures Filter(ops + [v], key) == Filter(ops, key) + (if v.input.key == key then [v] else [])
    {
      FilterSnoc(ops, v, key);
    }
  }

  lemma GroupedKeys(ops: seq<KvOperation>, m: map<string, seq<KvOperation>>, k: int)
    requires Groups(ops, m) && 0 <= k < |ops|
    ensures ops[k].input.key in m
  {
    FilterMember(ops, ops[k].input.key, ops[k]);
  }

  /** `sortStrings` stands for the library's sort. */
  method Partition(history: seq<KvOperation>, sortStrings: seq<string> -> seq<string>)
    returns (ret: seq<seq<KvOperation>>, keys: seq<string>)
    requires forall ks :: SortsStrings(ks, sortStrings(ks))
    ensures IsPartition(history, keys, ret)
    ensures forall i, j :: 0 <= i < j < |keys| ==> !Before(keys[j], keys[i])
  {
    var m: map<string, seq<KvOperation>> := map[];
    for k := 0 to |history|
      invariant Groups(history[..k], m)
    {
      var v := history[k];
      GroupsSnoc(history[..k], v, m);
      assert history[..k + 1] == history[..k] + [v];
      m := m[v.input.key := (if v.input.key in m then m[v.input.key] else []) + [v]];
    }
    assert history[..|history|] == history;
    var unsorted := KeysOf(m);
    keys := sortStrings(unsorted);
    SortedKeys(unsorted, keys);
    ret := [];
    for i := 0 to |keys|
      invariant |ret| == i && forall j :: 0 <= j < i ==> keys[j] in m && ret[j] == m[keys[j]]
    {
      ret := ret + [m[keys[i]]];
    }
    forall k | 0 <= k < |history|
      ensures history[k].input.key in keys
    {
      GroupedKeys(history, m, k);
    }
  }

  lemma SortedKeys(unsorted: seq<string>, keys: seq<string>)
    requires SortsStrings(unsorted, keys) && Distinct(unsorted)
    ensures Distinct(keys) && forall key :: key in keys <==> key in unsorted
  {
    SameElementsDistinct(unsorted, keys);
    assert forall key :: key in keys <==> key in multiset(keys);
    assert forall key :: key in unsorted <==> key in multiset(unsorted);
  }

  /** The keys of a map, in whatever order the map yields them. */
  method KeysOf(m: map<string, seq<KvOperation>>) returns (keys: seq<string>)
    ensures Distinct(keys) && forall key :: key in keys <==> key in m
  {
    keys := [];
    var left := m.Keys;
    while left != {}
      invariant Distinct(keys) && left <= m.Keys
      invariant forall key :: key in m <==> key in keys || key in left
      invariant forall key :: key in left ==> key !in keys
      decreases left
    {
      var k :| k in left;
      left := left - {k};
      keys := keys + [k];
    }
  }
}
