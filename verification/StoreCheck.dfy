/** Checking the operations of a key/value store from end to end: partition by key, turn every part into
    entries, search the parts in parallel. */
module StoreCheck {
  import opened Linearizability
  import opened KeyValue
  import Entries
  import Parallel

  type KvHistory = History<KvInput, KvOutput>

  /** `l[i]` is a history of the operations of `parts[i]`. */
  ghost predicate HistoriesOf(parts: seq<seq<KvOperation>>, l: seq<KvHistory>) {
    |l| == |parts| && forall i :: 0 <= i < |l| ==> Entries.Represents(l[i], parts[i])
  }

  /** What is handed to the parallel check for a history of operations. */
  method OperationsToCheck(
    history: seq<KvOperation>, sortStrings: seq<string> -> seq<string>,
    sort: seq<Entry<KvInput, KvOutput>> -> seq<Entry<KvInput, KvOutput>>)
    returns (l: seq<KvHistory>, keys: seq<string>, partitions: seq<seq<KvOperation>>)
    requires Entries.Timely(history)
    requires forall ks :: SortsStrings(ks, sortStrings(ks))
    requires forall es :: Entries.IsSortOf(es, sort(es))
    ensures IsPartition(history, keys, partitions) && HistoriesOf(partitions, l)
  {
    partitions, keys := Partition(history, sortStrings);
    l := [];
    for i := 0 to |partitions|
      invariant |l| == i && forall j :: 0 <= j < i ==> Entries.Represents(l[j], partitions[j])
    {
      TimelyPart(history, keys[i]);
      var entries := Entries.MakeEntries(partitions[i], sort);
      l := l + [entries];
    }
  }

  /** The check that is run on those histories. */
  function StoreConfig(
    l: seq<KvHistory>, computeInfo: bool, timeout: bool): Parallel.Config<string, KvInput, KvOutput> {
    Parallel.Config(KvModel, l, computeInfo, timeout)
  }

  lemma StoreConfigIsValid(parts: seq<seq<KvOperation>>, l: seq<KvHistory>, computeInfo: bool, timeout: bool)
    requires HistoriesOf(parts, l)
    ensures Parallel.ValidConfig(StoreConfig(l, computeInfo, timeout))
  {
    KvModelIsGood();
  }

  /** Every partition linearizable is the whole store linearizable. */
  lemma AllPartsDecideStore(
    ops: seq<KvOperation>, keys: seq<string>, parts: seq<seq<KvOperation>>,
    l: seq<KvHistory>, computeInfo: bool, timeout: bool)
    requires Entries.Timely(ops) && IsPartition(ops, keys, parts) && HistoriesOf(parts, l)
    requires Parallel.ValidConfig(StoreConfig(l, computeInfo, timeout))
    ensures Parallel.AllLinearizable(StoreConfig(l, computeInfo, timeout)) <==> Linearizable(StoreModel, ops)
  {
    PartitionDecidesStore(ops, keys, parts);
    forall i | 0 <= i < |l|
      ensures HistoryLinearizable(KvModel, l[i]) <==> Linearizable(KvModel, parts[i])
    {
      Entries.EntriesDecideOperations(KvModel, l[i], parts[i]);
    }
  }

  /** The verdict on a key/value history is the verdict on the whole store, in every interleaving of the
      workers and the timeout. Without a timeout it is Ok exactly when the store history is linearizable,
      and Illegal otherwise; with one it may also be Unknown, but never wrong. */
  lemma VerdictDecidesStore(
    ops: seq<KvOperation>, keys: seq<string>, parts: seq<seq<KvOperation>>,
    l: seq<KvHistory>, computeInfo: bool, timeout: bool,
    run: seq<Parallel.State>, k: nat)
    requires Entries.Timely(ops) && IsPartition(ops, keys, parts) && HistoriesOf(parts, l)
    requires Parallel.ValidConfig(StoreConfig(l, computeInfo, timeout))
    requires Parallel.IsRun(StoreConfig(l, computeInfo, timeout), run) && k < |run| && run[k].phase == Parallel.Returned
    ensures Parallel.Verdict(run[k]) == Parallel.Ok ==> Linearizable(StoreModel, ops)
    ensures Parallel.Verdict(run[k]) == Parallel.Illegal ==> !Linearizable(StoreModel, ops)
    ensures Parallel.Verdict(run[k]) == Parallel.Unknown ==> timeout
    ensures !timeout ==> (Parallel.Verdict(run[k]) == Parallel.Ok <==> Linearizable(StoreModel, ops))
  {
    var c := StoreConfig(l, computeInfo, timeout);
    Parallel.VerdictIsRight(c, run, k);
    AllPartsDecideStore(ops, keys, parts, l, computeInfo, timeout);
  }

  /** So without a timeout the verdict is Ok exactly when the operations can be put into an order that time allows
      and in which every get answers what has been written to its key before it. */
  lemma VerdictIsAboutReads(
    ops: seq<KvOperation>, keys: seq<string>, parts: seq<seq<KvOperation>>, l: seq<KvHistory>, computeInfo: bool,
    run: seq<Parallel.State>, k: nat)
    requires Entries.Timely(ops) && IsPartition(ops, keys, parts) && HistoriesOf(parts, l)
    requires Parallel.ValidConfig(StoreConfig(l, computeInfo, false))
    requires Parallel.IsRun(StoreConfig(l, computeInfo, false), run) && k < |run| && run[k].phase == Parallel.Returned
    ensures Parallel.Verdict(run[k]) == Parallel.Ok <==>
      exists order :: multiset(order) == multiset(ops) && RespectsTime(order) && ReadsRight(order)
    ensures Parallel.Verdict(run[k]) == Parallel.Ok || Parallel.Verdict(run[k]) == Parallel.Illegal
  {
    VerdictDecidesStore(ops, keys, parts, l, computeInfo, false, run, k);
    StoreLinearizableIs(ops);
  }

  /** Without a timeout the check gets stuck exactly when there is no operation to check: then there is no
      partition, and the collector waits for a result that no worker sends. */
  lemma StuckExactlyWhenEmpty(
    ops: seq<KvOperation>, keys: seq<string>, parts: seq<seq<KvOperation>>, l: seq<KvHistory>, computeInfo: bool,
    run: seq<Parallel.State>, k: nat)
    requires IsPartition(ops, keys, parts) && HistoriesOf(parts, l)
    requires Parallel.ValidConfig(StoreConfig(l, computeInfo, false))
    requires Parallel.IsRun(StoreConfig(l, computeInfo, false), run) && k < |run| && run[k].phase != Parallel.Returned
    ensures (exists t :: Parallel.Step(StoreConfig(l, computeInfo, false), run[k], t)) <==> ops != []
  {
    assert ops != [] ==> ops[0].input.key in keys;
    assert parts != [] ==> parts[0] == Filter(ops, keys[0]) && parts[0] != [];
    Parallel.StuckOnlyWithoutPartitions(StoreConfig(l, computeInfo, false), run, k);
  }
}
