/** One Raft server, with a log whose first entries may have been discarded for a snapshot. Every operation is
    stated on the whole log, so none of them shows how much of it has been discarded. */
module RaftServer {
  import opened Commit
  import opened Compaction
  import opened RaftLog

  type Snapshot(==)

  datatype Role = Follower | Candidate | Leader

  datatype AppendArgs = AppendArgs(term: int, leaderId: int, prev: int, prevTerm: int, entries: Log, leaderCommit: int)

  datatype AppendReply = AppendReply(term: int, serverId: int, answer: Answer, xLen: int)

  datatype InstallArgs = InstallArgs(term: int, leaderId: int, last: int, lastTerm: int, snapshot: Snapshot)

  datatype InstallReply = InstallReply(term: int, serverId: int)

  /** What the leader sends. */
  datatype Message = AppendEntries(args: AppendArgs) | InstallSnapshot(install: InstallArgs)

  /** What goes to the service. */
  datatype ApplyMsg =
    | ApplyCommand(command: Command, index: int)
    | ApplySnapshot(snapshot: Snapshot, term: int, index: int)

  /** The result of an operation that may panic. */
  datatype Outcome<T> = Panic | Done(value: T)

  /** The messages to the service for the entries from index `from` up to, not including, `to`. */
  function Batch(full: Log, from: int, to: int): (batch: seq<ApplyMsg>)
    requires 0 <= from <= to <= |full|
  {
    seq(to - from, (i: nat) requires i < to - from => ApplyCommand(full[from + i].command, full[from + i].index + 1))
  }

  /** What the service hears when entries through `index` are discarded: of the snapshot, and again of what is
      committed behind it. */
  function SnapshotMessages(full: Log, snapshot: Snapshot, index: int, commit: int): seq<ApplyMsg>
    requires 0 <= index < |full|
  {
    [ApplySnapshot(snapshot, full[index].term, index + 1)] +
    if index < commit < |full| then Batch(full, index + 1, commit + 1) else []
  }

  /** How many of `n` entries behind index `snap` are committed. */
  function LiveCommitted(snap: int, n: nat, commit: int): (k: nat)
    ensures k <= n && (k > 0 ==> snap + k <= commit) && (k < n ==> commit <= snap + k)
  {
    if commit <= snap then 0 else if commit - snap >= n then n else commit - snap
  }

  /** What goes to the service when the commit index moves from `prev` to `cur`. The first entry to hand over is
      looked for behind the entry at `prev`, and there is a panic when that or a later one is not there. */
  ghost function Handed(log: Log, snap: int, prev: int, cur: int): Outcome<seq<ApplyMsg>> {
    var start := if prev == -1 || prev == snap then -1 else PositionOf(log, prev);
    if (start == -1 && prev != -1 && prev != snap) || (prev < cur && start + (cur - prev) >= |log|) then Panic
    else Done(Batch(log, start + 1, start + 1 + Max(cur - prev, 0)))
  }

  /** The service, which counts from 1, is told of the entries from position `from` up to position `to`: one command
      for each, in order. */
  ghost predicate TellsEntries(full: Log, from: int, to: int, messages: seq<ApplyMsg>)
    requires 0 <= from <= to <= |full|
  {
    && |messages| == to - from
    && forall i :: 0 <= i < |messages| ==> messages[i] == ApplyCommand(full[from + i].command, from + i + 1)
  }

  lemma BatchTells(full: Log, from: int, to: int)
    requires Indexed(full, 0) && 0 <= from <= to <= |full|
    ensures TellsEntries(full, from, to, Batch(full, from, to))
  {
  }

  /** After a compaction the service has heard of everything that is covered or committed, each part once: first the
      snapshot, which stands for the entries through `index`, and then every committed entry behind it. */
  lemma SnapshotMessagesTell(full: Log, snapshot: Snapshot, index: int, commit: int)
    requires Indexed(full, 0) && 0 <= index < |full|
    ensures var messages := SnapshotMessages(full, snapshot, index, commit);
      && messages != [] && messages[0] == ApplySnapshot(snapshot, full[index].term, index + 1)
      && TellsEntries(full, index + 1, if index < commit < |full| then commit + 1 else index + 1, messages[1..])
  {
    hide Batch, Indexed, TellsEntries;
    var to := if index < commit < |full| then commit + 1 else index + 1;
    var first := ApplySnapshot(snapshot, full[index].term, index + 1);
    NothingToApply(full, index + 1);
    BatchTells(full, index + 1, to);
    assert SnapshotMessages(full, snapshot, index, commit) == [first] + Batch(full, index + 1, to);
  }

  /** A commit index that rises within the log hands over exactly the entries that are newly committed. */
  lemma HandedIsBatch(full: Log, snap: int, prev: int, cur: int)
    requires Indexed(full, 0) && -1 <= snap <= prev <= cur < |full|
    ensures Handed(full[snap + 1..], snap, prev, cur) == Done(Batch(full, prev + 1, cur + 1))
    ensures TellsEntries(full, prev + 1, cur + 1, Batch(full, prev + 1, cur + 1))
  {
    BatchTells(full, prev + 1, cur + 1);
    hide Batch, PositionOf, TellsEntries;
    PositionInIndexed(full[snap + 1..], snap + 1, prev);
    BatchOfLive(full, snap + 1, prev - snap, cur - snap);
  }

  lemma BatchGrows(log: Log, to: nat)
    requires to < |log|
    ensures Batch(log, 0, to + 1) == Batch(log, 0, to) + [ApplyCommand(log[to].command, log[to].index + 1)]
  {
  }

  lemma BatchOfLive(full: Log, base: nat, from: nat, to: nat)
    requires base <= |full| && from <= to <= |full| - base
    ensures Batch(full[base..], from, to) == Batch(full, base + from, base + to)
  {
  }

  /** A commit index beyond the log cannot move. */
  lemma HandedPanics(full: Log, snap: int, prev: int, cur: int)
    requires Indexed(full, 0) && -1 <= snap < |full| <= prev
    ensures Handed(full[snap + 1..], snap, prev, cur) == Panic
  {
    PositionInIndexed(full[snap + 1..], snap + 1, prev);
  }

  /** A follower whose commit index lies in its log hands over what it newly commits. */
  lemma FollowerHands(full: Log, snap: int, commit: int, leaderCommit: int)
    requires Indexed(full, 0) && -1 <= snap < |full|
    ensures var after := FollowerCommit(commit, leaderCommit, |full| - 1);
      var batch := if commit >= leaderCommit then Done([]) else Handed(full[snap + 1..], snap, commit, after);
      && (snap <= commit < |full| ==> commit <= after < |full| && batch == Done(Batch(full, commit + 1, after + 1)))
      && (|full| <= commit < leaderCommit ==> batch == Panic)
  {
    hide Handed, Batch, Indexed;
    if snap <= commit < |full| {
      NothingToApply(full, commit + 1);
      HandedIsBatch(full, snap, commit, FollowerCommit(commit, leaderCommit, |full| - 1));
    } else if |full| <= commit {
      HandedPanics(full, snap, commit, FollowerCommit(commit, leaderCommit, |full| - 1));
    }
  }

  lemma NothingToApply(full: Log, from: int)
    requires 0 <= from <= |full|
    ensures Batch(full, from, from) == []
  {
  }

  class Server {
    const me: nat
    var currentTerm: int
    var votedFor: int
    var log: Log
    var commitIndex: int
    var lastApplied: int
    var nextIndex: seq<int>
    var matchIndex: seq<int>
    var role: Role
    var snapshot: Snapshot
    var snapshotIndex: int
    var snapshotTerm: int
    /** What is handed to the service before the server does anything else. */
    var applyChBuffer: seq<ApplyMsg>

    /** The whole log, with the entries that only the snapshot stands for. */
    ghost var full: Log

    ghost predicate Represents()
      reads `log, `full, `snapshotIndex, `snapshotTerm
    {
      -1 <= snapshotIndex < |full| && log == full[snapshotIndex + 1..] && snapshotTerm == TermAt(full, snapshotIndex)
    }

    ghost predicate Valid()
      reads `log, `full, `snapshotIndex, `snapshotTerm
    {
      Represents() && Indexed(full, 0)
    }

    /** The commit index is covered by the snapshot and the log. */
    ghost predicate CommitInLog()
      reads `commitIndex, `full, `snapshotIndex
    {
      snapshotIndex <= commitIndex < |full|
    }

    function LastIndex(): int
      reads `log, `snapshotIndex
    {
      if log == [] then snapshotIndex else log[|log| - 1].index
    }

    lemma LiveEntry(i: nat)
      requires Valid() && i < |log|
      ensures snapshotIndex + 1 + i < |full| && log[i] == full[snapshotIndex + 1 + i]
      ensures log[i].index == snapshotIndex + 1 + i
    {
    }

    lemma LastOfWhole()
      requires Valid()
      ensures LastIndex() == |full| - 1
    {
    }

    /** A server comes up from what it has persisted. It commits its snapshot again, and no entry of its log. */
    constructor Make(
      me: nat, currentTerm: int, votedFor: int, log: Log, snapshot: Snapshot, snapshotIndex: int, snapshotTerm: int,
      ghost full: Log)
      requires -1 <= snapshotIndex < |full| && log == full[snapshotIndex + 1..]
      requires snapshotTerm == TermAt(full, snapshotIndex)
      requires Indexed(full, 0)
      ensures Valid() && CommitInLog() && role == Follower && this.full == full && this.me == me
      ensures this.currentTerm == currentTerm && this.votedFor == votedFor
      ensures this.snapshot == snapshot && this.snapshotIndex == snapshotIndex == commitIndex == lastApplied
      ensures applyChBuffer == if snapshotIndex == -1 then []
        else [ApplySnapshot(snapshot, snapshotTerm, snapshotIndex + 1)]
    {
      this.me := me;
      this.currentTerm, this.votedFor, this.log := currentTerm, votedFor, log;
      this.snapshot, this.snapshotIndex, this.snapshotTerm := snapshot, snapshotIndex, snapshotTerm;
      this.full := full;
      commitIndex, lastApplied := snapshotIndex, snapshotIndex;
      nextIndex, matchIndex := [], [];
      role := Follower;
      applyChBuffer := [];
      new;
      Recommit();
      NothingToApply(this.log, 0);
    }

    /** Hands over the snapshot, and then the entries behind it through the commit index. */
    method Recommit()
      requires Valid()
      modifies `applyChBuffer
      ensures applyChBuffer == old(applyChBuffer) +
                               (if snapshotIndex == -1 then []
                                 else [ApplySnapshot(snapshot, snapshotTerm, snapshotIndex + 1)]) +
                               Batch(log, 0, LiveCommitted(snapshotIndex, |log|, commitIndex))
    {
      hide Valid, Batch;
      if snapshotIndex != -1 {
        applyChBuffer := applyChBuffer + [ApplySnapshot(snapshot, snapshotTerm, snapshotIndex + 1)];
      }
      RecommitLog();
    }

    method RecommitLog()
      requires Valid()
      modifies `applyChBuffer
      ensures applyChBuffer == old(applyChBuffer) + Batch(log, 0, LiveCommitted(snapshotIndex, |log|, commitIndex))
    {
      hide Valid, Batch;
      NothingToApply(log, 0);
      var i := 0;
      while i < |log| && log[i].index <= commitIndex
        invariant 0 <= i <= LiveCommitted(snapshotIndex, |log|, commitIndex)
        invariant applyChBuffer == old(applyChBuffer) + Batch(log, 0, i)
      {
        LiveEntry(i);
        BatchGrows(log, i);
        applyChBuffer := applyChBuffer + [ApplyCommand(log[i].command, log[i].index + 1)];
        i := i + 1;
      }
      if i < |log| {
        LiveEntry(i);
      }
    }

    // ---------- looking at the log ----------

    /** The position in the live log of the entry with an index, or -1 when it is not there. */
    method FindIndex(target: int) returns (i: int)
      ensures i == PositionOf(log, target)
      ensures Valid() ==> i == if snapshotIndex < target < |full| then target - snapshotIndex - 1 else -1
    {
      if Valid() {
        PositionInIndexed(log, snapshotIndex + 1, target);
      }
      for k := 0 to |log|
        invariant forall j :: 0 <= j < k ==> log[j].index != target
      {
        if log[k].index == target {
          return k;
        }
      }
      return -1;
    }

    method GetLastLogIndexAndTerm() returns (index: int, term: int)
      ensures index == LastIndex() && (Valid() ==> index == |full| - 1)
      ensures Represents() ==> term == TermAt(full, |full| - 1)
    {
      if |log| > 0 {
        return log[|log| - 1].index, log[|log| - 1].term;
      } else {
        return snapshotIndex, snapshotTerm;
      }
    }

    // ---------- the leader ----------

    /** A new leader begins with what a term begins with: everything still to be matched. */
    method ToLeader(peers: nat)
      requires Valid() && me < peers
      modifies `role, `votedFor, `nextIndex, `matchIndex
      ensures role == Leader && votedFor == -1 && |nextIndex| == |matchIndex| == peers
      ensures forall f :: 0 <= f < peers ==> nextIndex[f] == |full| && matchIndex[f] == if f == me then |full| - 1
        else -1
    {
      role := Leader;
      nextIndex, matchIndex := [], [];
      for i := 0 to peers
        invariant role == Leader && |nextIndex| == |matchIndex| == i
        invariant forall f :: 0 <= f < i ==> nextIndex[f] == |full| && matchIndex[f] == -1
      {
        var last, _ := GetLastLogIndexAndTerm();
        nextIndex := nextIndex + [last + 1];
        matchIndex := matchIndex + [-1];
      }
      var last, _ := GetLastLogIndexAndTerm();
      matchIndex := matchIndex[me := last];
      votedFor := -1;
    }

    /** The leader appends a command to the whole log, at the index it reports. */
    method Start(command: Command) returns (index: int, term: int, isLeader: bool)
      requires Valid() && (role == Leader ==> me < |nextIndex| && me < |matchIndex|)
      modifies `log, `full, `matchIndex, `nextIndex
      ensures Valid() && isLeader == (role == Leader)
      ensures !isLeader ==> index == -1 && term == 0 && full == old(full)
      ensures !isLeader ==> nextIndex == old(nextIndex) && matchIndex == old(matchIndex)
      ensures isLeader ==>
        && full == old(full) + [LogEntry(currentTerm, |old(full)|, command)] && index == |full| && term == currentTerm
        && matchIndex == old(matchIndex)[me := |old(full)|] && nextIndex == old(nextIndex)[me := |full|]
    {
      isLeader := role == Leader;
      if isLeader {
        if |log| != 0 {
          index := log[|log| - 1].index + 1;
        } else {
          index := snapshotIndex + 1;
        }
        AppendEntry(full, snapshotIndex, LogEntry(currentTerm, index, command));
        hide Indexed, TermAt;
        log := log + [LogEntry(currentTerm, index, command)];
        term := currentTerm;
        matchIndex := matchIndex[me := index];
        nextIndex := nextIndex[me := index + 1];
        full := full + [LogEntry(currentTerm, index, command)];
        index := index + 1;
      } else {
        index, term := -1, 0;
      }
    }

    /** The message for a follower: the snapshot when the entry before the next index has been discarded, and
        otherwise the whole log from the next index on; the leader panics exactly when it would not find the
        entry before. */
    method MessageFor(f: nat) returns (m: Outcome<Message>)
      requires Valid() && f < |nextIndex|
      ensures m == Panic <==> nextIndex[f] > |full|
      ensures nextIndex[f] <= snapshotIndex ==>
        m == Done(InstallSnapshot(InstallArgs(currentTerm, me, snapshotIndex, TermAt(full, snapshotIndex), snapshot)))
      ensures snapshotIndex < nextIndex[f] <= |full| ==>
        m == Done(AppendEntries(AppendArgs(
          currentTerm, me, nextIndex[f] - 1, TermAt(full, nextIndex[f] - 1), full[nextIndex[f]..], commitIndex)))
    {
      hide PositionOf, Indexed;
      var prev := nextIndex[f] - 1;
      if prev < snapshotIndex {
        return Done(InstallSnapshot(InstallArgs(currentTerm, me, snapshotIndex, snapshotTerm, snapshot)));
      } else if prev == snapshotIndex {
        var entries := CopyFrom(0);
        return Done(AppendEntries(AppendArgs(currentTerm, me, prev, snapshotTerm, entries, commitIndex)));
      } else {
        var actual := FindIndex(prev);
        if actual == -1 {
          return Panic;
        }
        var entries := CopyFrom(actual + 1);
        return Done(AppendEntries(AppendArgs(currentTerm, me, prev, log[actual].term, entries, commitIndex)));
      }
    }

    /** An entry by entry copy of the live log from a position on. */
    method CopyFrom(start: nat) returns (entries: Log)
      requires Valid() && start <= |log|
      ensures entries == full[snapshotIndex + 1 + start..]
    {
      entries := [];
      for j := 0 to |log| - start
        invariant |entries| == j && forall i :: 0 <= i < j ==> entries[i] == log[start + i]
      {
        var e := log[start + j];
        entries := entries + [LogEntry(e.term, e.index, e.command)];
      }
    }

    /** The position in the live log of the last entry of a term, or -1. */
    method LastLiveOfTerm(term: int) returns (k: int)
      requires Valid()
      ensures k == if LastOfTerm(full, term) > snapshotIndex then LastOfTerm(full, term) - snapshotIndex - 1 else -1
    {
      k := |log| - 1;
      while k != -1 && log[k].term != term
        invariant -1 <= k < |log|
        invariant forall j :: k < j < |log| ==> log[j].term != term
      {
        k := k - 1;
      }
      LastLive(full, snapshotIndex, log, k, term);
    }

    /** Where the leader goes on after a refusal. */
    method NextAfterRefusal(a: Answer) returns (next: int)
      requires Valid() && !a.success
      ensures next == LeaderNext(full, snapshotIndex, 0, -1, 0, a)
    {
      hide LastOfTerm, TermAt;
      if a.xTerm == -1 {
        return a.xIndex;
      }
      var k := LastLiveOfTerm(a.xTerm);
      if k != -1 {
        LiveOfTerm(full, snapshotIndex, log, a.xTerm, k);
        return log[k].index + 1;
      }
      return a.xIndex;
    }

    /** The leader backs up or advances: as on the whole log, but for a conflicting term that it has
        discarded. */
    method LeaderHandleLog(args: AppendArgs, reply: AppendReply)
      requires Valid() && 0 <= reply.serverId < |nextIndex| && |nextIndex| == |matchIndex|
      modifies `nextIndex, `matchIndex
      ensures nextIndex == old(nextIndex)[reply.serverId :=
        LeaderNext(full, snapshotIndex, old(nextIndex[reply.serverId]), args.prev, |args.entries|, reply.answer)]
      ensures matchIndex == old(matchIndex)[reply.serverId :=
        LeaderMatch(
          old(matchIndex[reply.serverId]), old(nextIndex[reply.serverId]), args.prev, |args.entries|, reply.answer)]
      ensures Heeded(full, snapshotIndex, old(nextIndex[reply.serverId]), old(matchIndex[reply.serverId]),
                     args.prev, |args.entries|, reply.answer, nextIndex[reply.serverId], matchIndex[reply.serverId])
    {
      var f := reply.serverId;
      AnswerIsHeeded(full, snapshotIndex, nextIndex[f], matchIndex[f], args.prev, |args.entries|, reply.answer);
      hide Heeded, Valid, LastOfTerm;
      if args.prev != nextIndex[f] - 1 {
        return;
      }
      if !reply.answer.success {
        var next := NextAfterRefusal(reply.answer);
        nextIndex := nextIndex[f := next];
      } else {
        nextIndex := nextIndex[f := args.prev + |args.entries| + 1];
        matchIndex := matchIndex[f := nextIndex[f] - 1];
      }
    }

    method AppendEntriesResponseHandler(args: AppendArgs, reply: AppendReply)
      requires Valid() && args.term <= currentTerm
      requires reply.term == currentTerm ==> 0 <= reply.serverId < |nextIndex| && |nextIndex| == |matchIndex|
      modifies `role, `currentTerm, `votedFor, `nextIndex, `matchIndex
      ensures Valid()
      ensures reply.term > old(currentTerm) == args.term ==>
        role == Follower && currentTerm == reply.term && votedFor == -1
      ensures reply.term <= old(currentTerm) || args.term < old(currentTerm) ==>
        role == old(role) && currentTerm == old(currentTerm) && votedFor == old(votedFor)
      ensures reply.term != old(currentTerm) || args.term < old(currentTerm) ==>
        nextIndex == old(nextIndex) && matchIndex == old(matchIndex)
      ensures reply.term == old(currentTerm) == args.term ==> nextIndex == old(nextIndex)[reply.serverId :=
        LeaderNext(full, snapshotIndex, old(nextIndex)[reply.serverId], args.prev, |args.entries|, reply.answer)]
      ensures reply.term == old(currentTerm) == args.term ==> matchIndex == old(matchIndex)[reply.serverId :=
        LeaderMatch(
          old(matchIndex)[reply.serverId], old(nextIndex)[reply.serverId], args.prev, |args.entries|, reply.answer)]
      ensures reply.term == old(currentTerm) == args.term ==>
        Heeded(full, snapshotIndex, old(nextIndex)[reply.serverId], old(matchIndex)[reply.serverId],
               args.prev, |args.entries|, reply.answer, nextIndex[reply.serverId], matchIndex[reply.serverId])
    {
      hide Heeded;
      if currentTerm > reply.term || currentTerm > args.term {
        return;
      }
      if currentTerm < reply.term {
        ToFollower(reply.term);
        return;
      }
      LeaderHandleLog(args, reply);
    }

    method ToFollower(term: int)
      modifies `role, `currentTerm, `votedFor
      ensures role == Follower && currentTerm == Max(old(currentTerm), term)
      ensures votedFor == if old(currentTerm) < term then -1 else old(votedFor)
    {
      role := Follower;
      if currentTerm < term {
        votedFor := -1;
        currentTerm := term;
      }
    }

    // ---------- the follower ----------

    /** The in-place merge of entries behind a position of the live log. */
    method MergeEntries(at: nat, entries: Log)
      requires at <= |log|
      modifies `log
      ensures log == HandlerMerge(old(log), at, entries)
    {
      if |log| - at <= |entries| {
        log := log[..at] + entries;
        return;
      }
      ghost var was := log;
      for i := at to at + |entries|
        invariant log == MergedTo(was, at, entries, i) && |log| >= at + |entries|
      {
        MergeStep(was, at, entries, i);
        hide FirstDisagreement;
        if log[i].term != entries[i - at].term {
          log := log[..i] + entries[i - at..];
        }
      }
    }

    /** The live log gives way to entries that reach its end or differ from it. */
    method TakeIfDifferent(entries: Log)
      modifies `log
      ensures log == if |old(log)| <= |entries| || TermsDiffer(old(log), 0, entries) then entries else old(log)
    {
      if |log| <= |entries| {
        log := entries;
        return;
      }
      ghost var was := log;
      for i := 0 to |entries|
        invariant log == was || log == entries
        invariant log == was ==> forall j :: 0 <= j < i ==> was[j].term == entries[j].term
        invariant log != was ==> TermsDiffer(was, 0, entries)
      {
        if log[i].term != entries[i].term {
          log := entries;
        }
      }
    }

    /** A request from inside the snapshot: the entries behind the snapshot are taken all or not at all. */
    method TakeBehindSnapshot(args: AppendArgs)
      requires Valid() && 0 <= args.prev <= snapshotIndex && Indexed(args.entries, args.prev + 1)
      modifies `log, `full
      ensures Valid()
      ensures full == if args.prev + |args.entries| <= snapshotIndex then old(full)
        else SnapshotMerge(old(full), snapshotIndex, args.entries[snapshotIndex - args.prev..])
    {
      hide TermsDiffer, SnapshotMerge, TermAt, Indexed;
      var start := FirstBehindSnapshot(args.prev, args.entries);
      if start == |args.entries| {
        return;
      }
      DropIndexed(args.entries, args.prev + 1, start);
      var newEntries := args.entries[start..];
      SnapshotMergeRepresents(full, snapshotIndex, log, newEntries);
      TakeIfDifferent(newEntries);
      full := SnapshotMerge(full, snapshotIndex, newEntries);
    }

    /** The position of the first of the entries that the snapshot does not stand for, or their number. */
    method FirstBehindSnapshot(prev: int, entries: Log) returns (start: nat)
      requires Valid() && 0 <= prev <= snapshotIndex && Indexed(entries, prev + 1)
      ensures start == if prev + |entries| <= snapshotIndex then |entries| else snapshotIndex - prev
    {
      start := 0;
      while start < |entries| && entries[start].index != snapshotIndex + 1
        invariant start <= |entries| && start <= snapshotIndex - prev
      {
        start := start + 1;
      }
    }

    /** A merge behind a position of the live log. */
    method MergeLive(at: nat, entries: Log)
      requires Valid() && at <= |log|
      modifies `log, `full
      ensures Represents() && full == MergedBehind(old(full), snapshotIndex, at, entries)
    {
      hide HandlerMerge, TermAt, Indexed;
      Rejoin(full, snapshotIndex, HandlerMerge(log, at, entries));
      MergeEntries(at, entries);
      full := full[..snapshotIndex + 1] + log;
    }

    /** The position in the live log of the first entry of the term at `upto`. */
    method FirstLiveOfTerm(upto: nat) returns (start: nat)
      requires Valid() && upto < |log|
      ensures start <= upto && snapshotIndex + 1 + start == FirstOfTerm(full, snapshotIndex + 1, log[upto].term)
      ensures log[start].index == snapshotIndex + 1 + start
    {
      start := 0;
      while start <= upto && log[start].term != log[upto].term
        invariant start <= upto
        invariant forall k :: 0 <= k < start ==> log[k].term != log[upto].term
      {
        start := start + 1;
      }
      FirstLive(full, snapshotIndex, log, start, log[upto].term);
    }

    /** The conflicting entry goes with all that follow it. */
    method CutConflict(args: AppendArgs, actual: nat) returns (answer: Answer)
      requires Valid() && actual < |log| && args.prev == snapshotIndex + 1 + actual && log[actual].term != args.prevTerm
      modifies `log, `full
      ensures Valid()
      ensures Followed(full, answer) == Follow(old(full), snapshotIndex, args.prev, args.prevTerm, args.entries)
    {
      hide Follow, TermAt, Indexed;
      FollowConflicts(full, snapshotIndex, args);
      TakeDrop(full, snapshotIndex, args.prev);
      var term := log[actual].term;
      var start := FirstLiveOfTerm(actual);
      answer := Answer(false, term, log[start].index);
      log := log[..actual];
      full := full[..args.prev];
    }

    /** The follower's answer and new log are those of a follower that holds its whole log, when the request agrees
        with what the snapshot stands for, exactly if the server survives the request. */
    method FollowerHandleLog(args: AppendArgs) returns (answer: Answer, xLen: int)
      requires Valid() && -1 <= args.prev && Indexed(args.entries, args.prev + 1)
      modifies `log, `full
      ensures Represents() && xLen == |log|
      ensures Followed(full, answer) ==
        FollowCompacted(old(full), snapshotIndex, args.prev, args.prevTerm, args.entries)
      ensures Survives(old(full), snapshotIndex, args.prev, args.entries) ==> Valid()
      ensures AgreesWithSnapshot(old(full), snapshotIndex, args.prev, args.prevTerm, args.entries) ==>
        (Followed(full, answer) == Follow(old(full), snapshotIndex, args.prev, args.prevTerm, args.entries) <==>
         Survives(old(full), snapshotIndex, args.prev, args.entries))
      ensures Told(old(full), snapshotIndex, args.prev, args.prevTerm, full, answer)
    {
      hide AgreesWithSnapshot, Follow, Survives, FollowCompacted, Indexed, Told;
      CompactedTells(full, snapshotIndex, args.prev, args.prevTerm, args.entries);
      if AgreesWithSnapshot(full, snapshotIndex, args.prev, args.prevTerm, args.entries) {
        CompactionIsInvisible(full, snapshotIndex, args.prev, args.prevTerm, args.entries);
      }
      answer, xLen := FollowLog(args);
    }

    /** The follower's answer and new log. The server is still valid but for a request from index 0 that it does
        not survive: then it has compared and merged the entries at the wrong positions. */
    method FollowLog(args: AppendArgs) returns (answer: Answer, xLen: int)
      requires Valid() && -1 <= args.prev && Indexed(args.entries, args.prev + 1)
      modifies `log, `full
      ensures Represents() && xLen == |log|
      ensures Followed(full, answer) ==
        FollowCompacted(old(full), snapshotIndex, args.prev, args.prevTerm, args.entries)
      ensures Survives(old(full), snapshotIndex, args.prev, args.entries) ==> Valid()
    {
      hide Follow, FollowCompacted, Survives, PositionOf, Indexed, SnapshotMerge, TermAt;
      var last, _ := GetLastLogIndexAndTerm();
      if last < args.prev {
        FollowIsTooShort(full, snapshotIndex, args);
        return Answer(false, -1, last + 1), |log|;
      }
      var actual := FindIndex(args.prev);
      if actual == -1 && args.prev != -1 {
        FollowIsBehind(full, snapshotIndex, args);
        TakeBehindSnapshot(args);
        return Answer(true, -1, -1), |log|;
      }
      answer := CompareAt(args, actual);
      return answer, |log|;
    }

    /** The entry before those of the request is at position `actual`, or there is none. */
    method CompareAt(args: AppendArgs, actual: int) returns (answer: Answer)
      requires Valid() && -1 <= actual < |log| && Indexed(args.entries, args.prev + 1)
      requires args.prev == if actual == -1 then -1 else snapshotIndex + 1 + actual
      modifies `log, `full
      ensures Represents()
      ensures Followed(full, answer) ==
        FollowCompacted(old(full), snapshotIndex, args.prev, args.prevTerm, args.entries)
      ensures Survives(old(full), snapshotIndex, args.prev, args.entries) ==> Valid()
    {
      if actual != -1 {
        LiveEntry(actual);
      }
      hide Follow, Indexed, TermAt, Survives;
      if args.prev != -1 && log[actual].term != args.prevTerm {
        answer := CutConflict(args, actual);
        return answer;
      }
      AcceptAt(args, actual);
      return Answer(true, -1, -1);
    }

    /** The entries are merged behind position `actual`. */
    method AcceptAt(args: AppendArgs, actual: int)
      requires Valid() && -1 <= actual < |log| && Indexed(args.entries, args.prev + 1)
      requires args.prev == if actual == -1 then -1 else snapshotIndex + 1 + actual
      requires actual != -1 ==> full[args.prev].term == args.prevTerm
      modifies `log, `full
      ensures Represents()
      ensures Followed(full, Answer(true, -1, -1)) ==
        FollowCompacted(old(full), snapshotIndex, args.prev, args.prevTerm, args.entries)
      ensures Survives(old(full), snapshotIndex, args.prev, args.entries) ==> Valid()
    {
      hide FollowCompacted, Indexed, MergedBehind, TermAt, Survives;
      MergeIsFollowed(full, snapshotIndex, args, actual);
      MergeLive(actual + 1, args.entries);
    }

    // ---------- committing ----------

    /** The entries that a moving commit index hands to the service. */
    method CommittedBatch(prev: int, cur: int) returns (batch: Outcome<seq<ApplyMsg>>)
      ensures batch == Handed(log, snapshotIndex, prev, cur)
      ensures Valid() && snapshotIndex <= prev <= cur < |full| ==> batch == Done(Batch(full, prev + 1, cur + 1))
    {
      if Valid() && snapshotIndex <= prev <= cur < |full| {
        HandedIsBatch(full, snapshotIndex, prev, cur);
        assert log == full[snapshotIndex + 1..];
      }
      hide Handed, Batch, Indexed, Valid;
      batch := HandOver(prev, cur);
    }

    /** Looks for the entry at `prev` and collects those behind it. */
    method HandOver(prev: int, cur: int) returns (batch: Outcome<seq<ApplyMsg>>)
      ensures batch == Handed(log, snapshotIndex, prev, cur)
    {
      hide Batch, Valid, PositionOf;
      var start := 0;
      var found := false;
      if prev == -1 || prev == snapshotIndex {
        start := -1;
        found := true;
      } else {
        start := FindIndex(prev);
        found := start != -1;
      }
      if !found {
        return Panic;
      }
      var to := start + (cur - prev) + 1;
      if start + 1 < to && to > |log| {
        return Panic;
      }
      var messages := Commands(start + 1, Max(to, start + 1));
      return Done(messages);
    }

    /** The live entries from one position up to another, for the service. */
    method Commands(from: nat, to: nat) returns (messages: seq<ApplyMsg>)
      requires from <= to <= |log|
      ensures messages == Batch(log, from, to)
    {
      messages := [];
      for i := from to to
        invariant |messages| == i - from
        invariant forall j :: 0 <= j < |messages| ==>
          messages[j] == ApplyCommand(log[from + j].command, log[from + j].index + 1)
      {
        messages := messages + [ApplyCommand(log[i].command, log[i].index + 1)];
      }
    }

    /** The commit index of a follower has moved from `commit` to the leader's, but not beyond the log, and `batch` is
        what that hands to the service. */
    ghost predicate Moved(commit: int, applied: int, leaderCommit: int, batch: Outcome<seq<ApplyMsg>>)
      reads `log, `snapshotIndex, `commitIndex, `lastApplied
    {
      && commitIndex == FollowerCommit(commit, leaderCommit, LastIndex())
      && lastApplied == (if commit >= leaderCommit then applied else commitIndex)
      && batch == if commit >= leaderCommit then Done([]) else Handed(log, snapshotIndex, commit, commitIndex)
    }

    /** When the old commit index lies in the log, the newly committed entries go to the service; when the log does
        not even reach it, that is a panic. */
    lemma MovedWithinLog(commit: int, applied: int, leaderCommit: int, batch: Outcome<seq<ApplyMsg>>)
      requires Valid() && Moved(commit, applied, leaderCommit, batch)
      ensures snapshotIndex <= commit < |full| ==>
        CommitInLog() && commit <= commitIndex && batch == Done(Batch(full, commit + 1, commitIndex + 1))
      ensures |full| <= commit < leaderCommit ==> batch == Panic
    {
      LastOfWhole();
      FollowerHands(full, snapshotIndex, commit, leaderCommit);
      hide Handed, Batch, Indexed;
    }

    method FollowerUpdateCommitIndex(leaderCommit: int) returns (batch: Outcome<seq<ApplyMsg>>)
      modifies `commitIndex, `lastApplied
      ensures Moved(old(commitIndex), old(lastApplied), leaderCommit, batch)
      ensures Valid() && old(CommitInLog()) ==>
        && CommitInLog() && old(commitIndex) <= commitIndex
        && batch == Done(Batch(full, old(commitIndex) + 1, commitIndex + 1))
      ensures Valid() && |full| <= old(commitIndex) < leaderCommit ==> batch == Panic
      ensures old(commitIndex) >= leaderCommit ==> commitIndex == old(commitIndex)
      ensures old(commitIndex) < leaderCommit ==>
        commitIndex == if LastIndex() < leaderCommit then LastIndex() else leaderCommit
    {
      hide Valid, Handed;
      batch := MoveCommitIndex(leaderCommit);
      if Valid() {
        MovedWithinLog(old(commitIndex), old(lastApplied), leaderCommit, batch);
      }
    }

    method MoveCommitIndex(leaderCommit: int) returns (batch: Outcome<seq<ApplyMsg>>)
      modifies `commitIndex, `lastApplied
      ensures Moved(old(commitIndex), old(lastApplied), leaderCommit, batch)
    {
      hide Handed, Valid;
      if commitIndex >= leaderCommit {
        return Done([]);
      }
      var prev, min := commitIndex, leaderCommit;
      var last, _ := GetLastLogIndexAndTerm();
      if last < leaderCommit {
        min := last;
      }
      commitIndex := min;
      lastApplied := commitIndex;
      batch := CommittedBatch(prev, commitIndex);
    }

    /** The commit index moves to the candidate, if that lies beyond it and is of the current term, and the batch is
        what is newly committed. It is a panic exactly when the candidate lies beyond the log. */
    ghost predicate Considered(candidate: int, commit: int, applied: int, batch: Outcome<seq<ApplyMsg>>)
      reads `full, `snapshotIndex, `commitIndex, `lastApplied, `currentTerm
    {
      && CommitInLog() && -1 <= commit <= commitIndex == LeaderCommit(full, currentTerm, commit, candidate)
      && lastApplied == (if commitIndex == commit then applied else commitIndex)
      && (batch == Panic <==> full != [] && candidate > commit && candidate >= |full|)
      && (batch.Done? ==> batch == Done(Batch(full, commit + 1, commitIndex + 1)))
    }

    /** The leader looks at the commit candidate; `sorted` is what the library's sort makes of the match indexes. */
    method LeaderUpdateCommitIndex(sorted: seq<int>) returns (batch: Outcome<seq<ApplyMsg>>, ghost candidate: int)
      requires Valid() && CommitInLog() && |matchIndex| >= 1 && SortsInts(matchIndex, sorted)
      modifies `commitIndex, `lastApplied
      ensures IsCandidate(matchIndex, candidate) && Considered(candidate, old(commitIndex), old(lastApplied), batch)
      ensures commitIndex != old(commitIndex) <==>
        old(commitIndex) < candidate < |full| && full[candidate].term == currentTerm
      ensures commitIndex != old(commitIndex) ==> commitIndex == candidate
    {
      hide IsCandidate, SortsInts, Batch, Valid;
      MiddleIsCandidate(matchIndex, sorted);
      candidate := sorted[(|matchIndex| + 1) / 2 - 1];
      NonEmptyLog();
      if |log| == 0 && snapshotIndex == -1 {
        EmptyLogStays(candidate);
        return Done([]), candidate;
      }
      var majority := sorted[(|matchIndex| + 1) / 2 - 1];
      batch := CommitThrough(majority);
    }

    lemma NonEmptyLog()
      requires Valid()
      ensures |log| == 0 && snapshotIndex == -1 <==> full == []
    {
    }

    lemma EmptyLogStays(candidate: int)
      requires full == [] && CommitInLog() && snapshotIndex == -1
      ensures Considered(candidate, commitIndex, lastApplied, Done([]))
    {
      NothingToApply(full, commitIndex + 1);
      hide Batch;
    }

    /** Only an entry of the current term beyond the commit index is committed. */
    method CommitThrough(majority: int) returns (batch: Outcome<seq<ApplyMsg>>)
      requires Valid() && CommitInLog() && full != []
      modifies `commitIndex, `lastApplied
      ensures Considered(majority, old(commitIndex), old(lastApplied), batch)
    {
      hide Batch, Handed, PositionOf, Indexed;
      NothingToApply(full, commitIndex + 1);
      if majority == -1 || majority <= commitIndex {
        return Done([]);
      }
      var i := FindIndex(majority);
      if i == -1 {
        return Panic;
      }
      if log[i].term == currentTerm {
        var prev := commitIndex;
        commitIndex := majority;
        lastApplied := commitIndex;
        batch := CommittedBatch(prev, commitIndex);
      } else {
        batch := Done([]);
      }
    }

    // ---------- handling requests ----------

    /** The commit index has moved when the entries were accepted, and otherwise nothing has happened to it. */
    ghost predicate Handled(commit: int, applied: int, args: AppendArgs, answer: Answer, batch: Outcome<seq<ApplyMsg>>)
      reads `log, `snapshotIndex, `commitIndex, `lastApplied
    {
      if answer.success then Moved(commit, applied, args.leaderCommit, batch)
      else commitIndex == commit && lastApplied == applied && batch == Done([])
    }

    lemma HandledWithinLog(commit: int, applied: int, args: AppendArgs, answer: Answer, batch: Outcome<seq<ApplyMsg>>)
      requires Valid() && Handled(commit, applied, args, answer, batch) && snapshotIndex <= commit < |full|
      ensures CommitInLog() && commit <= commitIndex && batch == Done(Batch(full, commit + 1, commitIndex + 1))
    {
      hide Moved;
      if answer.success {
        MovedWithinLog(commit, applied, args.leaderCommit, batch);
      } else {
        NothingToApply(full, commit + 1);
      }
    }

    /** A follower handles the entries and, when it accepts them, moves its commit index. */
    method HandleEntries(args: AppendArgs) returns (answer: Answer, xLen: int, batch: Outcome<seq<ApplyMsg>>)
      requires Valid() && -1 <= args.prev && Indexed(args.entries, args.prev + 1)
      modifies `log, `full, `commitIndex, `lastApplied
      ensures Represents() && xLen == |log|
      ensures Followed(full, answer) ==
        FollowCompacted(old(full), snapshotIndex, args.prev, args.prevTerm, args.entries)
      ensures Survives(old(full), snapshotIndex, args.prev, args.entries) ==> Valid()
      ensures Handled(old(commitIndex), old(lastApplied), args, answer, batch)
      ensures Told(old(full), snapshotIndex, args.prev, args.prevTerm, full, answer)
    {
      hide FollowCompacted, AgreesWithSnapshot, Indexed, Survives, Moved, Told;
      answer, xLen := FollowerHandleLog(args);
      if answer.success {
        batch := FollowerUpdateCommitIndex(args.leaderCommit);
      } else {
        batch := Done([]);
      }
    }

    /** A request of an older term changes nothing; any other makes the server a follower that handles it. */
    method AppendEntriesRequestHandler(args: AppendArgs) returns (reply: AppendReply, batch: Outcome<seq<ApplyMsg>>)
      requires Valid() && -1 <= args.prev && Indexed(args.entries, args.prev + 1)
      modifies `role, `currentTerm, `votedFor, `log, `full, `commitIndex, `lastApplied
      ensures Represents()
      ensures args.term < old(currentTerm) || Survives(old(full), snapshotIndex, args.prev, args.entries) ==> Valid()
      ensures args.term < old(currentTerm) ==>
        && reply == AppendReply(currentTerm, 0, Answer(false, 0, 0), 0) && batch == Done([])
        && currentTerm == old(currentTerm)
        && full == old(full) && commitIndex == old(commitIndex) && lastApplied == old(lastApplied)
        && role == old(role) && votedFor == old(votedFor)
      ensures args.term >= old(currentTerm) ==>
        && role == Follower && currentTerm == args.term
        && votedFor == (if old(currentTerm) < args.term then -1 else old(votedFor))
        && reply == AppendReply(args.term, me, reply.answer, |log|)
      ensures args.term >= old(currentTerm) ==>
        && Followed(full, reply.answer) ==
           FollowCompacted(old(full), snapshotIndex, args.prev, args.prevTerm, args.entries)
        && Handled(old(commitIndex), old(lastApplied), args, reply.answer, batch)
        && Told(old(full), snapshotIndex, args.prev, args.prevTerm, full, reply.answer)
      ensures args.term >= old(currentTerm) && Valid() && snapshotIndex <= old(commitIndex) < |full| ==>
        && CommitInLog() && old(commitIndex) <= commitIndex
        && batch == Done(Batch(full, old(commitIndex) + 1, commitIndex + 1))
    {
      hide FollowCompacted, Batch, Indexed, Survives, Handled, Told;
      if args.term < currentTerm {
        return AppendReply(currentTerm, 0, Answer(false, 0, 0), 0), Done([]);
      }
      hide Valid;
      ToFollower(args.term);
      var answer, xLen;
      answer, xLen, batch := HandleEntries(args);
      reply := AppendReply(args.term, me, answer, xLen);
      if Valid() && snapshotIndex <= old(commitIndex) < |full| {
        HandledWithinLog(old(commitIndex), old(lastApplied), args, answer, batch);
      }
    }

    // ---------- snapshots ----------

    /** The service has taken a snapshot: entries go from the live log and stay in the whole log. The service
        hears of the snapshot, and again of what is committed behind it. */
    method InstallCurRfSnapShot(index: int, snapshot: Snapshot) returns (messages: seq<ApplyMsg>)
      requires Valid()
      modifies `log, `snapshot, `snapshotIndex, `snapshotTerm
      ensures Valid()
      ensures snapshotIndex == if old(snapshotIndex) < index < |full| then index else old(snapshotIndex)
      ensures snapshotIndex != old(snapshotIndex) ==> this.snapshot == snapshot
      ensures snapshotIndex == old(snapshotIndex) ==>
        this.snapshot == old(this.snapshot) && log == old(log) && messages == []
      ensures old(CommitInLog()) && index <= commitIndex ==> CommitInLog()
      ensures old(snapshotIndex) < index < |full| ==>
        messages == SnapshotMessages(full, snapshot, index, commitIndex)
    {
      hide Batch, TermAt, Valid, PositionOf;
      var i := FindIndex(index);
      if i == -1 {
        return [];
      }
      DiscardThrough(i, snapshot);
      messages := [ApplySnapshot(snapshot, snapshotTerm, snapshotIndex + 1)];
      if commitIndex > snapshotIndex {
        var more := CommittedBehindSnapshot();
        messages := messages + more;
      }
    }

    method CommittedBehindSnapshot() returns (messages: seq<ApplyMsg>)
      requires Valid() && snapshotIndex < commitIndex
      ensures messages == if commitIndex < |full| then Batch(full, snapshotIndex + 1, commitIndex + 1) else []
    {
      hide PositionOf, Indexed, Batch, TermAt;
      var upto := FindIndex(commitIndex);
      BatchOfLive(full, snapshotIndex + 1, 0, upto + 1);
      NothingToApply(log, 0);
      messages := Commands(0, upto + 1);
    }

    /** The entries of the live log through a position now only stand in the snapshot. */
    method DiscardThrough(i: nat, snapshot: Snapshot)
      requires Valid() && i < |log|
      modifies `log, `snapshot, `snapshotIndex, `snapshotTerm
      ensures Valid() && this.snapshot == snapshot && snapshotIndex == old(snapshotIndex) + 1 + i
      ensures snapshotTerm == full[snapshotIndex].term
    {
      LiveEntry(i);
      hide Indexed;
      DropDrop(full, snapshotIndex + 1, i + 1);
      this.snapshot := snapshot;
      snapshotIndex, snapshotTerm := log[i].index, log[i].term;
      log := log[i + 1..];
    }

    /** The log is given up for a snapshot that stands for the entries `covered`. */
    method StartFrom(args: InstallArgs, ghost covered: Log)
      requires -1 <= args.last && |covered| == args.last + 1 && Indexed(covered, 0)
      requires TermAt(covered, args.last) == args.lastTerm
      modifies `log, `full, `snapshot, `snapshotIndex, `snapshotTerm
      ensures Valid() && full == covered && snapshotIndex == args.last && snapshot == args.snapshot
      ensures snapshotTerm == args.lastTerm
    {
      snapshot, snapshotIndex, snapshotTerm := args.snapshot, args.last, args.lastTerm;
      log := [];
      full := covered;
    }

    /** What is persisted is still that. */
    ghost predicate Unchanged(log: Log, snapshot: Snapshot, snapshotIndex: int, snapshotTerm: int)
      reads `log, `snapshot, `snapshotIndex, `snapshotTerm
    {
      && this.log == log && this.snapshot == snapshot
      && this.snapshotIndex == snapshotIndex && this.snapshotTerm == snapshotTerm
    }

    /** The log is compacted or replaced, and the commit index raised; not `ok` stands for a panic. */
    method TakeSnapshot(args: InstallArgs, ghost covered: Log) returns (ok: bool)
      requires Valid() && snapshotIndex < args.last
      requires |covered| == args.last + 1 && Indexed(covered, 0) && TermAt(covered, args.last) == args.lastTerm
      modifies `log, `full, `snapshot, `snapshotIndex, `snapshotTerm, `commitIndex
      ensures ok == if args.last < |old(full)| then old(full)[args.last].term == args.lastTerm
        else old(commitIndex) <= args.last
      ensures !ok && args.last < |old(full)| ==>
        full == old(full) && Unchanged(old(log), old(snapshot), old(snapshotIndex), old(snapshotTerm))
      ensures ok ==>
        && Valid() && full == Installed(old(full), covered)
        && snapshot == args.snapshot && snapshotIndex == args.last && snapshotTerm == args.lastTerm
        && commitIndex == Max(old(commitIndex), args.last)
    {
      hide Indexed, TermAt;
      var i := FindIndex(args.last);
      var prev := commitIndex;
      if i == -1 {
        StartFrom(args, covered);
        commitIndex := args.last;
        return prev <= commitIndex;
      }
      if log[i].term != args.lastTerm {
        return false;
      }
      DiscardThrough(i, args.snapshot);
      if prev < args.last {
        commitIndex := args.last;
      }
      return true;
    }

    /** A snapshot of the leader that stands for the entries `covered` replaces a log that does not reach as
        far, and is otherwise only a compaction. The server panics exactly when it holds another term at the
        last covered index, or has committed beyond a snapshot that its log does not reach. */
    method InstallSnapshotRequestHandler(args: InstallArgs, ghost covered: Log)
      returns (r: Outcome<InstallReply>, messages: seq<ApplyMsg>)
      requires Valid() && -1 <= args.last && |covered| == args.last + 1 && Indexed(covered, 0)
      requires TermAt(covered, args.last) == args.lastTerm
      modifies `role, `currentTerm, `votedFor, `log, `full, `snapshot, `snapshotIndex, `snapshotTerm, `commitIndex
      ensures r == Panic <==>
        || (old(snapshotIndex) == args.last && old(snapshotTerm) != args.lastTerm)
        || (args.term >= old(currentTerm) && old(snapshotIndex) < args.last < |old(full)|
            && old(full)[args.last].term != args.lastTerm)
        || (args.term >= old(currentTerm) && old(snapshotIndex) < args.last
            && |old(full)| <= args.last < old(commitIndex))
      ensures r == Panic && args.last < |old(full)| ==>
        && Valid() && full == old(full) && Unchanged(old(log), old(snapshot), old(snapshotIndex), old(snapshotTerm))
        && currentTerm == (if old(snapshotIndex) < args.last then Max(old(currentTerm), args.term)
          else old(currentTerm))
      ensures r.Done? ==> Valid() && r.value == InstallReply(currentTerm, me) && (old(CommitInLog()) ==> CommitInLog())
      ensures r.Done? && (args.term < old(currentTerm) || old(snapshotIndex) >= args.last) ==>
        && full == old(full) && snapshot == old(snapshot) && snapshotIndex == old(snapshotIndex) && commitIndex ==
          old(commitIndex)
        && currentTerm == old(currentTerm) && role == old(role) && votedFor == old(votedFor) && messages == []
      ensures r.Done? && args.term >= old(currentTerm) && old(snapshotIndex) < args.last ==>
        && full == Installed(old(full), covered) && snapshotIndex == args.last && commitIndex ==
          Max(old(commitIndex), args.last)
        && currentTerm == args.term && snapshot == args.snapshot
        && role == (if old(currentTerm) < args.term then Follower else old(role))
        && votedFor == (if old(currentTerm) < args.term then -1 else old(votedFor))
        && messages == [ApplySnapshot(args.snapshot, args.lastTerm, args.last + 1)]
    {
      hide Indexed;
      messages := [];
      if snapshotIndex == args.last && snapshotTerm != args.lastTerm {
        return Panic, messages;
      }
      if currentTerm > args.term || snapshotIndex >= args.last {
        return Done(InstallReply(currentTerm, me)), messages;
      }
      if currentTerm < args.term {
        ToFollower(args.term);
      }
      var ok := TakeSnapshot(args, covered);
      if !ok {
        return Panic, messages;
      }
      messages := [ApplySnapshot(snapshot, snapshotTerm, snapshotIndex + 1)];
      r := Done(InstallReply(currentTerm, me));
    }

    /** The leader takes note of an installed snapshot, unless it knows more already. */
    method InstallSnapshotResponseHandler(args: InstallArgs, reply: InstallReply)
      requires reply.term == currentTerm == args.term ==>
        0 <= reply.serverId < |nextIndex| && |nextIndex| == |matchIndex|
      modifies `role, `currentTerm, `votedFor, `nextIndex, `matchIndex
      ensures args.term == old(currentTerm) < reply.term ==>
        role == Follower && currentTerm == reply.term && votedFor == -1
      ensures args.term != old(currentTerm) || reply.term <= old(currentTerm) ==>
        role == old(role) && currentTerm == old(currentTerm) && votedFor == old(votedFor)
      ensures args.term != old(currentTerm) || reply.term != old(currentTerm) ==>
        nextIndex == old(nextIndex) && matchIndex == old(matchIndex)
      ensures args.term == old(currentTerm) == reply.term ==>
        && matchIndex == old(matchIndex)[reply.serverId := Max(old(matchIndex)[reply.serverId], args.last)]
        && nextIndex == if old(matchIndex)[reply.serverId] >= args.last then old(nextIndex)
          else old(nextIndex)[reply.serverId := args.last + 1]
    {
      if currentTerm != args.term || currentTerm > reply.term {
        return;
      }
      if currentTerm < reply.term {
        ToFollower(reply.term);
        return;
      }
      if matchIndex[reply.serverId] >= args.last {
        return;
      }
      nextIndex := nextIndex[reply.serverId := args.last + 1];
      matchIndex := matchIndex[reply.serverId := args.last];
    }
  }

  /** The log when the merge has looked at the entries before position `i`. */
  ghost function MergedTo(was: Log, at: nat, entries: Log, i: nat): Log
    requires at <= |was|
  {
    var j := FirstDisagreement(was, at, entries);
    if i <= at + j then was else was[..at + j] + entries[j..]
  }

  /** The merge changes the log at the first disagreement, and there only. */
  lemma MergeStep(was: Log, at: nat, entries: Log, i: nat)
    requires at + |entries| < |was| && at <= i < at + |entries|
    ensures var log := MergedTo(was, at, entries, i);
      && |log| >= at + |entries|
      && MergedTo(was, at, entries, i + 1) ==
         if log[i].term != entries[i - at].term then log[..i] + entries[i - at..] else log
  {
    var j := FirstDisagreement(was, at, entries);
    hide FirstDisagreement;
    if i > at + j {
      var log := was[..at + j] + entries[j..];
      assert log[i] == entries[i - at];
    }
  }

  lemma AppendEntry(full: Log, snap: int, e: LogEntry)
    requires Indexed(full, 0) && -1 <= snap < |full|
    ensures (full + [e])[snap + 1..] == full[snap + 1..] + [e] && TermAt(full + [e], snap) == TermAt(full, snap)
    ensures e.index == |full| ==> Indexed(full + [e], 0)
  {
  }

  lemma DropDrop(full: Log, a: nat, b: nat)
    requires a + b <= |full|
    ensures full[a..][b..] == full[a + b..]
  {
  }

  lemma TakeDrop(full: Log, snap: int, prev: int)
    requires -1 <= snap < prev <= |full|
    ensures full[snap + 1..][..prev - (snap + 1)] == full[..prev][snap + 1..]
    ensures TermAt(full[..prev], snap) == TermAt(full, snap)
    ensures Indexed(full, 0) ==> Indexed(full[..prev], 0)
  {
  }

  /** The whole log after a merge behind position `at` of the live log. */
  ghost function MergedBehind(full: Log, snap: int, at: nat, entries: Log): Log
    requires -1 <= snap < |full| && snap + 1 + at <= |full|
  {
    full[..snap + 1] + HandlerMerge(full[snap + 1..], at, entries)
  }

  /** Position -1 of the live log stands for index -1, whatever the snapshot. */
  lemma MergeIsFollowed(full: Log, snap: int, args: AppendArgs, actual: int)
    requires -1 <= snap < |full| && -1 <= actual < |full| - (snap + 1) && -1 <= args.prev
    requires Indexed(full, 0) && Indexed(args.entries, args.prev + 1)
    requires if actual == -1 then args.prev == -1
      else args.prev == snap + 1 + actual && full[args.prev].term == args.prevTerm
    ensures Followed(MergedBehind(full, snap, actual + 1, args.entries), Answer(true, -1, -1)) ==
      FollowCompacted(full, snap, args.prev, args.prevTerm, args.entries)
    ensures Survives(full, snap, args.prev, args.entries) ==>
      Indexed(MergedBehind(full, snap, actual + 1, args.entries), 0)
  {
    hide HandlerMerge, Harmless, Follow;
    if actual == -1 && snap >= 0 {
      StartOverHeldSnapshot(full, snap, args.entries);
      assert full[..snap + 1] + full[snap + 1..] == full;
    } else {
      MergeOfSuffix(full, snap + 1, actual + 1, args.entries);
      MergeIndexed(full, 0, args.prev + 1, args.entries);
      FollowAccepts(full, snap, args.prev, args.prevTerm, args.entries);
    }
  }

  lemma FollowIsTooShort(full: Log, snap: int, args: AppendArgs)
    requires -1 <= snap < |full| <= args.prev
    ensures FollowCompacted(full, snap, args.prev, args.prevTerm, args.entries) ==
      Followed(full, Answer(false, -1, |full|))
  {
  }

  lemma FollowIsBehind(full: Log, snap: int, args: AppendArgs)
    requires 0 <= args.prev <= snap < |full|
    ensures FollowCompacted(full, snap, args.prev, args.prevTerm, args.entries) == Followed(
      if args.prev + |args.entries| <= snap then full else SnapshotMerge(full, snap, args.entries[snap - args.prev..]),
      Answer(true, -1, -1))
  {
  }

  lemma FollowConflicts(full: Log, snap: int, args: AppendArgs)
    requires -1 <= snap && 0 <= args.prev < |full| && full[args.prev].term != args.prevTerm
    ensures var term := full[args.prev].term;
      Follow(full, snap, args.prev, args.prevTerm, args.entries) ==
        Followed(full[..args.prev], Answer(false, term, FirstOfTerm(full, snap + 1, term)))
  {
  }

  lemma SnapshotMergeLive(full: Log, snap: int, live: Log, entries: Log)
    requires -1 <= snap < |full| && live == full[snap + 1..]
    ensures SnapshotMerge(full, snap, entries) ==
      full[..snap + 1] + if |live| <= |entries| || TermsDiffer(live, 0, entries) then entries else live
  {
    assert full == full[..snap + 1] + live;
    LiveTerms(full, snap, live, entries);
  }

  lemma SnapshotMergeRepresents(full: Log, snap: int, live: Log, entries: Log)
    requires -1 <= snap < |full| && live == full[snap + 1..] && Indexed(full, 0) && Indexed(entries, snap + 1)
    ensures var t := SnapshotMerge(full, snap, entries);
      && snap < |t| && TermAt(t, snap) == TermAt(full, snap) && Indexed(t, 0)
      && t[snap + 1..] == if |live| <= |entries| || TermsDiffer(live, 0, entries) then entries else live
  {
    hide SnapshotMerge, Indexed, TermAt, TermsDiffer;
    SnapshotMergeLive(full, snap, live, entries);
    DropIndexed(full, 0, snap + 1);
    Rejoin(full, snap, entries);
    Rejoin(full, snap, live);
  }

  /** Another live log behind the same snapshot. */
  lemma Rejoin(full: Log, snap: int, live: Log)
    requires -1 <= snap < |full|
    ensures var t := full[..snap + 1] + live;
      && snap < |t| && t[snap + 1..] == live && TermAt(t, snap) == TermAt(full, snap)
      && (Indexed(full, 0) && Indexed(live, snap + 1) ==> Indexed(t, 0))
  {
  }

  lemma MergeIndexed(live: Log, from: int, at: nat, entries: Log)
    requires at <= |live| && Indexed(live, from)
    ensures Indexed(entries, from + at) ==> Indexed(HandlerMerge(live, at, entries), from)
  {
  }

  /** The first entry of a term in the live log is the first at or after where it begins in the whole log. */
  lemma FirstLive(full: Log, snap: int, live: Log, start: nat, term: int)
    requires -1 <= snap < |full| && live == full[snap + 1..] && start < |live| && live[start].term == term
    requires forall k :: 0 <= k < start ==> live[k].term != term
    ensures FirstOfTerm(full, snap + 1, term) == snap + 1 + start
  {
    var i := FirstOfTerm(full, snap + 1, term);
    assert snap < i < |full| ==> live[i - (snap + 1)] == full[i];
    assert full[snap + 1 + start] == live[start];
  }

  /** The entry found carries the index that it has in the whole log. */
  lemma LiveOfTerm(full: Log, snap: int, live: Log, term: int, k: nat)
    requires Indexed(full, 0) && -1 <= snap < |full| && live == full[snap + 1..]
    requires LastOfTerm(full, term) == snap + 1 + k
    ensures k < |live| && live[k] == full[LastOfTerm(full, term)] && live[k].index == snap + 1 + k
  {
  }

  /** The last entry of a term in the live log is the last in the whole log, unless that has been discarded. */
  lemma LastLive(full: Log, snap: int, live: Log, k: int, term: int)
    requires -1 <= snap < |full| && live == full[snap + 1..] && -1 <= k < |live|
    requires k >= 0 ==> live[k].term == term
    requires forall j :: k < j < |live| ==> live[j].term != term
    ensures k >= 0 ==> LastOfTerm(full, term) == snap + 1 + k
    ensures k == -1 ==> LastOfTerm(full, term) <= snap
  {
    var i := LastOfTerm(full, term);
    assert i > snap ==> live[i - (snap + 1)] == full[i];
    assert k >= 0 ==> full[snap + 1 + k] == live[k];
  }
}
