/** The servers play the cluster: an operation of a server is the step of the cluster, and a panic happens only
    where the cluster says so. */
module Refinement {
  import opened Cluster
  import opened Compaction
  import opened RaftLog
  import opened RaftServer
  import opened Replication
  import Commit

  /** Server `s` is server `f` of the cluster. */
  ghost predicate Plays(s: Server, c: Cluster, f: int)
    reads s
  {
    && Sized(c) && 0 <= f < |c.logs| && s.Valid() && s.me == f && s.currentTerm == c.term
    && s.full == c.logs[f] && s.snapshotIndex == c.snaps[f] && s.commitIndex == c.commits[f]
    && (f == c.me && c.leading ==> s.role == Leader && s.nextIndex == c.nextIndex && s.matchIndex == c.matchIndex)
  }

  /** Message `m` is request `r`. */
  ghost predicate Means(m: Message, r: Request, term: int) {
    match r
    case Append(_, prev, prevTerm, entries, leaderCommit) =>
      m.AppendEntries? && m.args == AppendArgs(term, m.args.leaderId, prev, prevTerm, entries, leaderCommit)
    case Install(_, covered) =>
      && m.InstallSnapshot? && |covered| > 0 && m.install.term == term
      && m.install.last == |covered| - 1 && m.install.lastTerm == covered[|covered| - 1].term
  }

  method StartStep(s: Server, command: Command, ghost c: Cluster)
    requires Invariant(c) && c.leading && Plays(s, c, c.me)
    modifies s
    ensures Plays(s, Started(c, command), c.me)
  {
    hide Invariant;
    var _, _, _ := s.Start(command);
  }

  method SendStep(s: Server, f: nat, ghost c: Cluster) returns (m: Outcome<Message>)
    requires Invariant(c) && c.leading && Plays(s, c, c.me) && IsFollower(c, f)
    ensures CanSend(c, f) && m.Done? && Means(m.value, RequestTo(c, f), c.term)
  {
    LeaderFindsEntries(c);
    hide Invariant;
    m := s.MessageFor(f);
  }

  /** A request of its own term, for a follower with whose snapshot it agrees. */
  method HandleAppend(s: Server, args: AppendArgs, ghost r: Request)
    returns (reply: AppendReply, batch: Outcome<seq<ApplyMsg>>)
    requires s.Valid() && args.term == s.currentTerm && r.Append? && Means(AppendEntries(args), r, args.term)
    requires AgreesWithSnapshot(s.full, s.snapshotIndex, r.prev, r.prevTerm, r.entries)
    modifies s
    ensures s.Represents() && s.role == Follower && s.currentTerm == old(s.currentTerm)
    ensures s.snapshotIndex == old(s.snapshotIndex)
    ensures reply.term == s.currentTerm && reply.serverId == s.me
    ensures Followed(s.full, reply.answer) == Follow(old(s.full), s.snapshotIndex, r.prev, r.prevTerm, r.entries) <==>
      Survives(old(s.full), s.snapshotIndex, r.prev, r.entries)
    ensures Survives(old(s.full), s.snapshotIndex, r.prev, r.entries) ==>
      && s.Valid()
      && Handles(old(s.full), s.snapshotIndex, old(s.commitIndex), r, s.full, s.snapshotIndex, s.commitIndex)
      && (s.snapshotIndex <= old(s.commitIndex) < |s.full| ==> batch.Done?)
  {
    CompactionIsInvisible(s.full, s.snapshotIndex, r.prev, r.prevTerm, r.entries);
    hide Follow, FollowCompacted, Survives, Batch, Handed, Indexed, FollowerCommit;
    reply, batch := s.AppendEntriesRequestHandler(args);
    if s.Valid() {
      s.LastOfWhole();
    }
    SettledCommit(s.commitIndex, args.leaderCommit, s.LastIndex());
  }

  lemma SettledCommit(commit: int, leaderCommit: int, last: int)
    ensures commit >= leaderCommit ==> FollowerCommit(commit, leaderCommit, last) == commit
  {
  }

  /** Any request for entries that was ever sent, whenever it arrives. The follower does what the cluster says
      exactly when it survives the request. */
  method DeliverAppend(s: Server, args: AppendArgs, ghost c: Cluster, ghost r: Request)
    returns (reply: AppendReply, batch: Outcome<seq<ApplyMsg>>)
    requires Invariant(c) && r in c.requests && r.Append?
    requires Plays(s, c, r.to) && Means(AppendEntries(args), r, c.term)
    modifies s
    ensures reply.term == c.term && reply.serverId == r.to && s.Represents()
    ensures CanDeliver(c, r) ==> Plays(s, Delivered(c, r), r.to) && batch.Done?
    ensures CanDeliver(c, r) ==> Appended(r.to, r.prev, |r.entries|, reply.answer) in Delivered(c, r).responses
    ensures -1 <= r.prev && -1 <= c.snaps[r.to] && (CanDeliver(c, r) <==>
      Followed(s.full, reply.answer) == Follow(c.logs[r.to], c.snaps[r.to], r.prev, r.prevTerm, r.entries))
  {
    RequestIsHandleable(c, r);
    AppendFits(c, r);
    if CanDeliver(c, r) {
      AppendStays(c, r);
    }
    hide Invariant, AgreesWithSnapshot, Follow, Survives, Indexed, FollowerCommit, CanDeliver, Delivered, Handles;
    reply, batch := HandleAppend(s, args, r);
    if CanDeliver(c, r) {
      DeliveredAppend(c, r, s.full, s.commitIndex);
    }
  }

  lemma DeliveredAppend(c: Cluster, r: Request, log: Log, commit: int)
    requires Sized(c) && CanDeliver(c, r) && r.Append?
    requires Handles(c.logs[r.to], c.snaps[r.to], c.commits[r.to], r, log, c.snaps[r.to], commit)
    ensures var t := Delivered(c, r);
      && Sized(t) && t.me == c.me && t.term == c.term && |t.logs| == |c.logs|
      && t.logs[r.to] == log && t.snaps[r.to] == c.snaps[r.to] && t.commits[r.to] == commit
      && -1 <= r.prev && -1 <= c.snaps[r.to]
      && var f := Follow(c.logs[r.to], c.snaps[r.to], r.prev, r.prevTerm, r.entries);
      Appended(r.to, r.prev, |r.entries|, f.answer) in t.responses
  {
    hide Follow;
  }

  lemma AppendFits(c: Cluster, r: Request)
    requires Invariant(c) && r in c.requests && r.Append?
    ensures -1 <= r.prev && Indexed(r.entries, r.prev + 1)
    ensures -1 <= c.snaps[r.to] < |c.logs[r.to]|
    ensures CanDeliver(c, r) <==> Survives(c.logs[r.to], c.snaps[r.to], r.prev, r.entries)
  {
    assert ServerOk(c, r.to);
  }

  lemma AppendStays(c: Cluster, r: Request)
    requires Invariant(c) && r in c.requests && CanDeliver(c, r) && r.Append?
    ensures c.snaps[r.to] <= c.commits[r.to] < |Delivered(c, r).logs[r.to]|
  {
    assert ServerOk(c, r.to);
    DeliverKeepsServer(c, r);
  }

  /** A snapshot of its own term. On one that contradicts its log the server panics; then `t` is the server that
      comes up again. */
  method HandleInstall(s: Server, args: InstallArgs, ghost r: Request)
    returns (reply: Outcome<InstallReply>, messages: seq<ApplyMsg>, t: Server)
    requires s.Valid() && s.CommitInLog() && args.term == s.currentTerm
    requires r.Install? && Means(InstallSnapshot(args), r, args.term) && Indexed(r.covered, 0)
    requires s.snapshotIndex == |r.covered| - 1 ==> TermAt(s.full, s.snapshotIndex) == args.lastTerm
    modifies s
    ensures reply == Panic <==> old(s.snapshotIndex) < |r.covered| - 1 && Contradicts(old(s.full), r.covered)
    ensures reply.Done? ==> t == s && reply == Done(InstallReply(t.currentTerm, t.me))
    ensures t.Valid() && t.currentTerm == old(s.currentTerm) && t.me == s.me
    ensures Handles(old(s.full), old(s.snapshotIndex), old(s.commitIndex), r, t.full, t.snapshotIndex, t.commitIndex)
  {
    hide Indexed;
    reply, messages := s.InstallSnapshotRequestHandler(args, r.covered);
    t := s;
    if reply.Panic? {
      t := new Server.Make(s.me, s.currentTerm, s.votedFor, s.log, s.snapshot, s.snapshotIndex, s.snapshotTerm, s.full);
    }
  }

  /** Any snapshot that was ever sent, whenever it arrives. */
  method DeliverInstall(s: Server, args: InstallArgs, ghost c: Cluster, ghost r: Request)
    returns (reply: Outcome<InstallReply>, messages: seq<ApplyMsg>, t: Server)
    requires Invariant(c) && r in c.requests && r.Install?
    requires Plays(s, c, r.to) && Means(InstallSnapshot(args), r, c.term)
    modifies s
    ensures reply == Panic <==> c.snaps[r.to] < |r.covered| - 1 && Contradicts(c.logs[r.to], r.covered)
    ensures reply.Done? ==> t == s && reply == Done(InstallReply(c.term, r.to))
    ensures CanDeliver(c, r) && Plays(t, Delivered(c, r), r.to)
    ensures reply.Done? ==> Took(r.to, args.last) in Delivered(c, r).responses
  {
    hide Invariant, Indexed, Delivered, Handles, CanDeliver, Contradicts, TermAt;
    InstallFits(c, r);
    reply, messages, t := HandleInstall(s, args, r);
    DeliveredInstall(c, r, t.full, t.snapshotIndex, t.commitIndex);
  }

  lemma DeliveredInstall(c: Cluster, r: Request, log: Log, snap: int, commit: int)
    requires Sized(c) && CanDeliver(c, r) && r.Install?
    requires Handles(c.logs[r.to], c.snaps[r.to], c.commits[r.to], r, log, snap, commit)
    ensures var t := Delivered(c, r);
      && Sized(t) && t.me == c.me && t.term == c.term && |t.logs| == |c.logs|
      && t.logs[r.to] == log && t.snaps[r.to] == snap && t.commits[r.to] == commit
      && (c.snaps[r.to] >= |r.covered| - 1 || !Contradicts(c.logs[r.to], r.covered) ==>
           Took(r.to, |r.covered| - 1) in t.responses)
  {
  }

  lemma InstallFits(c: Cluster, r: Request)
    requires Invariant(c) && r in c.requests && r.Install?
    ensures IsFollower(c, r.to) && 0 < |r.covered| && CanDeliver(c, r)
    ensures Indexed(r.covered, 0) && -1 <= c.snaps[r.to] <= c.commits[r.to] < |c.logs[r.to]|
    ensures c.snaps[r.to] == |r.covered| - 1 ==> TermAt(c.logs[r.to], c.snaps[r.to]) == r.covered[|r.covered| - 1].term
  {
    assert ServerOk(c, r.to);
    if c.snaps[r.to] == |r.covered| - 1 {
      AgreeAt(c.logs[r.to], c.Leader(), c.commits[r.to] + 1, c.snaps[r.to]);
    }
  }

  /** An answer to a request for entries. */
  method AckAppended(s: Server, args: AppendArgs, reply: AppendReply, ghost c: Cluster, ghost r: Response)
    requires Invariant(c) && c.leading && r in c.responses && r.Appended? && Plays(s, c, c.me)
    requires args.term == reply.term == c.term && args.prev == r.prev && |args.entries| == r.count
    requires reply.serverId == r.from && reply.answer == r.answer
    modifies s
    ensures Plays(s, Acknowledged(c, r), c.me)
  {
    assert IsFollower(c, r.from);
    hide Invariant, LeaderNext, LeaderMatch;
    s.AppendEntriesResponseHandler(args, reply);
  }

  /** An answer to a snapshot. */
  method AckTook(s: Server, args: InstallArgs, reply: InstallReply, ghost c: Cluster, ghost r: Response)
    requires Invariant(c) && c.leading && r in c.responses && r.Took? && Plays(s, c, c.me)
    requires args.term == reply.term == c.term && args.last == r.last && reply.serverId == r.from
    modifies s
    ensures Plays(s, Acknowledged(c, r), c.me)
  {
    assert IsFollower(c, r.from);
    hide Invariant;
    s.InstallSnapshotResponseHandler(args, reply);
  }

  method CommitStep(s: Server, sorted: seq<int>, ghost c: Cluster)
    returns (batch: Outcome<seq<ApplyMsg>>, ghost x: int)
    requires Invariant(c) && c.leading && Plays(s, c, c.me) && Commit.SortsInts(s.matchIndex, sorted)
    modifies s
    ensures Commit.IsCandidate(c.matchIndex, x) && CanCommit(c, x) && Plays(s, Committed(c, x), c.me) && batch.Done?
  {
    hide Invariant, Commit.IsCandidate, Commit.SortsInts, Batch, Indexed, LeaderCommit, TermAt;
    LeaderFindsEntries(c);
    CommitIsInLog(c);
    batch, x := s.LeaderUpdateCommitIndex(sorted);
  }

  lemma CommitIsInLog(c: Cluster)
    requires Invariant(c)
    ensures c.snaps[c.me] <= c.commits[c.me] < |c.Leader()|
  {
    assert ServerOk(c, c.me);
  }

  method CompactStep(s: Server, f: int, index: int, snapshot: Snapshot, ghost c: Cluster)
    returns (messages: seq<ApplyMsg>)
    requires Invariant(c) && Plays(s, c, f) && CanStep(c, Step.Compact(f, index))
    modifies s
    ensures Plays(s, After(c, Step.Compact(f, index)), f)
  {
    assert ServerOk(c, f);
    hide Invariant, Batch;
    messages := s.InstallCurRfSnapShot(index, snapshot);
  }

  /** A server, leader or follower, comes up again from what server `was` had persisted. */
  method RestartStep(was: Server, f: int, ghost c: Cluster) returns (s: Server)
    requires Invariant(c) && Plays(was, c, f) && CanStep(c, Step.Restart(f))
    ensures Plays(s, After(c, Step.Restart(f)), f)
  {
    hide Invariant, Indexed, TermAt;
    s := new Server.Make(was.me, was.currentTerm, was.votedFor, was.log, was.snapshot, was.snapshotIndex,
      was.snapshotTerm, was.full);
  }

  /** A server that has won its term is the leader with which the term begins. */
  method BeginTerm(s: Server, peers: nat, ghost c: Cluster)
    requires TermBegins(c) && peers == |c.logs| && s.Valid() && s.me == c.me && s.currentTerm == c.term
    requires s.full == c.Leader() && s.snapshotIndex == c.snaps[c.me] && s.commitIndex == c.commits[c.me]
    modifies s
    ensures Plays(s, c, c.me)
  {
    s.ToLeader(peers);
  }
}
