/** What replication keeps over every run of a term. */
module Replication {
  import opened Cluster
  import opened FiniteSets
  import opened RaftLog
  import Commit
  import Compaction

  lemma BeginningKeeps(c: Cluster)
    requires TermBegins(c)
    ensures Invariant(c)
  {
    assert LogBegins(c, c.me);
    forall f | 0 <= f < |c.logs|
      ensures ServerOk(c, f)
    {
      assert LogBegins(c, f);
    }
  }

  // ---------- the leader's log grows ----------

  lemma AgreeGrows(a: Log, leader: Log, more: Log, n: int)
    requires Agree(a, leader, n) && leader <= more
    ensures Agree(a, more, n)
  {
    assert more[..n] == leader[..n];
  }

  lemma MatchingGrows(a: Log, leader: Log, e: LogEntry)
    requires LogMatching(a, leader) && (|leader| < |a| ==> a[|leader|].term != e.term)
    ensures LogMatching(a, leader + [e])
  {
    var more := leader + [e];
    forall i | 0 <= i < |a| && i < |more| && a[i].term == more[i].term
      ensures Agree(a, more, i + 1)
    {
      assert i < |leader|;
      AgreeGrows(a, leader, more, i + 1);
    }
  }

  lemma StartKeeps(c: Cluster, command: Command)
    requires Invariant(c)
    ensures Invariant(Started(c, command))
  {
    var t := Started(c, command);
    var leader, more := c.Leader(), t.Leader();
    forall f | 0 <= f < |t.logs|
      ensures ServerOk(t, f)
    {
      StartKeepsServer(c, command, f);
    }
    forall r | r in t.requests
      ensures RequestOk(more, r)
    {
      RequestGrows(leader, more, r);
    }
    forall r | r in t.responses
      ensures ResponseOk(t.logs[r.from], more, r)
    {
      ResponseGrows(c.logs[r.from], leader, more, r);
    }
  }

  lemma RequestGrows(leader: Log, more: Log, r: Request)
    requires RequestOk(leader, r) && leader <= more
    ensures RequestOk(more, r)
  {
    if r.Append? {
      var upto := r.prev + 1 + |r.entries|;
      assert more[r.prev + 1..upto] == leader[r.prev + 1..upto];
    } else {
      assert more[..|r.covered|] == leader[..|r.covered|];
    }
  }

  lemma ResponseGrows(log: Log, leader: Log, more: Log, r: Response)
    requires ResponseOk(log, leader, r) && leader <= more
    ensures ResponseOk(log, more, r)
  {
    var n := if r.Took? then r.last + 1 else r.prev + 1 + r.count;
    if r.Took? || r.answer.success {
      AgreeGrows(log, leader, more, n);
    }
  }

  lemma StartKeepsServer(c: Cluster, command: Command, f: int)
    requires Invariant(c) && 0 <= f < |c.logs|
    ensures ServerOk(Started(c, command), f)
  {
    var t := Started(c, command);
    var leader, more := c.Leader(), t.Leader();
    assert ServerOk(c, f);
    if f == c.me {
      PrefixMatches(more, |more|);
      assert more[..|more|] == more;
      assert Agree(more, more, t.commits[f] + 1);
    } else {
      MatchingGrows(c.logs[f], leader, LogEntry(c.term, |leader|, command));
      AgreeGrows(c.logs[f], leader, more, c.commits[f] + 1);
      AgreeGrows(c.logs[f], leader, more, c.matchIndex[f] + 1);
    }
  }

  // ---------- sending, delivering, acknowledging, committing ----------

  lemma SendKeeps(c: Cluster, f: int)
    requires Invariant(c) && CanStep(c, Send(f))
    ensures Invariant(After(c, Send(f)))
  {
    var t := After(c, Send(f));
    assert ServerOk(c, c.me);
    assert RequestOk(c.Leader(), RequestTo(c, f));
    hide InStep, RequestOk, ResponseOk;
    forall g | 0 <= g < |t.logs|
      ensures ServerOk(t, g)
    {
      assert ServerOk(c, g);
    }
  }

  lemma SmallerAgree(a: Log, b: Log, n: int, k: int)
    requires Agree(a, b, n)
    ensures 0 <= k <= n ==> Agree(a, b, k)
  {
    if 0 <= k <= n {
      assert a[..k] == a[..n][..k] && b[..k] == b[..n][..k];
    }
  }

  /** What a server holds after a request, on values: its log, snapshot index and commit index. */
  ghost predicate Handles(log: Log, snap: int, commit: int, r: Request, newLog: Log, newSnap: int, newCommit: int) {
    match r
    case Append(_, prev, prevTerm, entries, leaderCommit) =>
      && -1 <= prev && -1 <= snap && newSnap == snap
      && var f := Follow(log, snap, prev, prevTerm, entries);
      newLog == f.log && newCommit == if f.answer.success then FollowerCommit(commit, leaderCommit, |f.log| - 1)
        else commit
    case Install(_, covered) =>
      if |covered| - 1 <= snap then newLog == log && newSnap == snap && newCommit == commit
      else if covered == [] || Contradicts(log, covered) then newLog == log && newSnap == snap && newCommit == snap
      else newLog == Installed(log, covered) && newSnap == |covered| - 1 && newCommit == Max(commit, |covered| - 1)
  }

  ghost predicate KeepsAgreed(log: Log, newLog: Log, leader: Log) {
    forall n :: Agree(log, leader, n) ==> Agree(newLog, leader, n)
  }

  lemma AppendKeeps(
    log: Log, leader: Log, term: int, snap: int, commit: int, matched: int, r: Request, newLog: Log, newCommit: int)
    requires InStep(log, leader, term, commit, matched) && -1 <= snap <= commit
    requires r.Append? && RequestOk(leader, r) && Handles(log, snap, commit, r, newLog, snap, newCommit)
    ensures InStep(newLog, leader, term, newCommit, matched) && commit <= newCommit && KeepsAgreed(log, newLog, leader)
    ensures var f := Follow(log, snap, r.prev, r.prevTerm, r.entries);
      ResponseOk(newLog, leader, Appended(r.to, r.prev, |r.entries|, f.answer))
  {
    hide LogMatching, Follow, Agree;
    var upto := r.prev + 1 + |r.entries|;
    SmallerAgree(log, leader, commit + 1, snap + 1);
    FollowIsSafe(log, snap, leader, r.prev, r.prevTerm, r.entries, upto);
    var f := Follow(log, snap, r.prev, r.prevTerm, r.entries);
    if f.answer.success {
      SmallerAgree(f.log, leader, upto, FollowerCommit(commit, r.leaderCommit, |f.log| - 1) + 1);
    }
  }

  lemma InstallKeeps(
    log: Log, leader: Log, term: int, snap: int, commit: int,
    matched: int, r: Request, newLog: Log, newSnap: int, newCommit: int)
    requires InStep(log, leader, term, commit, matched) && -1 <= snap <= commit
    requires r.Install? && RequestOk(leader, r) && Handles(log, snap, commit, r, newLog, newSnap, newCommit)
    ensures InStep(newLog, leader, term, newCommit, matched) && -1 <= newSnap <= newCommit
    ensures KeepsAgreed(log, newLog, leader)
    ensures snap >= |r.covered| - 1 || !Contradicts(log, r.covered) ==>
      ResponseOk(newLog, leader, Took(r.to, |r.covered| - 1))
  {
    var last := |r.covered| - 1;
    SmallerAgree(log, leader, commit + 1, snap + 1);
    if snap >= last {
      SmallerAgree(log, leader, commit + 1, last + 1);
    } else if !Contradicts(log, r.covered) {
      InstallIsSafe(log, leader, last);
    }
  }

  lemma DeliverKeepsServer(c: Cluster, r: Request)
    requires Invariant(c) && r in c.requests && CanDeliver(c, r)
    ensures ServerOk(Delivered(c, r), r.to)
    ensures KeepsAgreed(c.logs[r.to], Delivered(c, r).logs[r.to], c.Leader())
    ensures forall q :: q in Delivered(c, r).responses && q !in c.responses ==>
      q.from == r.to && ResponseOk(Delivered(c, r).logs[r.to], c.Leader(), q)
  {
    var t := Delivered(c, r);
    assert ServerOk(c, r.to);
    if r.Append? {
      AppendKeeps(c.logs[r.to], c.Leader(), c.term, c.snaps[r.to], c.commits[r.to], c.matchIndex[r.to], r, t.logs[r.to],
        t.commits[r.to]);
    } else {
      InstallKeeps(c.logs[r.to], c.Leader(), c.term, c.snaps[r.to], c.commits[r.to], c.matchIndex[r.to], r,
        t.logs[r.to], t.snaps[r.to], t.commits[r.to]);
    }
  }

  lemma ResponseStays(log: Log, newLog: Log, leader: Log, r: Response)
    requires ResponseOk(log, leader, r) && KeepsAgreed(log, newLog, leader)
    ensures ResponseOk(newLog, leader, r)
  {
  }

  /** A delivery changes one follower, and adds at most an answer of it to the network. */
  lemma DeliveredElsewhere(c: Cluster, r: Request)
    requires Sized(c) && CanDeliver(c, r)
    ensures var t := Delivered(c, r);
      && Sized(t) && t.me == c.me && t.term == c.term && |t.logs| == |c.logs| && t.Leader() == c.Leader()
      && t.nextIndex == c.nextIndex && t.matchIndex == c.matchIndex && t.requests == c.requests
      && (forall f :: 0 <= f < |c.logs| && f != r.to ==>
           t.logs[f] == c.logs[f] && t.snaps[f] == c.snaps[f] && t.commits[f] == c.commits[f])
  {
    hide Follow, Compaction.Survives, Contradicts, FollowerCommit, Installed;
  }

  lemma DeliverKeeps(c: Cluster, r: Request)
    requires Invariant(c) && r in c.requests && CanDeliver(c, r)
    ensures Invariant(Delivered(c, r))
  {
    var t := Delivered(c, r);
    DeliverKeepsServer(c, r);
    DeliveredElsewhere(c, r);
    hide InStep, RequestOk, ResponseOk, Follow, KeepsAgreed, Delivered, CanDeliver, Indexed;
    forall f | 0 <= f < |t.logs|
      ensures ServerOk(t, f)
    {
      assert ServerOk(c, f);
    }
    forall q | q in t.responses
      ensures IsFollower(t, q.from) && ResponseOk(t.logs[q.from], t.Leader(), q)
    {
      if q in c.responses && q.from == r.to {
        ResponseStays(c.logs[r.to], t.logs[r.to], c.Leader(), q);
      }
    }
  }

  /** Nothing but one server's commit, snapshot, match and next index changes. */
  lemma IndexesKeep(c: Cluster, t: Cluster, f: int)
    requires Invariant(c) && 0 <= f < |c.logs| && Sized(t)
    requires t == c.(leading := t.leading, snaps := t.snaps, commits := t.commits,
                     nextIndex := t.nextIndex, matchIndex := t.matchIndex)
    requires forall g :: 0 <= g < |c.logs| && g != f ==>
      && t.snaps[g] == c.snaps[g] && t.commits[g] == c.commits[g]
      && t.nextIndex[g] == c.nextIndex[g] && t.matchIndex[g] == c.matchIndex[g]
    requires ServerOk(t, f)
    ensures Invariant(t)
  {
    hide InStep, RequestOk, ResponseOk;
    forall g | 0 <= g < |t.logs|
      ensures ServerOk(t, g)
    {
      assert g != f ==> ServerOk(c, g);
    }
  }

  lemma AckKeeps(c: Cluster, r: Response)
    requires Invariant(c) && r in c.responses
    ensures Invariant(Acknowledged(c, r))
  {
    assert ServerOk(c, r.from);
    if r.Appended? {
      LeaderNextInRange(c.Leader(), c.snaps[c.me], c.nextIndex[r.from], r.prev, r.count, r.answer);
    }
    hide LogMatching, RequestOk, LeaderNext;
    IndexesKeep(c, Acknowledged(c, r), r.from);
  }

  lemma CommitKeeps(c: Cluster, x: int)
    requires Invariant(c) && CanCommit(c, x)
    ensures Invariant(Committed(c, x))
  {
    assert ServerOk(c, c.me);
    hide LogMatching, RequestOk, ResponseOk;
    IndexesKeep(c, Committed(c, x), c.me);
  }

  lemma ForgetKeeps(c: Cluster, step: Step)
    requires Invariant(c) && CanStep(c, step) && (step.Compact? || step.Restart?)
    ensures Invariant(After(c, step))
  {
    assert ServerOk(c, step.server);
    SmallerAgree(c.logs[step.server], c.Leader(), c.commits[step.server] + 1, c.snaps[step.server] + 1);
    hide LogMatching, RequestOk, ResponseOk;
    IndexesKeep(c, After(c, step), step.server);
  }

  lemma StepKeeps(c: Cluster, step: Step)
    requires Invariant(c) && CanStep(c, step)
    ensures Invariant(After(c, step))
  {
    hide Invariant;
    match step {
      case Start(command) => StartKeeps(c, command);
      case Send(f) => SendKeeps(c, f);
      case Deliver(r) => DeliverKeeps(c, r);
      case Ack(r) => AckKeeps(c, r);
      case Commit(x) => CommitKeeps(c, x);
      case Compact(_, _) => ForgetKeeps(c, step);
      case Restart(_) => ForgetKeeps(c, step);
    }
  }

  /** One step of a run. */
  lemma StepOf(run: seq<Cluster>, steps: seq<Step>, k: nat)
    requires IsRun(run, steps) && k < |steps|
    ensures |run| == |steps| + 1 && Sized(run[k]) && CanStep(run[k], steps[k])
    ensures run[k + 1] == After(run[k], steps[k])
  {
  }

  lemma RunBegins(run: seq<Cluster>, steps: seq<Step>)
    requires IsRun(run, steps) && TermBegins(run[0])
    ensures |run| == |steps| + 1 && Sized(run[0]) && Invariant(run[0])
  {
    hide Invariant, TermBegins;
    BeginningKeeps(run[0]);
  }

  lemma {:induction false} RunKeeps(run: seq<Cluster>, steps: seq<Step>, k: nat)
    requires IsRun(run, steps) && TermBegins(run[0]) && k < |run|
    ensures Invariant(run[k])
    decreases k
  {
    hide IsRun, Invariant, CanStep, After, TermBegins;
    RunBegins(run, steps);
    if k > 0 {
      StepOf(run, steps, k - 1);
      RunKeeps(run, steps, k - 1);
      StepKeeps(run[k - 1], steps[k - 1]);
    }
  }

  // ---------- what holds over every run ----------

  /** Replication safety: in every reachable state a match index is true, and every server agrees with the
      leader through its own commit index, which no snapshot goes beyond. */
  lemma ReplicationSafe(run: seq<Cluster>, steps: seq<Step>, k: nat, f: int)
    requires IsRun(run, steps) && TermBegins(run[0]) && k < |run| && 0 <= f < |run[k].logs|
    ensures Agree(run[k].logs[f], run[k].Leader(), run[k].matchIndex[f] + 1)
    ensures Agree(run[k].logs[f], run[k].Leader(), run[k].commits[f] + 1)
    ensures -1 <= run[k].snaps[f] <= run[k].commits[f]
  {
    RunKeeps(run, steps, k);
    assert ServerOk(run[k], f);
  }

  lemma LeaderFindsEntries(c: Cluster)
    requires Invariant(c)
    ensures forall f :: IsFollower(c, f) ==> CanSend(c, f)
    ensures forall x :: Commit.IsCandidate(c.matchIndex, x) ==> CanCommit(c, x)
  {
    assert ServerOk(c, c.me);
    forall f | IsFollower(c, f)
      ensures CanSend(c, f)
    {
      assert ServerOk(c, f);
    }
    forall x | Commit.IsCandidate(c.matchIndex, x)
      ensures CanCommit(c, x)
    {
      var i := Commit.SomeStored(c.matchIndex, x);
      assert ServerOk(c, i);
    }
  }

  // ---------- a match index never goes down ----------

  /** What is known of a server besides the invariant. `base` is the length of the leader's log when the term
      began: entries before it are of older terms. The leader has gone beyond it only where the server agrees,
      and a match index that stands for new entries lies before the next index. */
  ghost predicate ServerForward(c: Cluster, base: nat, f: int)
    requires Sized(c) && 0 <= f < |c.logs|
  {
    && (forall k :: 0 <= k < base && k < |c.logs[f]| ==> c.logs[f][k].term < c.term)
    && (c.nextIndex[f] > base ==> Agree(c.logs[f], c.Leader(), c.nextIndex[f]))
    && (c.matchIndex[f] < base || c.matchIndex[f] < c.nextIndex[f])
  }

  /** Every request reaches as far as the log with which the term began, and one from behind that finds the
      follower in agreement. */
  ghost predicate RequestForward(log: Log, leader: Log, base: nat, r: Request) {
    r.Append? ==> r.prev + |r.entries| >= base - 1 && (r.prev >= base ==> Agree(log, leader, r.prev + 1))
  }

  /** So only requests from before that are refused, and they are refused for terms older than the leader's. */
  ghost predicate ResponseForward(term: int, base: nat, r: Response) {
    r.Appended? ==>
      if r.answer.success then r.prev + r.count >= base - 1
      else r.answer.xIndex <= r.prev < base && r.answer.xTerm < term
  }

  ghost predicate Forward(c: Cluster, base: nat) {
    && Sized(c) && base <= |c.Leader()|
    && (forall k :: base <= k < |c.Leader()| ==> c.Leader()[k].term == c.term)
    && (forall f :: 0 <= f < |c.logs| ==> ServerForward(c, base, f))
    && (forall r :: r in c.requests ==> IsFollower(c, r.to) && RequestForward(c.logs[r.to], c.Leader(), base, r))
    && (forall r :: r in c.responses ==> ResponseForward(c.term, base, r))
  }

  lemma BeginningForward(c: Cluster)
    requires TermBegins(c)
    ensures Forward(c, |c.Leader()|)
  {
    forall f | 0 <= f < |c.logs|
      ensures ServerForward(c, |c.Leader()|, f)
    {
      assert LogBegins(c, f);
    }
  }

  lemma StartForward(c: Cluster, base: nat, command: Command)
    requires Invariant(c) && Forward(c, base)
    ensures Forward(Started(c, command), base)
  {
    var t := Started(c, command);
    var leader, more := c.Leader(), t.Leader();
    forall f | 0 <= f < |t.logs|
      ensures ServerForward(t, base, f)
    {
      assert ServerForward(c, base, f) && ServerOk(c, f);
      if f != c.me && c.nextIndex[f] > base {
        AgreeGrows(c.logs[f], leader, more, c.nextIndex[f]);
      }
    }
    forall r | r in t.requests
      ensures RequestForward(t.logs[r.to], more, base, r)
    {
      if r.Append? && r.prev >= base {
        AgreeGrows(c.logs[r.to], leader, more, r.prev + 1);
      }
    }
  }

  lemma SendForward(c: Cluster, base: nat, f: int)
    requires Invariant(c) && Forward(c, base) && CanStep(c, Send(f))
    ensures Forward(After(c, Send(f)), base)
  {
    assert ServerForward(c, base, f);
    hide Invariant, Agree, ServerForward;
    var t := After(c, Send(f));
    forall g | 0 <= g < |t.logs|
      ensures ServerForward(t, base, g)
    {
      assert ServerForward(c, base, g);
      ServerForwardStays(c, t, base, g);
    }
  }

  lemma ServerForwardStays(c: Cluster, t: Cluster, base: nat, f: int)
    requires Sized(c) && Sized(t) && 0 <= f < |c.logs| && ServerForward(c, base, f)
    requires t.me == c.me && t.term == c.term && t.logs == c.logs && t.nextIndex == c.nextIndex
    requires t.matchIndex == c.matchIndex
    ensures ServerForward(t, base, f)
  {
  }

  /** On values: what a request leaves of a follower's log. */
  lemma AppendForward(log: Log, snap: int, leader: Log, term: int, base: nat, r: Request)
    requires r.Append? && RequestOk(leader, r) && RequestForward(log, leader, base, r) && 0 <= term
    requires LogMatching(log, leader) && -1 <= snap && Agree(log, leader, snap + 1)
    requires forall k :: 0 <= k < base && k < |log| ==> log[k].term < term
    requires forall k :: 0 <= k < base && k < |leader| ==> leader[k].term < term
    ensures var f := Follow(log, snap, r.prev, r.prevTerm, r.entries);
      && (forall k :: 0 <= k < base && k < |f.log| ==> f.log[k].term < term)
      && ResponseForward(term, base, Appended(r.to, r.prev, |r.entries|, f.answer))
  {
    var f := Follow(log, snap, r.prev, r.prevTerm, r.entries);
    FollowIsSafe(log, snap, leader, r.prev, r.prevTerm, r.entries, r.prev + 1 + |r.entries|);
    if r.prev >= base {
      AgreeAt(log, leader, r.prev + 1, r.prev);
    }
    forall k | 0 <= k < base && k < |f.log|
      ensures f.log[k].term < term
    {
      FollowTakesFrom(log, snap, leader, r.prev, r.prevTerm, r.entries, r.prev + 1 + |r.entries|, k);
    }
  }

  /** What a delivery leaves before `base` is of older terms, and so is what an answer says. */
  lemma DeliverOlderTerms(c: Cluster, base: nat, r: Request)
    requires Invariant(c) && Forward(c, base) && 0 <= c.term && r in c.requests && CanDeliver(c, r)
    ensures forall k :: 0 <= k < base && k < |Delivered(c, r).logs[r.to]| ==>
      Delivered(c, r).logs[r.to][k].term < c.term
    ensures forall q :: q in Delivered(c, r).responses && q !in c.responses ==> ResponseForward(c.term, base, q)
  {
    assert ServerOk(c, r.to) && ServerForward(c, base, r.to) && ServerForward(c, base, c.me);
    hide Invariant;
    if r.Append? {
      SmallerAgree(c.logs[r.to], c.Leader(), c.commits[r.to] + 1, c.snaps[r.to] + 1);
      AppendForward(c.logs[r.to], c.snaps[r.to], c.Leader(), c.term, base, r);
    }
    hide Follow, LogMatching, Agree, ResponseOk, Invariant, RequestForward, Compaction.Survives;
  }

  lemma DeliverForwardServer(c: Cluster, base: nat, r: Request)
    requires Invariant(c) && Forward(c, base) && 0 <= c.term && r in c.requests && CanDeliver(c, r)
    ensures ServerForward(Delivered(c, r), base, r.to)
    ensures KeepsAgreed(c.logs[r.to], Delivered(c, r).logs[r.to], c.Leader())
    ensures forall q :: q in Delivered(c, r).responses && q !in c.responses ==> ResponseForward(c.term, base, q)
  {
    hide Follow, Agree, Invariant, ResponseForward, RequestForward, Compaction.Survives;
    assert ServerForward(c, base, r.to);
    DeliverKeepsServer(c, r);
    DeliverOlderTerms(c, base, r);
  }

  lemma DeliverForward(c: Cluster, base: nat, r: Request)
    requires Invariant(c) && Forward(c, base) && 0 <= c.term && r in c.requests && CanDeliver(c, r)
    ensures Forward(Delivered(c, r), base)
  {
    var t := Delivered(c, r);
    DeliverForwardServer(c, base, r);
    DeliveredElsewhere(c, r);
    hide Agree, Invariant, Delivered, CanDeliver;
    forall f | 0 <= f < |t.logs|
      ensures ServerForward(t, base, f)
    {
      assert ServerForward(c, base, f);
    }
    forall q | q in t.requests
      ensures RequestForward(t.logs[q.to], t.Leader(), base, q)
    {
      assert RequestForward(c.logs[q.to], c.Leader(), base, q);
    }
    hide ServerForward, RequestForward, ResponseForward;
  }

  lemma AckForwardServer(c: Cluster, base: nat, r: Response)
    requires Invariant(c) && Forward(c, base) && r in c.responses
    ensures IsFollower(c, r.from) && ServerForward(Acknowledged(c, r), base, r.from)
    ensures c.matchIndex[r.from] <= Acknowledged(c, r).matchIndex[r.from]
  {
    assert ServerOk(c, r.from) && ResponseOk(c.logs[r.from], c.Leader(), r);
    assert ServerForward(c, base, r.from) && ResponseForward(c.term, base, r);
    hide LogMatching;
    if r.Appended? && !r.answer.success {
      var k := LastOfTerm(c.Leader(), r.answer.xTerm);
      assert k < base;
    }
  }

  /** Handling an answer: the match index does not go down. */
  lemma AckForward(c: Cluster, base: nat, r: Response)
    requires Invariant(c) && Forward(c, base) && r in c.responses
    ensures Forward(Acknowledged(c, r), base)
    ensures c.matchIndex[r.from] <= Acknowledged(c, r).matchIndex[r.from]
  {
    AckForwardServer(c, base, r);
    hide Invariant, Agree, LeaderNext, LeaderMatch, RequestForward, ResponseForward;
    var t := Acknowledged(c, r);
    forall f | 0 <= f < |t.logs|
      ensures ServerForward(t, base, f)
    {
      assert f != r.from ==> ServerForward(c, base, f);
    }
  }

  /** The other steps touch no log, no next index and no match index. */
  lemma QuietForward(c: Cluster, base: nat, step: Step)
    requires Forward(c, base) && CanStep(c, step) && (step.Commit? || step.Compact? || step.Restart?)
    ensures Forward(After(c, step), base) && After(c, step).matchIndex == c.matchIndex
  {
    hide RequestForward, ResponseForward, ServerForward, CanCommit, LeaderCommit;
    forall f | 0 <= f < |c.logs|
      ensures ServerForward(After(c, step), base, f)
    {
      ServerForwardStays(c, After(c, step), base, f);
    }
  }

  lemma StaysForward(c: Cluster, base: nat, step: Step)
    requires Invariant(c) && Forward(c, base) && 0 <= c.term && CanStep(c, step)
    ensures Forward(After(c, step), base)
    ensures forall f :: 0 <= f < |c.logs| ==> c.matchIndex[f] <= After(c, step).matchIndex[f]
  {
    match step {
      case Start(command) =>
        assert ServerOk(c, c.me);
        hide Invariant, Forward;
        StartForward(c, base, command);
      case Send(f) =>
        hide Invariant, Forward;
        SendForward(c, base, f);
      case Deliver(r) =>
        hide Invariant, Forward, Delivered;
        DeliverForward(c, base, r);
        DeliveredElsewhere(c, r);
      case Ack(r) =>
        hide Invariant, Forward, LeaderNext;
        AckForward(c, base, r);
      case _ => QuietForward(c, base, step);
    }
  }

  lemma NextForward(run: seq<Cluster>, steps: seq<Step>, k: nat, base: nat)
    requires IsRun(run, steps) && TermBegins(run[0]) && k < |steps| && 0 <= run[k].term && Forward(run[k], base)
    ensures run[k + 1].term == run[k].term && Forward(run[k + 1], base)
  {
    StepOf(run, steps, k);
    hide IsRun, Invariant, CanStep, TermBegins, Forward;
    RunKeeps(run, steps, k);
    StaysForward(run[k], base, steps[k]);
  }

  lemma FirstForward(run: seq<Cluster>, steps: seq<Step>)
    requires IsRun(run, steps) && TermBegins(run[0])
    ensures |run| == |steps| + 1 && Sized(run[0]) && Forward(run[0], |run[0].Leader()|)
  {
    hide Forward;
    BeginningForward(run[0]);
  }

  lemma {:induction false} RunForward(run: seq<Cluster>, steps: seq<Step>, k: nat)
    requires IsRun(run, steps) && TermBegins(run[0]) && 0 <= run[0].term && k < |run|
    ensures run[k].term == run[0].term && Forward(run[k], |run[0].Leader()|)
    decreases k
  {
    hide IsRun, TermBegins, Forward;
    FirstForward(run, steps);
    if k > 0 {
      RunForward(run, steps, k - 1);
      NextForward(run, steps, k - 1, |run[0].Leader()|);
    }
  }

  /** No step of any run takes a match index down, whatever old answers arrive. */
  lemma MatchNeverGoesDown(run: seq<Cluster>, steps: seq<Step>, k: nat, f: int)
    requires IsRun(run, steps) && TermBegins(run[0]) && 0 <= run[0].term && k < |steps| && 0 <= f < |run[k].logs|
    ensures f < |run[k + 1].matchIndex| && run[k].matchIndex[f] <= run[k + 1].matchIndex[f]
  {
    RunForward(run, steps, k);
    RunKeeps(run, steps, k);
    StaysForward(run[k], |run[0].Leader()|, steps[k]);
  }

  /** The leader never panics: it finds the entry before every next index, and that of every commit candidate. */
  lemma LeaderNeverPanics(run: seq<Cluster>, steps: seq<Step>, k: nat)
    requires IsRun(run, steps) && TermBegins(run[0]) && k < |run|
    ensures forall f :: IsFollower(run[k], f) ==> CanSend(run[k], f)
    ensures forall x :: Commit.IsCandidate(run[k].matchIndex, x) ==> CanCommit(run[k], x)
  {
    RunKeeps(run, steps, k);
    LeaderFindsEntries(run[k]);
  }

  /** A request agrees with whatever the follower has already discarded, and a snapshot never takes a
      follower's commit index back. */
  ghost predicate Handleable(c: Cluster, r: Request)
    requires Sized(c) && IsFollower(c, r.to)
  {
    match r
    case Append(to, prev, prevTerm, entries, _) => AgreesWithSnapshot(c.logs[to], c.snaps[to], prev, prevTerm, entries)
    case Install(to, covered) => |c.logs[to]| < |covered| ==> c.commits[to] < |covered|
  }

  lemma RequestIsHandleable(c: Cluster, r: Request)
    requires Invariant(c) && r in c.requests
    ensures IsFollower(c, r.to) && Handleable(c, r)
  {
    hide LogMatching, AgreesWithSnapshot, FromLeader, Indexed;
    assert ServerOk(c, r.to);
    if r.Append? {
      var log, leader := c.logs[r.to], c.Leader();
      SmallerAgree(log, leader, c.commits[r.to] + 1, c.snaps[r.to] + 1);
      LeaderAgreesWithSnapshot(log, c.snaps[r.to], leader, r.prev, r.prevTerm, r.entries, r.prev + 1 + |r.entries|);
    }
  }

  /** In every reachable state every request can be handled as on the whole log. */
  lemma MessagesAgreeWithSnapshots(run: seq<Cluster>, steps: seq<Step>, k: nat, r: Request)
    requires IsRun(run, steps) && TermBegins(run[0]) && k < |run| && r in run[k].requests
    ensures IsFollower(run[k], r.to) && Handleable(run[k], r)
  {
    RunKeeps(run, steps, k);
    RequestIsHandleable(run[k], r);
  }

  /** A step never removes an entry on which a server agrees with the leader. */
  lemma AgreedStays(c: Cluster, step: Step, f: int, n: int)
    requires Invariant(c) && CanStep(c, step) && 0 <= f < |c.logs| && Agree(c.logs[f], c.Leader(), n)
    ensures Agree(After(c, step).logs[f], After(c, step).Leader(), n)
  {
    match step {
      case Start(command) =>
        hide Invariant;
        var more := Started(c, command).Leader();
        AgreeGrows(c.logs[f], c.Leader(), more, n);
        assert f == c.me ==> more[..n] == c.Leader()[..n];
      case Deliver(r) =>
        DeliverKeepsServer(c, r);
        DeliveredElsewhere(c, r);
        hide Invariant, Delivered, CanDeliver, Agree;
      case _ =>
        hide Invariant, Agree, LeaderNext, LeaderMatch, LeaderCommit;
    }
  }

  /** From one state to a later one the leader's log only grows, and every server keeps what it agrees on. */
  ghost predicate LosesNothing(c: Cluster, t: Cluster) {
    && Sized(c) && Sized(t) && |t.logs| == |c.logs| && c.Leader() <= t.Leader()
    && (forall f, n :: 0 <= f < |c.logs| && Agree(c.logs[f], c.Leader(), n) ==> Agree(t.logs[f], t.Leader(), n))
  }

  lemma StepLosesNothing(c: Cluster, step: Step)
    requires Invariant(c) && CanStep(c, step)
    ensures LosesNothing(c, After(c, step))
  {
    assert Sized(c);
    hide Invariant, CanStep, After, Agree;
    forall f, n | 0 <= f < |c.logs| && Agree(c.logs[f], c.Leader(), n)
      ensures Agree(After(c, step).logs[f], After(c, step).Leader(), n)
    {
      AgreedStays(c, step, f, n);
    }
    LeaderGrows(c, step);
  }

  lemma LeaderGrows(c: Cluster, step: Step)
    requires Sized(c) && CanStep(c, step)
    ensures c.Leader() <= After(c, step).Leader()
  {
    hide Follow, Compaction.Survives, Contradicts, LeaderNext, LeaderMatch, LeaderCommit;
  }

  lemma LosesNothingTransitive(a: Cluster, b: Cluster, c: Cluster)
    requires LosesNothing(a, b) && LosesNothing(b, c)
    ensures LosesNothing(a, c)
  {
    hide Agree;
  }

  lemma NextLosesNothing(run: seq<Cluster>, steps: seq<Step>, k: nat)
    requires IsRun(run, steps) && TermBegins(run[0]) && k < |steps|
    ensures LosesNothing(run[k], run[k + 1])
  {
    StepOf(run, steps, k);
    hide IsRun, Invariant, CanStep, After, TermBegins, LosesNothing;
    RunKeeps(run, steps, k);
    StepLosesNothing(run[k], steps[k]);
  }

  lemma LosesNothingAtOnce(run: seq<Cluster>, steps: seq<Step>, k: nat)
    requires IsRun(run, steps) && k < |run|
    ensures |run| == |steps| + 1 && LosesNothing(run[k], run[k])
  {
    hide Agree;
  }

  lemma {:induction false} RunLosesNothing(run: seq<Cluster>, steps: seq<Step>, i: nat, j: nat)
    requires IsRun(run, steps) && TermBegins(run[0]) && i <= j < |run|
    ensures LosesNothing(run[i], run[j])
    decreases j
  {
    hide IsRun, TermBegins, LosesNothing;
    LosesNothingAtOnce(run, steps, i);
    if i < j {
      NextLosesNothing(run, steps, j - 1);
      RunLosesNothing(run, steps, i, j - 1);
      LosesNothingTransitive(run[i], run[j - 1], run[j]);
    }
  }

  /** No agreed entry is ever lost, whatever stale, repeated or reordered messages arrive. */
  lemma NoAgreedEntryLost(run: seq<Cluster>, steps: seq<Step>, i: nat, j: nat, f: int, n: int)
    requires IsRun(run, steps) && TermBegins(run[0]) && i <= j < |run|
    requires 0 <= f < |run[i].logs| && Agree(run[i].logs[f], run[i].Leader(), n)
    ensures |run[j].logs| == |run[i].logs| && Agree(run[j].logs[f], run[j].Leader(), n)
    ensures run[i].Leader() <= run[j].Leader()
  {
    hide IsRun, TermBegins, Agree;
    RunLosesNothing(run, steps, i, j);
  }

  /** Whatever two servers ever commit at one index, at whatever times, is the same entry. */
  lemma CommittedEntriesAgree(run: seq<Cluster>, steps: seq<Step>, i: nat, j: nat, f: int, g: int, x: int)
    requires IsRun(run, steps) && TermBegins(run[0]) && i <= j < |run|
    requires 0 <= f < |run[i].logs| && 0 <= g < |run[j].logs|
    requires 0 <= x <= run[i].commits[f] && x <= run[j].commits[g]
    ensures x < |run[i].logs[f]| && x < |run[j].logs[g]| && run[i].logs[f][x] == run[j].logs[g][x]
  {
    ReplicationSafe(run, steps, i, f);
    ReplicationSafe(run, steps, j, g);
    NoAgreedEntryLost(run, steps, i, j, f, 0);
    AgreeAt(run[i].logs[f], run[i].Leader(), run[i].commits[f] + 1, x);
    AgreeAt(run[j].logs[g], run[j].Leader(), run[j].commits[g] + 1, x);
  }

  // ---------- what moves a commit index ----------

  /** A look at the candidate moves the leader's commit index exactly when the candidate lies beyond it and is of the
      leader's own term; then the commit index becomes the candidate. */
  lemma CommitMovesExactly(run: seq<Cluster>, steps: seq<Step>, k: nat, x: int)
    requires IsRun(run, steps) && TermBegins(run[0]) && k < |steps| && steps[k] == Step.Commit(x)
    ensures var c, before, after := run[k], run[k].commits[run[k].me], run[k + 1].commits[run[k].me];
      && (before < x ==> 0 <= x < |c.Leader()|)
      && (after != before <==> before < x && c.Leader()[x].term == c.term)
      && (after != before ==> after == x)
  {
    RunKeeps(run, steps, k);
    StepOf(run, steps, k);
    assert ServerOk(run[k], run[k].me);
    hide IsRun, TermBegins, Commit.IsCandidate;
  }

  /** The leader's commit index is where it was when the term began, or at an entry of the leader's own term. */
  ghost predicate CommitsOwnTerm(c: Cluster, begin: int) {
    && Sized(c)
    && (c.leading && c.commits[c.me] != begin ==>
         0 <= c.commits[c.me] < |c.Leader()| && c.Leader()[c.commits[c.me]].term == c.term)
  }

  lemma StepCommitsOwnTerm(c: Cluster, step: Step, begin: int)
    requires Invariant(c) && CommitsOwnTerm(c, begin) && CanStep(c, step)
    ensures CommitsOwnTerm(After(c, step), begin)
  {
    match step {
      case Deliver(r) =>
        assert IsFollower(c, r.to);
        hide Invariant;
        DeliveredElsewhere(c, r);
        hide Delivered, CanDeliver;
      case _ =>
        hide Invariant, LeaderNext, LeaderMatch, Commit.IsCandidate;
    }
  }

  /** An entry of an older term is never committed by counting, but only with a later one of the leader's own term
      (section 5.4.2 of the extended Raft paper). */
  lemma {:induction false} OnlyOwnTermCommitted(run: seq<Cluster>, steps: seq<Step>, k: nat)
    requires IsRun(run, steps) && TermBegins(run[0]) && k < |run|
    ensures Sized(run[0]) && CommitsOwnTerm(run[k], run[0].commits[run[0].me])
    decreases k
  {
    hide IsRun, Invariant, CanStep, After, TermBegins;
    RunBegins(run, steps);
    if k > 0 {
      StepOf(run, steps, k - 1);
      OnlyOwnTermCommitted(run, steps, k - 1);
      RunKeeps(run, steps, k - 1);
      StepCommitsOwnTerm(run[k - 1], steps[k - 1], run[0].commits[run[0].me]);
    }
  }

  /** A follower that accepts entries commits what the leader has committed, as far as its log reaches, and never less
      than before; one that refuses them commits nothing. */
  lemma FollowerCommitMoves(c: Cluster, r: Request)
    requires Invariant(c) && r in c.requests && CanDeliver(c, r) && r.Append?
    ensures var t := Delivered(c, r);
      var before, after, last := c.commits[r.to], t.commits[r.to], |t.logs[r.to]| - 1;
      && -1 <= r.prev && -1 <= c.snaps[r.to]
      && var accepted := Follow(c.logs[r.to], c.snaps[r.to], r.prev, r.prevTerm, r.entries).answer.success;
      && (accepted && before < r.leaderCommit ==>
           before <= after && (after == r.leaderCommit <= last || after == last < r.leaderCommit))
      && (!accepted || before >= r.leaderCommit ==> after == before)
  {
    DeliverKeepsServer(c, r);
    assert ServerOk(c, r.to);
    hide Follow, LogMatching, Invariant;
  }

  /** The leader heeds every answer: what it asks for next, and what it believes to be matched, is what the answer
      says, on the logs. */
  lemma AcknowledgedHeeds(c: Cluster, r: Response)
    requires Invariant(c) && r in c.responses && r.Appended?
    ensures IsFollower(c, r.from)
    ensures var t := Acknowledged(c, r);
      Heeded(c.Leader(), c.snaps[c.me], c.nextIndex[r.from], c.matchIndex[r.from], r.prev, r.count, r.answer,
             t.nextIndex[r.from], t.matchIndex[r.from])
  {
    assert ServerOk(c, c.me);
    AnswerIsHeeded(c.Leader(), c.snaps[c.me], c.nextIndex[r.from], c.matchIndex[r.from], r.prev, r.count, r.answer);
    hide Heeded, LeaderNext, LeaderMatch, InStep, ResponseOk;
  }

  /** The servers that hold the leader's log through index `x`. */
  ghost function Holders(c: Cluster, x: int): set<int>
    requires Sized(c)
  {
    set f: int | 0 <= f < |c.logs| && Agree(c.logs[f], c.Leader(), x + 1)
  }

  /** What the leader commits by counting stands, from then on, in the logs of a majority. */
  lemma CommittedOnMajority(run: seq<Cluster>, steps: seq<Step>, i: nat, j: nat, x: int)
    requires IsRun(run, steps) && TermBegins(run[0]) && i < j < |run|
    requires steps[i] == Step.Commit(x) && run[i + 1].commits[run[i].me] != run[i].commits[run[i].me]
    ensures |Holders(run[j], x)| >= Commit.Majority(|run[j].logs|)
  {
    RunKeeps(run, steps, i);
    NoAgreedEntryLost(run, steps, i, j, run[i].me, 0);
    var stored := Commit.StoredOn(run[i].matchIndex, x);
    forall f | f in stored
      ensures f in Holders(run[j], x)
    {
      assert ServerOk(run[i], f);
      SmallerAgree(run[i].logs[f], run[i].Leader(), run[i].matchIndex[f] + 1, x + 1);
      NoAgreedEntryLost(run, steps, i, j, f, x + 1);
    }
    SubsetSize(stored, Holders(run[j], x));
  }
}
