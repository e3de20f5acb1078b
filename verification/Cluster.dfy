/** Log replication within one term, as a state machine: one leader, its followers, and a network that may
    lose, delay, duplicate and reorder every message. Servers may compact their logs, crash and restart. */
module Cluster {
  import opened Compaction
  import opened RaftLog
  import Commit

  /** A message of the leader: entries to append after index `prev`, or a snapshot that stands for the
      entries `covered`. */
  datatype Request =
    | Append(to: int, prev: int, prevTerm: int, entries: Log, leaderCommit: int)
    | Install(to: int, covered: Log)

  /** An answer, together with what the request was. */
  datatype Response =
    | Appended(from: int, prev: int, count: nat, answer: Answer)
    | Took(from: int, last: int)

  /** The servers and the network; messages are never taken out of it, so they arrive any number of times,
      in any order, or not at all. `logs` are the whole logs: the entries through index `snaps[f]` are only
      in the snapshot of server `f`. The leader is server `me`, until it restarts. */
  datatype Cluster = Cluster(
    term: int, me: int, leading: bool, logs: seq<Log>, snaps: seq<int>, commits: seq<int>,
    nextIndex: seq<int>, matchIndex: seq<int>, requests: set<Request>, responses: set<Response>)
  {
    function Leader(): Log
      requires 0 <= me < |logs|
    {
      logs[me]
    }
  }

  ghost predicate Sized(c: Cluster) {
    0 <= c.me < |c.logs| == |c.snaps| == |c.commits| == |c.nextIndex| == |c.matchIndex|
  }

  ghost predicate IsFollower(c: Cluster, f: int) {
    0 <= f < |c.logs| && f != c.me
  }

  // ---------- the steps ----------

  datatype Step =
    | Start(command: Command)
    | Send(to: int)
    | Deliver(request: Request)
    | Ack(response: Response)
    | Commit(candidate: int)
    | Compact(server: int, index: int)
    | Restart(server: int)

  /** The leader appends a command. */
  ghost function Started(c: Cluster, command: Command): Cluster
    requires Sized(c)
  {
    var index := |c.Leader()|;
    c.(logs := c.logs[c.me := c.Leader() + [LogEntry(c.term, index, command)]],
       matchIndex := c.matchIndex[c.me := index], nextIndex := c.nextIndex[c.me := index + 1])
  }

  /** The leader sends its whole log from the follower's next index on, or its snapshot when it has already
      discarded the entry before that index. */
  ghost function RequestTo(c: Cluster, f: int): Request
    requires Sized(c) && CanSend(c, f)
  {
    var prev := c.nextIndex[f] - 1;
    if prev < c.snaps[c.me] then Install(f, c.Leader()[..c.snaps[c.me] + 1])
    else Append(f, prev, TermAt(c.Leader(), prev), c.Leader()[prev + 1..], c.commits[c.me])
  }

  /** The leader finds what to send. */
  ghost predicate CanSend(c: Cluster, f: int)
    requires Sized(c)
  {
    && IsFollower(c, f) && 0 <= c.nextIndex[f] <= |c.Leader()|
    && -1 <= c.snaps[c.me] < |c.Leader()|
  }

  /** What a follower survives: with a request from index 0 that is not harmless, a follower that holds a
      snapshot confuses its own positions with those of the message. */
  ghost predicate CanDeliver(c: Cluster, r: Request)
    requires Sized(c)
  {
    && IsFollower(c, r.to)
    && (r.Append? ==> -1 <= r.prev && -1 <= c.snaps[r.to] < |c.logs[r.to]|)
    && (r.Append? ==> Survives(c.logs[r.to], c.snaps[r.to], r.prev, r.entries))
    && (r.Install? ==> |r.covered| > 0)
  }

  /** The log holds another term at the last entry that the snapshot stands for. */
  ghost predicate Contradicts(log: Log, covered: Log)
    requires |covered| > 0
  {
    |covered| <= |log| && log[|covered| - 1].term != covered[|covered| - 1].term
  }

  /** A follower handles a request. It panics on a snapshot that contradicts its log, and comes up again. */
  ghost function Delivered(c: Cluster, r: Request): Cluster
    requires Sized(c) && CanDeliver(c, r)
  {
    match r
    case Append(to, prev, prevTerm, entries, leaderCommit) =>
      var f := Follow(c.logs[to], c.snaps[to], prev, prevTerm, entries);
      c.(logs := c.logs[to := f.log],
         commits := c.commits[to := if f.answer.success then FollowerCommit(c.commits[to], leaderCommit, |f.log| - 1)
           else c.commits[to]],
         responses := c.responses + {Appended(to, prev, |entries|, f.answer)})
    case Install(to, covered) =>
      var last := |covered| - 1;
      var t := c.(responses := c.responses + {Took(to, last)});
      if c.snaps[to] >= last then t
      else if Contradicts(c.logs[to], covered) then Restarted(c, to)
      else t.(logs := c.logs[to := Installed(c.logs[to], covered)], snaps := c.snaps[to := last],
              commits := c.commits[to := Max(c.commits[to], last)])
  }

  /** A server crashes and restarts: its log and snapshot are kept, its commit index is that of the snapshot. */
  ghost function Restarted(c: Cluster, f: int): Cluster
    requires Sized(c) && 0 <= f < |c.logs|
  {
    c.(commits := c.commits[f := c.snaps[f]], leading := c.leading && f != c.me)
  }

  /** The leader handles an answer. */
  ghost function Acknowledged(c: Cluster, r: Response): Cluster
    requires Sized(c) && IsFollower(c, r.from)
  {
    match r
    case Appended(from, prev, count, answer) =>
      var next := c.nextIndex[from];
      c.(nextIndex := c.nextIndex[from := LeaderNext(c.Leader(), c.snaps[c.me], next, prev, count, answer)],
         matchIndex := c.matchIndex[from := LeaderMatch(c.matchIndex[from], next, prev, count, answer)])
    case Took(from, last) =>
      if c.matchIndex[from] >= last then c
      else c.(nextIndex := c.nextIndex[from := last + 1], matchIndex := c.matchIndex[from := last])
  }

  /** The leader finds the entry of the commit candidate, when it has to look at it. */
  ghost predicate CanCommit(c: Cluster, x: int)
    requires Sized(c)
  {
    x == -1 || x <= c.commits[c.me] || c.snaps[c.me] < x < |c.Leader()|
  }

  /** The leader looks at the commit candidate. */
  ghost function Committed(c: Cluster, x: int): Cluster
    requires Sized(c) && CanCommit(c, x)
  {
    c.(commits := c.commits[c.me := LeaderCommit(c.Leader(), c.term, c.commits[c.me], x)])
  }

  ghost predicate CanStep(c: Cluster, step: Step)
    requires Sized(c)
  {
    match step
    case Start(_) => c.leading
    case Send(f) => c.leading && CanSend(c, f)
    case Deliver(r) => r in c.requests && CanDeliver(c, r)
    case Ack(r) => c.leading && r in c.responses && IsFollower(c, r.from)
    case Commit(x) => c.leading && Commit.IsCandidate(c.matchIndex, x) && CanCommit(c, x)
    case Compact(f, index) => 0 <= f < |c.logs| && c.snaps[f] < index <= c.commits[f]
    case Restart(f) => 0 <= f < |c.logs|
  }

  ghost function After(c: Cluster, step: Step): (t: Cluster)
    requires Sized(c) && CanStep(c, step)
    ensures Sized(t) && t.me == c.me && t.term == c.term && |t.logs| == |c.logs|
  {
    match step
    case Start(command) => Started(c, command)
    case Send(f) => c.(requests := c.requests + {RequestTo(c, f)})
    case Deliver(r) => Delivered(c, r)
    case Ack(r) => Acknowledged(c, r)
    case Commit(x) => Committed(c, x)
    case Compact(f, index) => c.(snaps := c.snaps[f := index])
    case Restart(f) => Restarted(c, f)
  }

  /** A run: states joined by steps. */
  ghost predicate IsRun(run: seq<Cluster>, steps: seq<Step>) {
    && |run| == |steps| + 1
    && (forall k :: 0 <= k < |run| ==> Sized(run[k]))
    && (forall k :: 0 <= k < |steps| ==> CanStep(run[k], steps[k]) && run[k + 1] == After(run[k], steps[k]))
  }

  // ---------- where a term begins ----------

  /** What a newly elected leader finds: Log Matching with every follower, no entry of its own term
      anywhere yet, and every committed entry in its log. */
  ghost predicate TermBegins(c: Cluster) {
    && Sized(c)
    && (forall f :: 0 <= f < |c.logs| ==> LogBegins(c, f))
    && (forall f :: 0 <= f < |c.logs| ==> c.nextIndex[f] == |c.Leader()|)
    && (forall f :: 0 <= f < |c.logs| ==> c.matchIndex[f] == if f == c.me then |c.Leader()| - 1 else -1)
    && c.leading && c.requests == {} && c.responses == {}
  }

  ghost predicate LogBegins(c: Cluster, f: int)
    requires Sized(c) && 0 <= f < |c.logs|
  {
    && Indexed(c.logs[f], 0)
    && LogMatching(c.logs[f], c.Leader())
    && (forall k :: 0 <= k < |c.logs[f]| ==> c.logs[f][k].term < c.term)
    && Agree(c.logs[f], c.Leader(), c.commits[f] + 1)
    && -1 <= c.snaps[f] <= c.commits[f]
  }

  // ---------- the invariant ----------

  /** A log matches the leader's, holds no entry of the leader's term beyond it, and agrees with it through
      what is committed there and through what the leader believes is there. */
  ghost predicate InStep(log: Log, leader: Log, term: int, commit: int, matched: int) {
    && LogMatching(log, leader)
    && (forall k :: |leader| <= k < |log| ==> log[k].term != term)
    && Agree(log, leader, commit + 1)
    && Agree(log, leader, matched + 1)
  }

  ghost predicate ServerOk(c: Cluster, f: int)
    requires Sized(c) && 0 <= f < |c.logs|
  {
    && InStep(c.logs[f], c.Leader(), c.term, c.commits[f], c.matchIndex[f])
    && 0 <= c.nextIndex[f] <= |c.Leader()|
    && -1 <= c.snaps[f] <= c.commits[f]
  }

  /** A request in the network is a piece of the leader's log, and no commit index goes beyond it. */
  ghost predicate RequestOk(leader: Log, r: Request) {
    match r
    case Append(to, prev, prevTerm, entries, leaderCommit) =>
      && FromLeader(leader, prev, prevTerm, entries, prev + 1 + |entries|)
      && -1 <= leaderCommit <= prev + |entries|
    case Install(to, covered) =>
      0 < |covered| <= |leader| && covered == leader[..|covered|]
  }

  /** A success in the network is still true: the follower agrees as far as it says. */
  ghost predicate ResponseOk(log: Log, leader: Log, r: Response) {
    match r
    case Appended(_, prev, count, answer) =>
      && -1 <= prev
      && (answer.success ==> Agree(log, leader, prev + 1 + count))
      && (!answer.success ==> 0 <= answer.xIndex <= |leader|)
    case Took(_, last) =>
      0 <= last && Agree(log, leader, last + 1)
  }

  ghost predicate Invariant(c: Cluster) {
    && Sized(c)
    && Indexed(c.Leader(), 0)
    && (forall f :: 0 <= f < |c.logs| ==> ServerOk(c, f))
    && (forall r :: r in c.requests ==> IsFollower(c, r.to) && RequestOk(c.Leader(), r))
    && (forall r :: r in c.responses ==> IsFollower(c, r.from) && ResponseOk(c.logs[r.from], c.Leader(), r))
  }
}
