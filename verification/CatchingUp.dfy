/** Catching up one follower while the leader's log stays as it is, with snapshots on both sides. */
module CatchingUp {
  import opened Cluster
  import opened RaftLog
  import opened Replication
  import Compaction

  // ---------- a round ----------

  /** The leader sends its snapshot although it believes that the follower holds all that it stands for: the
      answer to that changes nothing. */
  ghost predicate Stalled(c: Cluster, f: int)
    requires Sized(c) && IsFollower(c, f)
  {
    c.nextIndex[f] <= c.snaps[c.me] <= c.matchIndex[f]
  }

  /** The leader sends a snapshot that contradicts the follower's log: the follower panics. */
  ghost predicate Panics(c: Cluster, f: int)
    requires Sized(c) && CanSend(c, f)
  {
    var r := RequestTo(c, f);
    r.Install? && c.snaps[f] < c.snaps[c.me] && Contradicts(c.logs[f], r.covered)
  }

  ghost predicate CanRound(c: Cluster, f: int) {
    Sized(c) && CanSend(c, f) && CanDeliver(c, RequestTo(c, f))
  }

  ghost function AnswerTo(c: Cluster, r: Request): Response
    requires Sized(c) && CanDeliver(c, r)
  {
    match r
    case Append(to, prev, prevTerm, entries, _) =>
      Appended(to, prev, |entries|, Follow(c.logs[to], c.snaps[to], prev, prevTerm, entries).answer)
    case Install(to, covered) => Took(to, |covered| - 1)
  }

  /** The leader sends, the follower handles that, and the leader handles the answer, if there is one. */
  ghost function Round(c: Cluster, f: int): Cluster
    requires CanRound(c, f)
  {
    var r := RequestTo(c, f);
    var d := Delivered(c.(requests := c.requests + {r}), r);
    if Panics(c, f) then d else Acknowledged(d, AnswerTo(c, r))
  }

  /** A round is three steps of the cluster, or two when the follower panics. */
  lemma RoundIsSteps(c: Cluster, f: int)
    requires Invariant(c) && c.leading && CanRound(c, f)
    ensures CanStep(c, Send(f))
    ensures var r, b := RequestTo(c, f), After(c, Send(f));
      && CanStep(b, Deliver(r))
      && (Panics(c, f) ==> Round(c, f) == After(b, Deliver(r)))
      && (!Panics(c, f) ==>
           && CanStep(After(b, Deliver(r)), Ack(AnswerTo(c, r)))
           && Round(c, f) == After(After(b, Deliver(r)), Ack(AnswerTo(c, r))))
    ensures Invariant(Round(c, f))
  {
    var r, b := RequestTo(c, f), After(c, Send(f));
    assert b == c.(requests := c.requests + {r});
    hide Invariant, Follow, Compaction.Survives, Contradicts, FollowerCommit, Installed, LeaderNext;
    SendKeeps(c, f);
    DeliverKeeps(b, r);
    if !Panics(c, f) {
      AckKeeps(After(b, Deliver(r)), AnswerTo(c, r));
    }
  }

  /** What a round leaves of the leader and of the follower. */
  lemma RoundIs(c: Cluster, f: int)
    requires CanRound(c, f)
    ensures var t := Round(c, f);
      && Sized(t) && IsFollower(t, f) && t.me == c.me && t.Leader() == c.Leader() && t.snaps[t.me] == c.snaps[c.me]
      && t.leading == c.leading
    ensures RequestTo(c, f).Append? ==> Asked(c, f, Round(c, f))
    ensures RequestTo(c, f).Install? && Panics(c, f) ==> Unmoved(c, f, Round(c, f))
    ensures RequestTo(c, f).Install? && !Panics(c, f) ==> Covered(c, f, Round(c, f))
  {
    hide Follow, Compaction.Survives, Contradicts, FollowerCommit, LeaderNext, LeaderMatch;
  }

  /** Entries were asked for and handled. */
  ghost predicate Asked(c: Cluster, f: int, t: Cluster)
    requires Sized(c) && Sized(t) && IsFollower(c, f) && IsFollower(t, f) && CanSend(c, f) && RequestTo(c, f).Append?
    requires CanDeliver(c, RequestTo(c, f))
  {
    var r := RequestTo(c, f);
    var a := Follow(c.logs[f], c.snaps[f], r.prev, r.prevTerm, r.entries);
    && t.logs[f] == a.log && t.snaps[f] == c.snaps[f]
    && t.nextIndex[f] == LeaderNext(c.Leader(), c.snaps[c.me], c.nextIndex[f], r.prev, |r.entries|, a.answer)
    && t.matchIndex[f] == LeaderMatch(c.matchIndex[f], c.nextIndex[f], r.prev, |r.entries|, a.answer)
  }

  /** Nothing that decides what is sent next has changed. */
  ghost predicate Unmoved(c: Cluster, f: int, t: Cluster)
    requires Sized(c) && Sized(t) && IsFollower(c, f) && IsFollower(t, f)
  {
    && t.logs[f] == c.logs[f] && t.snaps[f] == c.snaps[f]
    && t.nextIndex[f] == c.nextIndex[f] && t.matchIndex[f] == c.matchIndex[f]
  }

  /** A snapshot was sent and handled. */
  ghost predicate Covered(c: Cluster, f: int, t: Cluster)
    requires Sized(c) && Sized(t) && IsFollower(c, f) && IsFollower(t, f) && CanSend(c, f)
  {
    var last := c.snaps[c.me];
    && t.logs[f] == (if c.snaps[f] >= last then c.logs[f] else Installed(c.logs[f], c.Leader()[..last + 1]))
    && t.snaps[f] == Max(c.snaps[f], last)
    && t.nextIndex[f] == (if c.matchIndex[f] >= last then c.nextIndex[f] else last + 1)
    && t.matchIndex[f] == Max(c.matchIndex[f], last)
  }

  // ---------- progress ----------

  /** The next request will be accepted: the follower agrees with the leader up to where it begins. */
  ghost predicate Ready(c: Cluster, f: int)
    requires Sized(c) && IsFollower(c, f)
  {
    c.snaps[c.me] < c.nextIndex[f] && Agree(c.logs[f], c.Leader(), c.nextIndex[f])
  }

  /** The follower holds all that the leader has, and the leader knows. */
  ghost predicate Caught(c: Cluster, f: int)
    requires Sized(c) && IsFollower(c, f)
  {
    && Agree(c.logs[f], c.Leader(), |c.Leader()|)
    && c.nextIndex[f] == |c.Leader()| && c.matchIndex[f] == |c.Leader()| - 1
  }

  /** Closer to being caught up: ready at last, or else a shorter log to search, or else an earlier next index. */
  ghost predicate Closer(c: Cluster, f: int, t: Cluster)
    requires Sized(c) && Sized(t) && IsFollower(c, f) && IsFollower(t, f)
  {
    || (!Ready(c, f) && Ready(t, f))
    || (Ready(c, f) == Ready(t, f) && |t.logs[f]| < |c.logs[f]|)
    || (Ready(c, f) == Ready(t, f) && t.logs[f] == c.logs[f] && t.nextIndex[f] < c.nextIndex[f])
  }

  /** Of what the leader and the follower know, when a round over entries has failed. */
  ghost predicate BackedUp(c: Cluster, f: int, t: Cluster)
    requires Sized(c) && Sized(t) && IsFollower(c, f) && IsFollower(t, f)
  {
    && !Ready(c, f) && t.matchIndex[f] == c.matchIndex[f] && t.snaps[f] == c.snaps[f] && t.logs[f] <= c.logs[f]
    && (c.snaps[f] >= 0 ==> t.nextIndex[f] > 0)
    && (|t.logs[f]| < |c.logs[f]| || (t.logs[f] == c.logs[f] && t.nextIndex[f] < c.nextIndex[f]))
  }

  /** What the invariant says of one follower. */
  lemma FollowerFacts(c: Cluster, f: int)
    requires Invariant(c) && IsFollower(c, f)
    ensures Sized(c) && LogMatching(c.logs[f], c.Leader()) && Indexed(c.Leader(), 0)
    ensures -1 <= c.snaps[f] && Agree(c.logs[f], c.Leader(), c.snaps[f] + 1)
    ensures Agree(c.logs[f], c.Leader(), c.matchIndex[f] + 1)
    ensures 0 <= c.nextIndex[f] <= |c.Leader()| && -1 <= c.snaps[c.me] < |c.Leader()|
  {
    assert ServerOk(c, f) && ServerOk(c, c.me);
    SmallerAgree(c.logs[f], c.Leader(), c.commits[f] + 1, c.snaps[f] + 1);
  }

  /** A round over entries catches the follower up or backs up. */
  lemma EntriesProgress(c: Cluster, f: int)
    requires Invariant(c) && CanRound(c, f) && RequestTo(c, f).Append?
    ensures Caught(Round(c, f), f) || BackedUp(c, f, Round(c, f))
  {
    hide Invariant, Round, CanDeliver, Follow, LogMatching, Agree, Indexed, LastOfTerm;
    FollowerFacts(c, f);
    RoundIs(c, f);
    FollowHoldsAll(c.logs[f], c.snaps[f], c.Leader(), c.nextIndex[f]);
    FollowBacksUp(c.logs[f], c.snaps[f], c.Leader(), c.nextIndex[f], c.Leader()[c.nextIndex[f]..], c.snaps[c.me]);
    assert c.Leader()[c.nextIndex[f]..] == c.Leader()[c.nextIndex[f] - 1 + 1..];
  }

  /** On values: a follower that accepts everything from the next index on holds what the leader holds. */
  lemma FollowHoldsAll(log: Log, snap: int, leader: Log, next: int)
    requires LogMatching(log, leader) && 0 <= next <= |leader| && -1 <= snap && Agree(log, leader, snap + 1)
    ensures var f := Follow(log, snap, next - 1, TermAt(leader, next - 1), leader[next..]);
      f.answer.success ==> Agree(f.log, leader, |leader|)
  {
    assert leader[next..] == leader[next - 1 + 1..|leader|];
    FollowIsSafe(log, snap, leader, next - 1, TermAt(leader, next - 1), leader[next..], |leader|);
  }

  /** On values: what a refusal leaves, and the next index after it. */
  lemma FollowBacksUp(log: Log, snap: int, leader: Log, next: int, entries: Log, leaderSnap: int)
    requires 0 <= next <= |leader| && -1 <= snap && Agree(log, leader, snap + 1) && Indexed(leader, 0)
    ensures var f := Follow(log, snap, next - 1, TermAt(leader, next - 1), entries);
      var after := LeaderNext(leader, leaderSnap, next, next - 1, |entries|, f.answer);
      !f.answer.success ==>
        && !Agree(log, leader, next) && f.log <= log
        && (|f.log| < |log| || (f.log == log && after < next))
        && (snap >= 0 ==> after > 0)
  {
  }

  /** The leader will send the same again. */
  ghost predicate SameAgain(c: Cluster, f: int, t: Cluster)
    requires Sized(c) && CanSend(c, f) && Sized(t)
  {
    && CanSend(t, f) && RequestTo(t, f) == RequestTo(c, f) && t.logs[f] == c.logs[f]
    && t.nextIndex[f] == c.nextIndex[f] && t.matchIndex[f] == c.matchIndex[f]
    && (Stalled(c, f) <==> Stalled(t, f)) && (Panics(c, f) <==> Panics(t, f))
  }

  /** On values: a snapshot of the leader and a log that it does not contradict, and one through which the
      follower agrees already. */
  lemma CoveredAgrees(log: Log, snap: int, leader: Log, last: int)
    requires LogMatching(log, leader) && 0 <= last < |leader| && -1 <= snap && Agree(log, leader, snap + 1)
    requires snap >= last || !Contradicts(log, leader[..last + 1])
    ensures Agree(if snap >= last then log else Installed(log, leader[..last + 1]), leader, last + 1)
    ensures Agree(log, leader, last + 1) ==> Installed(log, leader[..last + 1]) == log
  {
    if snap >= last {
      SmallerAgree(log, leader, snap + 1, last + 1);
    } else {
      InstallIsSafe(log, leader, last);
    }
  }

  lemma AgreementIsNoContradiction(log: Log, leader: Log, n: int, last: int)
    requires 0 <= last < n && Agree(log, leader, n)
    ensures !Contradicts(log, leader[..last + 1])
  {
    AgreeAt(log, leader, n, last);
  }

  /** A round over a snapshot makes the follower ready, or the leader will send the same again. */
  lemma SnapshotProgress(c: Cluster, f: int)
    requires Invariant(c) && CanRound(c, f) && RequestTo(c, f).Install?
    ensures !Ready(c, f) && !Caught(c, f)
    ensures if Stalled(c, f) || Panics(c, f) then SameAgain(c, f, Round(c, f))
      else Ready(Round(c, f), f) && Round(c, f).nextIndex[f] == c.snaps[c.me] + 1
  {
    hide Invariant, Round, CanDeliver, LogMatching, Agree, Installed, Contradicts, Indexed;
    FollowerFacts(c, f);
    RoundIs(c, f);
    var log, leader, last := c.logs[f], c.Leader(), c.snaps[c.me];
    if Stalled(c, f) {
      SmallerAgree(log, leader, c.matchIndex[f] + 1, last + 1);
      AgreementIsNoContradiction(log, leader, c.matchIndex[f] + 1, last);
    }
    if !Panics(c, f) {
      CoveredAgrees(log, c.snaps[f], leader, last);
    }
  }

  /** The three things that can stop catching up: the follower does not survive the next request, panics on
      the snapshot, or has its answer ignored. */
  ghost predicate Blocked(c: Cluster, f: int)
    requires Sized(c) && CanSend(c, f)
  {
    !CanDeliver(c, RequestTo(c, f)) || Panics(c, f) || Stalled(c, f)
  }

  /** A round makes progress exactly when the follower neither panics nor has its answer ignored; when it makes
      none, the leader will send the same again. */
  lemma RoundProgress(c: Cluster, f: int)
    requires Invariant(c) && CanRound(c, f)
    ensures Closer(c, f, Round(c, f)) || Caught(Round(c, f), f) <==> !Panics(c, f) && !Stalled(c, f)
    ensures Panics(c, f) || Stalled(c, f) ==> SameAgain(c, f, Round(c, f))
    ensures Ready(c, f) ==> Caught(Round(c, f), f)
  {
    hide Invariant, Round, CanDeliver, Agree, Contradicts;
    RoundIs(c, f);
    if RequestTo(c, f).Append? {
      EntriesProgress(c, f);
    } else {
      SnapshotProgress(c, f);
    }
  }

  lemma RoundGoesOn(c: Cluster, f: int)
    requires Invariant(c) && c.leading && CanSend(c, f) && !Blocked(c, f)
    ensures CanRound(c, f)
    ensures var t := Round(c, f);
      && Invariant(t) && t.leading && t.Leader() == c.Leader() && CanSend(t, f)
      && (Closer(c, f, t) || Caught(t, f))
  {
    FollowerFacts(c, f);
    hide Round, Invariant, CanDeliver, Closer, Caught, Panics, Stalled;
    RoundIsSteps(c, f);
    RoundIs(c, f);
    RoundProgress(c, f);
    LeaderFindsEntries(Round(c, f));
  }

  /** Rounds until the follower holds everything, or is blocked. */
  ghost function CatchUp(c: Cluster, f: int): (d: Cluster)
    requires Invariant(c) && c.leading && CanSend(c, f)
    ensures Sized(d) && IsFollower(d, f)
    decreases if Ready(c, f) then 0 else 1, |c.logs[f]|, c.nextIndex[f]
  {
    if Blocked(c, f) then c else
      RoundGoesOn(c, f);
      var t := Round(c, f);
      if Caught(t, f) then t else CatchUp(t, f)
  }

  /** Catching up ends, and the follower holds everything or is blocked. */

  /** Catching up ends, and the follower then holds everything or is blocked. */
  lemma {:induction false} CatchUpEnds(c: Cluster, f: int)
    requires Invariant(c) && c.leading && CanSend(c, f)
    ensures var d := CatchUp(c, f);
      && Invariant(d) && d.Leader() == c.Leader() && CanSend(d, f) && (Caught(d, f) || Blocked(d, f))
    decreases if Ready(c, f) then 0 else 1, |c.logs[f]|, c.nextIndex[f]
  {
    FollowerFacts(c, f);
    hide Round, Invariant, CanDeliver, Agree, Panics, Stalled;
    if !Blocked(c, f) {
      RoundGoesOn(c, f);
      if !Caught(Round(c, f), f) {
        CatchUpEnds(Round(c, f), f);
      }
    }
  }

  /** Nothing will block the follower: either it is ready, or the leader does not count it beyond its own snapshot
      and that does not contradict the follower's log; and it is asked for nothing that it has discarded. */
  ghost predicate Clear(c: Cluster, f: int)
    requires Sized(c) && CanSend(c, f)
  {
    && (c.snaps[f] >= 0 && c.snaps[c.me] == -1 ==> c.nextIndex[f] > 0)
    && (Ready(c, f) || c.snaps[c.me] == -1 ||
        (c.matchIndex[f] < c.snaps[c.me] &&
         (c.snaps[f] < c.snaps[c.me] ==> !Contradicts(c.logs[f], c.Leader()[..c.snaps[c.me] + 1]))))
  }

  lemma ClearIsNotBlocked(c: Cluster, f: int)
    requires Invariant(c) && CanSend(c, f) && Clear(c, f)
    ensures !Blocked(c, f)
  {
    FollowerFacts(c, f);
    hide Invariant, Contradicts, LogMatching, Indexed;
    assert -1 <= c.snaps[f] < |c.logs[f]|;
  }

  lemma PrefixContradicts(part: Log, log: Log, covered: Log)
    requires part <= log && 0 < |covered| && Contradicts(part, covered)
    ensures Contradicts(log, covered)
  {
  }

  lemma StaysClear(c: Cluster, f: int)
    requires Invariant(c) && CanRound(c, f) && Clear(c, f) && CanSend(Round(c, f), f)
    ensures Caught(Round(c, f), f) || Clear(Round(c, f), f)
  {
    hide Invariant, Round, CanDeliver, Agree, Contradicts;
    FollowerFacts(c, f);
    RoundIs(c, f);
    if RequestTo(c, f).Append? {
      EntriesProgress(c, f);
      var covered, t := c.Leader()[..c.snaps[c.me] + 1], Round(c, f);
      if !Caught(t, f) && 0 < |covered| && Contradicts(t.logs[f], covered) {
        PrefixContradicts(t.logs[f], c.logs[f], covered);
      }
    } else {
      SnapshotProgress(c, f);
    }
  }

  /** A follower that nothing will block ends up with everything. */
  lemma {:induction false} CatchUpConverges(c: Cluster, f: int)
    requires Invariant(c) && c.leading && CanSend(c, f) && Clear(c, f)
    ensures var d := CatchUp(c, f);
      && Invariant(d) && d.Leader() == c.Leader() && Caught(d, f)
    decreases if Ready(c, f) then 0 else 1, |c.logs[f]|, c.nextIndex[f]
  {
    FollowerFacts(c, f);
    hide Round, Invariant, CanDeliver, Agree, Panics, Stalled, Clear;
    ClearIsNotBlocked(c, f);
    RoundGoesOn(c, f);
    if !Caught(Round(c, f), f) {
      StaysClear(c, f);
      CatchUpConverges(Round(c, f), f);
    }
  }

  // ---------- a stall ----------

  /** The leader ignores the answer of a follower that it counts as holding what its snapshot stands for. */
  lemma StalledAnswerIsIgnored(c: Cluster, f: int)
    requires Invariant(c) && CanSend(c, f) && Stalled(c, f)
    ensures RequestTo(c, f).Install? && Acknowledged(c, Took(f, c.snaps[c.me])) == c
  {
  }

  /** Rounds one after the other. */
  ghost predicate AreRounds(run: seq<Cluster>, f: int) {
    forall k :: 0 <= k < |run| - 1 ==> CanRound(run[k], f) && run[k + 1] == Round(run[k], f)
  }

  lemma StallStaysOnce(c: Cluster, f: int)
    requires Invariant(c) && c.leading && CanRound(c, f) && Stalled(c, f)
    ensures var t := Round(c, f);
      && Invariant(t) && t.leading && CanSend(t, f) && Stalled(t, f)
      && t.nextIndex[f] == c.nextIndex[f] && t.matchIndex[f] == c.matchIndex[f]
  {
    hide Round, Invariant, CanDeliver, Panics, Agree, Stalled;
    RoundIsSteps(c, f);
    RoundIs(c, f);
    RoundProgress(c, f);
  }

  /** However many rounds follow, a stalled follower stays stalled. */
  lemma {:induction false} StallStays(run: seq<Cluster>, f: int, k: nat)
    requires AreRounds(run, f) && k < |run|
    requires Invariant(run[0]) && run[0].leading && CanSend(run[0], f) && Stalled(run[0], f)
    ensures Invariant(run[k]) && run[k].leading && CanSend(run[k], f) && Stalled(run[k], f)
    ensures run[k].nextIndex[f] == run[0].nextIndex[f] && run[k].matchIndex[f] == run[0].matchIndex[f]
  {
    hide CanRound, Round, Invariant, CanDeliver, Panics, Stalled;
    if k > 0 {
      StallStays(run, f, k - 1);
      assert CanRound(run[k - 1], f) && run[k] == run[k - 1 + 1] == Round(run[k - 1], f);
      hide AreRounds;
      StallStaysOnce(run[k - 1], f);
    }
  }
}
