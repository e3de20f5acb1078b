/** Raft logs as values: the merge of an AppendEntries request, and what leader and follower make of each
    other's logs. Positions count from 0; index -1 stands before the first entry. */
module RaftLog {

  type Command(==)

  datatype LogEntry = LogEntry(term: int, index: int, command: Command)

  type Log = seq<LogEntry>

  /** The entries carry consecutive indexes from `from` on. */
  ghost predicate Indexed(log: Log, from: int) {
    forall k :: 0 <= k < |log| ==> log[k].index == from + k
  }

  /** The term of the entry at an index, 0 before the first entry. */
  function TermAt(log: Log, index: int): int
    requires -1 <= index < |log|
  {
    if index == -1 then 0 else log[index].term
  }

  /** The logs are the same through their first `n` entries. */
  ghost predicate Agree(a: Log, b: Log, n: int) {
    0 <= n <= |a| && n <= |b| && a[..n] == b[..n]
  }

  /** Log Matching: entries of one term at one index come with the same entries before them. */
  ghost predicate LogMatching(a: Log, b: Log) {
    forall i :: 0 <= i < |a| && i < |b| && a[i].term == b[i].term ==> Agree(a, b, i + 1)
  }

  /** The position of the entry with an index, or -1 when it is not there. */
  function PositionOf(log: Log, index: int): (i: int)
    ensures -1 <= i < |log| && (i >= 0 ==> log[i].index == index)
    ensures forall k :: 0 <= k < (if i == -1 then |log| else i) ==> log[k].index != index
  {
    if log == [] then -1
    else if log[0].index == index then 0
    else
      var i := PositionOf(log[1..], index);
      if i == -1 then -1 else i + 1
  }

  lemma PositionInIndexed(log: Log, from: int, index: int)
    requires Indexed(log, from)
    ensures PositionOf(log, index) == if from <= index < from + |log| then index - from else -1
  {
    var i := PositionOf(log, index);
    if from <= index < from + |log| {
      assert log[index - from].index == index;
    }
  }

  // ---------- the merge of Figure 2 ----------

  /** The first of the new entries that is past the log or has another term than the log has there. */
  function FirstDisagreement(log: Log, at: nat, entries: Log): (j: nat)
    ensures j <= |entries| && (at <= |log| ==> at + j <= |log|)
    ensures forall i :: 0 <= i < j ==> at + i < |log| && log[at + i].term == entries[i].term
    ensures j < |entries| && at + j < |log| ==> log[at + j].term != entries[j].term
    decreases |entries|
  {
    if entries == [] || at >= |log| || log[at].term != entries[0].term then 0
    else 1 + FirstDisagreement(log, at + 1, entries[1..])
  }

  /** The rule of Figure 2 of the extended Raft paper: an existing entry that conflicts with a new one goes
      with all that follow it, and new entries not already in the log are appended. */
  function Merged(log: Log, at: nat, entries: Log): Log
    requires at <= |log|
  {
    var j := FirstDisagreement(log, at, entries);
    if j == |entries| then log else log[..at + j] + entries[j..]
  }

  /** What the handler does: when the new entries reach the end of the log it takes them all, otherwise
      it looks for the first conflict. */
  function HandlerMerge(log: Log, at: nat, entries: Log): Log
    requires at <= |log|
  {
    if |log| - at <= |entries| then log[..at] + entries else Merged(log, at, entries)
  }

  /** Up to the first conflict the log holds the very entries that were sent, not only their terms. */
  ghost predicate SameWhereTermsAgree(log: Log, at: nat, entries: Log)
    requires at <= |log|
  {
    forall i :: 0 <= i < FirstDisagreement(log, at, entries) ==> log[at + i] == entries[i]
  }

  lemma FirstDisagreementIs(log: Log, at: nat, entries: Log, j: nat)
    requires j <= |entries|
    requires forall i :: 0 <= i < j ==> at + i < |log| && log[at + i].term == entries[i].term
    requires j == |entries| || at + j >= |log| || log[at + j].term != entries[j].term
    ensures j == FirstDisagreement(log, at, entries)
  {
  }

  /** Two ways to splice new entries into a log are the same exactly when the log already holds what they differ in. */
  lemma Splices(log: Log, at: nat, entries: Log, j: nat)
    requires at + j <= |log| && j <= |entries|
    ensures log[..at] + entries == log[..at + j] + entries[j..] <==>
      forall i :: 0 <= i < j ==> log[at + i] == entries[i]
  {
    if forall i :: 0 <= i < j ==> log[at + i] == entries[i] {
      assert log[..at + j] == log[..at] + entries[..j];
      assert entries == entries[..j] + entries[j..];
    } else {
      var i :| 0 <= i < j && log[at + i] != entries[i];
      assert (log[..at] + entries)[at + i] == entries[i];
      assert (log[..at + j] + entries[j..])[at + i] == log[at + i];
    }
  }

  lemma MergedSplice(log: Log, at: nat, entries: Log)
    requires at <= |log| && |log| - at <= |entries|
    ensures var j := FirstDisagreement(log, at, entries);
      Merged(log, at, entries) == log[..at + j] + entries[j..]
  {
    hide FirstDisagreement;
  }

  /** The handler follows Figure 2 exactly when the log is longer than what was sent reaches, or holds the
      very entries that were sent up to the first conflict. */
  lemma HandlerMergeIsFigure2(log: Log, at: nat, entries: Log)
    requires at <= |log|
    ensures HandlerMerge(log, at, entries) == Merged(log, at, entries) <==>
      |log| - at > |entries| || SameWhereTermsAgree(log, at, entries)
  {
    if |log| - at <= |entries| {
      MergedSplice(log, at, entries);
      hide FirstDisagreement, Merged;
      Splices(log, at, entries, FirstDisagreement(log, at, entries));
    }
  }

  /** Otherwise it departs from it: an entry of the same term and index but another command gives way, where
      Figure 2 keeps it. */
  lemma HandlerMergeDeparts(a: LogEntry, b: LogEntry)
    requires a.term == b.term && a.index == b.index && a.command != b.command
    ensures HandlerMerge([a], 0, [b]) == [b] && Merged([a], 0, [b]) == [a]
  {
    assert [a][..0] + [b] == [b];
    FirstDisagreementIs([a], 0, [b], 1);
  }

  // ---------- the merge with entries of the leader ----------

  /** The log matches the leader's up to where the entries begin. */
  ghost predicate Fits(log: Log, leader: Log, at: nat, upto: nat) {
    && LogMatching(log, leader)
    && at <= upto <= |leader| && at <= |log|
    && (at > 0 ==> log[at - 1].term == leader[at - 1].term)
  }

  lemma FitsAgree(log: Log, leader: Log, at: nat, upto: nat)
    requires Fits(log, leader, at, upto)
    ensures Agree(log, leader, at)
  {
  }

  lemma MergePrefix(log: Log, leader: Log, at: nat, upto: nat)
    requires Fits(log, leader, at, upto)
    ensures var j := FirstDisagreement(log, at, leader[at..upto]); Agree(log, leader, at + j)
  {
    FitsAgree(log, leader, at, upto);
    var entries := leader[at..upto];
    var j := FirstDisagreement(log, at, entries);
    if j > 0 {
      var i := j - 1;
      assert log[at + i].term == entries[i].term && entries[i] == leader[at + i];
    }
  }

  lemma MatchingEntriesAreSame(log: Log, leader: Log, at: nat, upto: nat)
    requires Fits(log, leader, at, upto)
    ensures SameWhereTermsAgree(log, at, leader[at..upto])
  {
    MergePrefix(log, leader, at, upto);
    var j := FirstDisagreement(log, at, leader[at..upto]);
    forall i | 0 <= i < j
      ensures log[at + i] == leader[at..upto][i]
    {
      assert log[..at + j][at + i] == leader[..at + j][at + i];
    }
  }

  lemma AgreeAt(a: Log, b: Log, n: int, k: int)
    requires Agree(a, b, n) && 0 <= k < n
    ensures a[k] == b[k]
  {
    assert a[..n][k] == b[..n][k];
  }

  lemma MergeIsLogOrLeader(log: Log, leader: Log, at: nat, upto: nat)
    requires Fits(log, leader, at, upto)
    ensures HandlerMerge(log, at, leader[at..upto]) == Merged(log, at, leader[at..upto])
    ensures var j, merged := FirstDisagreement(log, at, leader[at..upto]), HandlerMerge(log, at, leader[at..upto]);
      if j == upto - at then merged == log && Agree(log, leader, upto) else merged == leader[..upto]
  {
    hide LogMatching, HandlerMerge, SameWhereTermsAgree, FirstDisagreement;
    var entries := leader[at..upto];
    var j := FirstDisagreement(log, at, entries);
    MatchingEntriesAreSame(log, leader, at, upto);
    HandlerMergeIsFigure2(log, at, entries);
    MergePrefix(log, leader, at, upto);
    SpliceLeader(leader, at, j, upto);
  }

  lemma SpliceLeader(leader: Log, at: nat, j: nat, upto: nat)
    requires at + j <= upto <= |leader|
    ensures leader[..at + j] + leader[at..upto][j..] == leader[..upto]
  {
  }

  /** A merge of the leader's entries from `at` to `upto` makes the follower agree with the leader through
      `upto`, keeps Log Matching and never removes an agreed entry. */
  lemma MergeIsSafe(log: Log, leader: Log, at: nat, upto: nat)
    requires Fits(log, leader, at, upto)
    ensures HandlerMerge(log, at, leader[at..upto]) == Merged(log, at, leader[at..upto])
    ensures var merged := HandlerMerge(log, at, leader[at..upto]);
      && Agree(merged, leader, upto)
      && LogMatching(merged, leader)
      && (forall n :: Agree(log, leader, n) ==> Agree(merged, leader, n))
      && (merged == log || merged == leader[..upto])
  {
    MergeIsLogOrLeader(log, leader, at, upto);
    PrefixMatches(leader, upto);
    forall n | Agree(log, leader, n)
      ensures Agree(HandlerMerge(log, at, leader[at..upto]), leader, n)
    {
      ConflictBoundsAgreement(log, leader, at, upto, n);
      assert n <= upto ==> leader[..upto][..n] == leader[..n];
    }
    hide HandlerMerge, Merged, FirstDisagreement, LogMatching;
  }

  lemma PrefixMatches(leader: Log, upto: nat)
    requires upto <= |leader|
    ensures LogMatching(leader[..upto], leader) && Agree(leader[..upto], leader, upto)
  {
    var p := leader[..upto];
    forall i | 0 <= i < |p| && i < |leader| && p[i].term == leader[i].term
      ensures Agree(p, leader, i + 1)
    {
      assert p[..i + 1] == leader[..i + 1];
    }
  }

  /** The logs agree no further than the first conflict. */
  lemma ConflictBoundsAgreement(log: Log, leader: Log, at: nat, upto: nat, n: int)
    requires Fits(log, leader, at, upto) && Agree(log, leader, n)
    ensures FirstDisagreement(log, at, leader[at..upto]) < upto - at ==>
      n <= at + FirstDisagreement(log, at, leader[at..upto])
  {
    var entries := leader[at..upto];
    var j := FirstDisagreement(log, at, entries);
    if j < |entries| && at + j < n {
      AgreeAt(log, leader, n, at + j);
    }
  }

  /** Replaying entries that the log already agrees with changes nothing. */
  lemma ReplayChangesNothing(log: Log, leader: Log, at: nat, upto: nat)
    requires Agree(log, leader, upto) && at <= upto
    ensures HandlerMerge(log, at, leader[at..upto]) == log
  {
    var entries := leader[at..upto];
    forall i | 0 <= i < |entries|
      ensures at + i < |log| && log[at + i] == entries[i]
    {
      AgreeAt(log, leader, upto, at + i);
    }
    FirstDisagreementIs(log, at, entries, |entries|);
    if |log| - at <= |entries| {
      assert log == log[..at] + entries;
    }
  }

  /** Handling the same entries twice is handling them once. */
  lemma MergeIsIdempotent(log: Log, leader: Log, at: nat, upto: nat)
    requires Fits(log, leader, at, upto)
    ensures var merged := HandlerMerge(log, at, leader[at..upto]);
      at <= |merged| && HandlerMerge(merged, at, leader[at..upto]) == merged
  {
    MergeIsSafe(log, leader, at, upto);
    ReplayChangesNothing(HandlerMerge(log, at, leader[at..upto]), leader, at, upto);
  }

  // ---------- the answer of a follower ----------

  /** The position of the first entry of a term at or after `from`, or the end of the log. */
  function FirstOfTerm(log: Log, from: nat, term: int): (i: nat)
    ensures from <= |log| ==> from <= i <= |log|
    ensures from <= i < |log| ==> log[i].term == term
    ensures forall k :: from <= k < i ==> k < |log| && log[k].term != term
    decreases |log| - from
  {
    if from >= |log| || log[from].term == term then from else FirstOfTerm(log, from + 1, term)
  }

  /** The position of the last entry of a term, or -1. */
  function LastOfTerm(log: Log, term: int): (i: int)
    ensures -1 <= i < |log| && (i >= 0 ==> log[i].term == term)
    ensures forall k :: i < k < |log| ==> log[k].term != term
  {
    if log == [] || log[|log| - 1].term == term then |log| - 1 else LastOfTerm(log[..|log| - 1], term)
  }

  /** `xTerm` and `xIndex` tell the leader how far to back up: term -1 means the log is too short. */
  datatype Answer = Answer(success: bool, xTerm: int, xIndex: int)

  datatype Followed = Followed(log: Log, answer: Answer)

  function Max(a: int, b: int): int {
    if a < b then b else a
  }

  /** What a follower does with an AppendEntries request, in terms of its whole log; the entries through
      index `snap` are only in its snapshot, so it cannot name a conflicting entry among them. */
  function Follow(log: Log, snap: int, prev: int, prevTerm: int, entries: Log): Followed
    requires -1 <= prev && -1 <= snap
  {
    if |log| - 1 < prev then
      Followed(log, Answer(false, -1, |log|))
    else if prev != -1 && log[prev].term != prevTerm then
      Followed(log[..prev], Answer(false, log[prev].term, FirstOfTerm(log, snap + 1, log[prev].term)))
    else
      Followed(HandlerMerge(log, prev + 1, entries), Answer(true, -1, -1))
  }

  /** What a follower has answered, and what it has kept: a log that ends before the request is too short, and says
      where it ends; an entry of another term before the request goes with all behind it, and the answer names that
      term and where it first stands behind the snapshot; anything else is accepted. */
  ghost predicate Told(log: Log, snap: int, prev: int, prevTerm: int, kept: Log, a: Answer) {
    if |log| <= prev then
      !a.success && a.xTerm == -1 && a.xIndex == |log| && kept == log
    else if snap < prev && 0 <= prev && log[prev].term != prevTerm then
      && !a.success && a.xTerm == log[prev].term && kept == log[..prev]
      && snap < a.xIndex <= prev && 0 <= a.xIndex && log[a.xIndex].term == a.xTerm
      && forall k :: snap < k < a.xIndex && 0 <= k ==> log[k].term != a.xTerm
    else
      a == Answer(true, -1, -1)
  }

  lemma FollowTells(log: Log, snap: int, prev: int, prevTerm: int, entries: Log)
    requires -1 <= prev && -1 <= snap < |log| && (0 <= prev <= snap ==> log[prev].term == prevTerm)
    ensures var f := Follow(log, snap, prev, prevTerm, entries);
      Told(log, snap, prev, prevTerm, f.log, f.answer)
  {
    if snap < prev < |log| && log[prev].term != prevTerm {
      assert FirstOfTerm(log, snap + 1, log[prev].term) <= prev;
    }
  }

  /** A request that the leader could have sent: its entries from `prev + 1` to `upto`. */
  ghost predicate FromLeader(leader: Log, prev: int, prevTerm: int, entries: Log, upto: int) {
    && -1 <= prev < upto + 1 && prev < |leader| && upto <= |leader| && prev + 1 <= upto
    && prevTerm == TermAt(leader, prev) && entries == leader[prev + 1..upto]
  }

  /** Handling a request of the leader keeps Log Matching and never removes an agreed entry, whenever it
      arrives and however old it is; a success makes the logs agree as far as the request goes. */
  lemma FollowIsSafe(log: Log, snap: int, leader: Log, prev: int, prevTerm: int, entries: Log, upto: int)
    requires LogMatching(log, leader) && FromLeader(leader, prev, prevTerm, entries, upto)
    requires -1 <= snap && Agree(log, leader, snap + 1)
    ensures var f := Follow(log, snap, prev, prevTerm, entries);
      && LogMatching(f.log, leader)
      && (forall n :: Agree(log, leader, n) ==> Agree(f.log, leader, n))
      && (f.answer.success ==> Agree(f.log, leader, upto))
      && (forall k :: |leader| <= k < |f.log| ==> k < |log| && f.log[k] == log[k])
      && (!f.answer.success ==> 0 <= f.answer.xIndex <= prev)
  {
    if |log| - 1 < prev {
    } else if prev != -1 && log[prev].term != prevTerm {
      TruncationKeeps(log, leader, prev);
      AgreementEndsBefore(log, leader, prev, snap + 1);
      var t := log[prev].term;
      assert FirstOfTerm(log, snap + 1, t) <= prev;
    } else {
      MergeIsSafe(log, leader, prev + 1, upto);
    }
  }

  /** Whatever stands in the follower's log afterwards stood there before, or in the leader's. */
  lemma FollowTakesFrom(log: Log, snap: int, leader: Log, prev: int, prevTerm: int, entries: Log, upto: int, k: int)
    requires -1 <= snap && FromLeader(leader, prev, prevTerm, entries, upto)
    requires 0 <= k < |Follow(log, snap, prev, prevTerm, entries).log|
    ensures var e := Follow(log, snap, prev, prevTerm, entries).log[k];
      (k < |log| && e == log[k]) || (k < |leader| && e == leader[k])
  {
  }

  lemma TruncationKeeps(log: Log, leader: Log, prev: int)
    requires LogMatching(log, leader) && 0 <= prev < |log| && prev < |leader| && log[prev].term != leader[prev].term
    ensures LogMatching(log[..prev], leader)
    ensures forall n :: Agree(log, leader, n) ==> Agree(log[..prev], leader, n)
  {
    forall n | Agree(log, leader, n)
      ensures Agree(log[..prev], leader, n)
    {
      AgreementEndsBefore(log, leader, prev, n);
      assert log[..prev][..n] == log[..n];
    }
    var p := log[..prev];
    forall i | 0 <= i < |p| && i < |leader| && p[i].term == leader[i].term
      ensures Agree(p, leader, i + 1)
    {
      assert Agree(log, leader, i + 1);
      assert p[..i + 1] == log[..i + 1];
    }
  }

  lemma AgreementEndsBefore(log: Log, leader: Log, k: int, n: int)
    requires 0 <= k < |log| && k < |leader| && log[k].term != leader[k].term && Agree(log, leader, n)
    ensures n <= k
  {
    if k < n {
      AgreeAt(log, leader, n, k);
    }
  }

  // ---------- a follower that holds a snapshot ----------

  /** The request tells the same as the snapshot about every entry through index `snap`, and the same as the
      log wherever their terms agree. */
  ghost predicate AgreesWithSnapshot(log: Log, snap: int, prev: int, prevTerm: int, entries: Log) {
    && -1 <= snap < |log|
    && -1 <= prev && Indexed(entries, prev + 1)
    && (0 <= prev <= snap ==>
         && log[prev].term == prevTerm
         && (forall i :: 0 <= i < |entries| && prev + 1 + i <= snap ==> log[prev + 1 + i] == entries[i])
         && SameWhereTermsAgree(log, prev + 1, entries))
  }

  lemma LeaderAgreesWithSnapshot(log: Log, snap: int, leader: Log, prev: int, prevTerm: int, entries: Log, upto: int)
    requires LogMatching(log, leader) && Indexed(leader, 0) && FromLeader(leader, prev, prevTerm, entries, upto)
    requires -1 <= snap < |log| && Agree(log, leader, snap + 1)
    ensures AgreesWithSnapshot(log, snap, prev, prevTerm, entries)
  {
    forall k | 0 <= k <= snap
      ensures log[k] == leader[k]
    {
      AgreeAt(log, leader, snap + 1, k);
    }
    if prev <= snap {
      MatchingEntriesAreSame(log, leader, prev + 1, upto);
    }
  }

  /** A follower's commit index after a request that it accepted. */
  function FollowerCommit(commit: int, leaderCommit: int, lastIndex: int): int {
    if commit >= leaderCommit then commit else if lastIndex < leaderCommit then lastIndex else leaderCommit
  }

  // ---------- a follower takes a snapshot from the leader ----------

  /** The whole log after a snapshot that stands for the entries `covered`: a log that reaches as far is
      kept, a shorter one gives way. */
  function Installed(log: Log, covered: Log): Log {
    if |covered| <= |log| then log else covered
  }

  lemma InstallIsSafe(log: Log, leader: Log, last: int)
    requires LogMatching(log, leader) && 0 <= last < |leader|
    requires last < |log| ==> log[last].term == leader[last].term
    ensures var t := Installed(log, leader[..last + 1]);
      && LogMatching(t, leader) && Agree(t, leader, last + 1)
      && (forall n :: Agree(log, leader, n) ==> Agree(t, leader, n))
      && (forall k :: |leader| <= k < |t| ==> k < |log| && t[k] == log[k])
  {
    var covered := leader[..last + 1];
    if |log| < |covered| {
      PrefixMatches(leader, last + 1);
      forall n | Agree(log, leader, n)
        ensures Agree(covered, leader, n)
      {
        assert covered[..n] == leader[..n];
      }
    }
  }

  // ---------- what the leader makes of an answer ----------

  /** The next index after an answer to a request from `prev` with `count` entries; an answer to any other
      request than the one the leader would send now is stale and changes nothing. The leader finds the
      conflicting term only after its own snapshot. */
  function LeaderNext(leader: Log, snap: int, next: int, prev: int, count: nat, a: Answer): int {
    if prev != next - 1 then next
    else if !a.success && a.xTerm == -1 then a.xIndex
    else if !a.success then
      var k := LastOfTerm(leader, a.xTerm);
      if k != -1 && k > snap then leader[k].index + 1 else a.xIndex
    else prev + count + 1
  }

  function LeaderMatch(match_: int, next: int, prev: int, count: nat, a: Answer): int {
    if prev == next - 1 && a.success then prev + count else match_
  }

  /** Behind the leader's snapshot there is an entry of the term. */
  ghost predicate HoldsLive(leader: Log, snap: int, term: int) {
    exists k :: snap < k < |leader| && 0 <= k && leader[k].term == term
  }

  /** Index `next` is right behind the last entry of the term. */
  ghost predicate RightBehind(leader: Log, snap: int, term: int, next: int) {
    && snap < next - 1 < |leader| && 0 < next && leader[next - 1].term == term
    && forall k :: next <= k < |leader| ==> leader[k].term != term
  }

  /** What the leader has made of an answer. One to another request than it would send now changes nothing. After a
      success the follower is known to hold what was sent. A follower that was too short is asked from its end on,
      one with a conflicting term from behind the leader's last live entry of that term, or, when the leader has
      none, from where the follower says that the term begins. */
  ghost predicate Heeded(
    leader: Log, snap: int, next: int, matched: int, prev: int, count: nat, a: Answer, after: int, matchedAfter: int) {
    if prev != next - 1 then
      after == next && matchedAfter == matched
    else if a.success then
      after == prev + count + 1 && matchedAfter == prev + count
    else
      && matchedAfter == matched
      && if a.xTerm != -1 && HoldsLive(leader, snap, a.xTerm) then RightBehind(leader, snap, a.xTerm, after)
         else after == a.xIndex
  }

  lemma AnswerIsHeeded(leader: Log, snap: int, next: int, matched: int, prev: int, count: nat, a: Answer)
    requires Indexed(leader, 0) && -1 <= snap
    ensures Heeded(leader, snap, next, matched, prev, count, a,
                   LeaderNext(leader, snap, next, prev, count, a), LeaderMatch(matched, next, prev, count, a))
  {
    if prev == next - 1 && !a.success && a.xTerm != -1 {
      var k := LastOfTerm(leader, a.xTerm);
      assert k > snap ==> leader[k].index == k && HoldsLive(leader, snap, a.xTerm);
    }
  }

  lemma LeaderNextInRange(leader: Log, snap: int, next: int, prev: int, count: nat, a: Answer)
    requires Indexed(leader, 0) && 0 <= next <= |leader|
    requires a.success ==> 0 <= prev + 1 && prev + count < |leader|
    requires !a.success ==> 0 <= a.xIndex <= |leader|
    ensures 0 <= LeaderNext(leader, snap, next, prev, count, a) <= |leader|
  {
  }

  /** The leader's commit index after a look at the candidate `x`: only an entry of its own term is committed
      by counting. */
  function LeaderCommit(log: Log, term: int, commit: int, x: int): int {
    if commit < x && 0 <= x < |log| && log[x].term == term then x else commit
  }

  // ---------- catching up ----------

  /** One round with an unchanging leader and no snapshots: send everything from `next`, handle it, handle
      the answer. */
  datatype Round = Round(log: Log, next: int, success: bool)

  function DoRound(log: Log, leader: Log, next: int): Round
    requires 0 <= next <= |leader|
  {
    var f := Follow(log, -1, next - 1, TermAt(leader, next - 1), leader[next..]);
    Round(f.log, LeaderNext(leader, -1, next, next - 1, |leader| - next, f.answer), f.answer.success)
  }

  /** A round that fails shortens the follower's log, or leaves it and lowers the next index: in each of the
      three ways of backing up. The first round that succeeds leaves the follower with the whole log. */
  lemma RoundMakesProgress(log: Log, leader: Log, next: int)
    requires LogMatching(log, leader) && Indexed(leader, 0) && 0 <= next <= |leader|
    ensures var r := DoRound(log, leader, next);
      && LogMatching(r.log, leader) && 0 <= r.next <= |leader|
      && (r.success ==> Agree(r.log, leader, |leader|) && r.next == |leader|)
      && (!r.success ==> (|r.log| < |log| || (r.log == log && r.next < next)))
  {
    var prev := next - 1;
    assert leader[next..] == leader[prev + 1..|leader|];
    FollowIsSafe(log, -1, leader, prev, TermAt(leader, prev), leader[next..], |leader|);
    var f := Follow(log, -1, prev, TermAt(leader, prev), leader[next..]);
    LeaderNextInRange(leader, -1, next, prev, |leader| - next, f.answer);
  }

  /** Rounds until the first success. */
  function CatchUp(log: Log, leader: Log, next: int): Round
    requires LogMatching(log, leader) && Indexed(leader, 0) && 0 <= next <= |leader|
    decreases |log|, next
  {
    RoundMakesProgress(log, leader, next);
    var r := DoRound(log, leader, next);
    if r.success then r else CatchUp(r.log, leader, r.next)
  }

  /** Catching up ends, with the follower holding everything the leader has. */
  lemma {:induction false} CatchUpConverges(log: Log, leader: Log, next: int)
    requires LogMatching(log, leader) && Indexed(leader, 0) && 0 <= next <= |leader|
    ensures var r := CatchUp(log, leader, next);
      r.success && Agree(r.log, leader, |leader|) && r.next == |leader| && LogMatching(r.log, leader)
    decreases |log|, next
  {
    RoundMakesProgress(log, leader, next);
    var r := DoRound(log, leader, next);
    if !r.success {
      CatchUpConverges(r.log, leader, r.next);
    }
  }
}
