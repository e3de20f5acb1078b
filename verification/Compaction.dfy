/** Merging into a log whose first entries are only in a snapshot, against merging into the whole log. */
module Compaction {
  import opened RaftLog

  lemma TakeAcross(full: Log, base: nat, n: nat, more: Log)
    requires base + n <= |full|
    ensures full[..base] + (full[base..][..n] + more) == full[..base + n] + more
  {
    assert full[..base + n] == full[..base] + full[base..][..n];
  }

  lemma DisagreementOfSuffix(full: Log, base: nat, at: nat, entries: Log)
    requires base + at <= |full|
    ensures FirstDisagreement(full, base + at, entries) == FirstDisagreement(full[base..], at, entries)
  {
    FirstDisagreementIs(full, base + at, entries, FirstDisagreement(full[base..], at, entries));
  }

  lemma MergeTakesAll(log: Log, at: nat, entries: Log)
    requires at <= |log| && |log| - at <= |entries|
    ensures HandlerMerge(log, at, entries) == log[..at] + entries
  {
  }

  lemma MergeKeepsAll(log: Log, at: nat, entries: Log)
    requires at <= |log| && |log| - at > |entries| && FirstDisagreement(log, at, entries) == |entries|
    ensures HandlerMerge(log, at, entries) == log
  {
  }

  lemma MergeCuts(log: Log, at: nat, entries: Log, j: nat)
    requires at <= |log| && |log| - at > |entries| && FirstDisagreement(log, at, entries) == j < |entries|
    ensures HandlerMerge(log, at, entries) == log[..at + j] + entries[j..]
  {
  }

  /** A merge does not look at what stands before the entries. */
  lemma MergeOfSuffix(full: Log, base: nat, at: nat, entries: Log)
    requires base + at <= |full|
    ensures full[..base] + HandlerMerge(full[base..], at, entries) == HandlerMerge(full, base + at, entries)
  {
    hide FirstDisagreement, HandlerMerge;
    var live := full[base..];
    var j := FirstDisagreement(live, at, entries);
    DisagreementOfSuffix(full, base, at, entries);
    if |live| - at <= |entries| {
      MergeTakesAll(live, at, entries);
      MergeTakesAll(full, base + at, entries);
      TakeAcross(full, base, at, entries);
    } else if j == |entries| {
      MergeKeepsAll(live, at, entries);
      MergeKeepsAll(full, base + at, entries);
      assert full == full[..base] + live;
    } else {
      MergeCuts(live, at, entries, j);
      MergeCuts(full, base + at, entries, j);
      TakeAcross(full, base, at + j, entries[j..]);
    }
  }

  ghost predicate TermsDiffer(log: Log, at: nat, entries: Log) {
    exists i :: 0 <= i < |entries| && at + i < |log| && log[at + i].term != entries[i].term
  }

  /** What the handler does when the entries begin inside its snapshot: it takes all that come after the
      snapshot, or none of them. */
  ghost function SnapshotMerge(full: Log, snap: int, entries: Log): Log
    requires -1 <= snap < |full|
  {
    if |full| - (snap + 1) <= |entries| || TermsDiffer(full, snap + 1, entries) then full[..snap + 1] + entries
      else full
  }

  lemma TermsDifferWhere(log: Log, at: nat, entries: Log)
    requires |log| - at > |entries|
    ensures TermsDiffer(log, at, entries) <==> FirstDisagreement(log, at, entries) < |entries|
  {
    var j := FirstDisagreement(log, at, entries);
    assert j < |entries| ==> log[at + j].term != entries[j].term;
  }

  lemma SnapshotTakesAll(full: Log, snap: int, entries: Log)
    requires -1 <= snap < |full|
    requires |full| - (snap + 1) <= |entries| || TermsDiffer(full, snap + 1, entries)
    ensures SnapshotMerge(full, snap, entries) == full[..snap + 1] + entries
  {
  }

  lemma SnapshotKeepsAll(full: Log, snap: int, entries: Log)
    requires -1 <= snap < |full|
    requires |full| - (snap + 1) > |entries| && !TermsDiffer(full, snap + 1, entries)
    ensures SnapshotMerge(full, snap, entries) == full
  {
  }

  /** Taking all or nothing is merging exactly when the entries reach the end of the log, have its terms, or are
      its very entries up to the first other term. */
  lemma SnapshotMergeIsHandlerMerge(full: Log, snap: int, entries: Log)
    requires -1 <= snap < |full|
    ensures var j := FirstDisagreement(full, snap + 1, entries);
      SnapshotMerge(full, snap, entries) == HandlerMerge(full, snap + 1, entries) <==>
        || |full| - (snap + 1) <= |entries| || j == |entries|
        || forall i :: 0 <= i < j ==> full[snap + 1 + i] == entries[i]
  {
    hide FirstDisagreement, HandlerMerge, SnapshotMerge, TermsDiffer;
    var j := FirstDisagreement(full, snap + 1, entries);
    if |full| - (snap + 1) <= |entries| {
      MergeTakesAll(full, snap + 1, entries);
      SnapshotTakesAll(full, snap, entries);
    } else {
      TermsDifferWhere(full, snap + 1, entries);
      if j < |entries| {
        MergeCuts(full, snap + 1, entries, j);
        SnapshotTakesAll(full, snap, entries);
        Splices(full, snap + 1, entries, j);
      } else {
        MergeKeepsAll(full, snap + 1, entries);
        SnapshotKeepsAll(full, snap, entries);
      }
    }
  }

  lemma ReplaceFrom(full: Log, at: nat, entries: Log, d: nat)
    requires d <= |entries| && at + d <= |full|
    requires forall i :: 0 <= i < d ==> full[at + i] == entries[i]
    ensures full[..at + d] + entries[d..] == full[..at] + entries
  {
    assert full[..at + d] == full[..at] + entries[..d];
    assert entries == entries[..d] + entries[d..];
  }

  /** Entries that agree with the snapshot are merged as into the whole log. */
  lemma SnapshotMergeIsMerge(full: Log, snap: int, prev: int, prevTerm: int, entries: Log)
    requires AgreesWithSnapshot(full, snap, prev, prevTerm, entries) && 0 <= prev <= snap
    ensures HandlerMerge(full, prev + 1, entries) ==
      if prev + |entries| <= snap then full else SnapshotMerge(full, snap, entries[snap - prev..])
  {
    hide HandlerMerge, SnapshotMerge, FirstDisagreement;
    var at, d := prev + 1, snap - prev;
    if |entries| <= d {
      SnapshotCovers(full, at, entries);
    } else {
      AgreesThrough(full, at, entries, d);
      MergeFromInside(full, at, entries, d);
    }
  }

  lemma AgreesThrough(full: Log, at: nat, entries: Log, d: nat)
    requires at + d <= |full| && d <= |entries| && forall i :: 0 <= i < d ==> full[at + i] == entries[i]
    ensures d <= FirstDisagreement(full, at, entries)
  {
  }

  lemma MergeFromInside(full: Log, at: nat, entries: Log, d: nat)
    requires at + d <= |full| && 0 < at && d <= FirstDisagreement(full, at, entries)
    requires SameWhereTermsAgree(full, at, entries)
    ensures HandlerMerge(full, at, entries) == SnapshotMerge(full, at + d - 1, entries[d..])
  {
    hide HandlerMerge, TermsDiffer;
    var j := FirstDisagreement(full, at, entries);
    ReplaceFrom(full, at, entries, d);
    DifferenceAfterSnapshot(full, at, entries, d);
    if |full| - at <= |entries| {
      MergeTakesAll(full, at, entries);
    } else if j == |entries| {
      MergeKeepsAll(full, at, entries);
    } else {
      MergeCuts(full, at, entries, j);
      ReplaceFrom(full, at, entries, j);
    }
  }

  lemma SnapshotCovers(full: Log, at: nat, entries: Log)
    requires at + |entries| <= |full| && forall i :: 0 <= i < |entries| ==> full[at + i] == entries[i]
    ensures HandlerMerge(full, at, entries) == full
  {
    FirstDisagreementIs(full, at, entries, |entries|);
    if |full| - at <= |entries| {
      assert full[..at] + entries == full;
    }
  }

  lemma DifferenceAfterSnapshot(full: Log, at: nat, entries: Log, d: nat)
    requires d <= FirstDisagreement(full, at, entries)
    ensures |full| - at > |entries| ==>
      (TermsDiffer(full, at + d, entries[d..]) <==> FirstDisagreement(full, at, entries) < |entries|)
  {
    var j := FirstDisagreement(full, at, entries);
    if |full| - at > |entries| > j {
      assert entries[d..][j - d] == entries[j] && full[at + d + (j - d)].term != entries[j].term;
    }
  }

  // ---------- a request from index 0 ----------

  /** What a follower can see for itself, with its live log and the request: nothing is to be changed. */
  ghost predicate SeemsHarmless(live: Log, entries: Log) {
    entries == [] || (|entries| < |live| && !TermsDiffer(live, 0, entries))
  }

  /** Entries from index 0 leave consecutive indexes behind the snapshot exactly when they change nothing:
      they are compared with, and written over, the wrong ones. */
  lemma StartOverIndexes(live: Log, snap: nat, entries: Log)
    requires Indexed(live, snap + 1) && Indexed(entries, 0)
    ensures Indexed(HandlerMerge(live, 0, entries), snap + 1) <==> SeemsHarmless(live, entries)
    ensures Indexed(HandlerMerge(live, 0, entries), snap + 1) ==> HandlerMerge(live, 0, entries) == live
  {
    var merged, j := HandlerMerge(live, 0, entries), FirstDisagreement(live, 0, entries);
    if entries != [] && (|live| <= |entries| || j < |entries|) {
      var k := if |live| <= |entries| then 0 else j;
      assert merged[k] == entries[k];
      assert merged[k].index != snap + 1 + k;
      assert |entries| < |live| ==> live[0 + j].term != entries[j].term;
    } else {
      assert merged == live;
    }
  }

  /** The entries are fewer than the live log, and their terms are those of both the live log and the whole
      log from their beginnings on. */
  ghost predicate Harmless(full: Log, snap: int, entries: Log)
    requires -1 <= snap < |full|
  {
    entries == [] ||
    (|entries| < |full| - (snap + 1) && !TermsDiffer(full, snap + 1, entries) && !TermsDiffer(full, 0, entries))
  }

  /** A request from index 0 leaves a follower that holds a snapshot with the same log as one that still holds
      its whole log exactly when it is harmless; then it changes neither. */
  lemma StartOverHeldSnapshot(full: Log, snap: nat, entries: Log)
    requires Indexed(full, 0) && snap < |full| && Indexed(entries, 0)
    ensures full[..snap + 1] + HandlerMerge(full[snap + 1..], 0, entries) == HandlerMerge(full, 0, entries) <==>
      Harmless(full, snap, entries)
    ensures Harmless(full, snap, entries) ==>
      HandlerMerge(full[snap + 1..], 0, entries) == full[snap + 1..] && HandlerMerge(full, 0, entries) == full
  {
    assert entries == [] ==> !TermsDiffer(full, 0, entries);
    hide HandlerMerge, TermsDiffer, Indexed;
    var live := full[snap + 1..];
    DropIndexed(full, 0, snap + 1);
    StartOverIndexes(live, snap, entries);
    WholeMerge(full, entries);
    LiveTerms(full, snap, live, entries);
    RepresentedIndexes(full, snap, HandlerMerge(live, 0, entries));
    assert full[..snap + 1] + live == full;
  }

  lemma DropIndexed(log: Log, from: int, d: nat)
    requires Indexed(log, from) && d <= |log|
    ensures Indexed(log[d..], from + d)
  {
  }

  /** With entries of the leader: the follower keeps consecutive indexes and its success is true exactly when the
      request is harmless. */
  lemma StartOverIsTrue(full: Log, snap: nat, leader: Log, upto: nat)
    requires Indexed(full, 0) && Indexed(leader, 0) && LogMatching(full, leader) && snap < |full| && upto <= |leader|
    ensures var t := full[..snap + 1] + HandlerMerge(full[snap + 1..], 0, leader[0..upto]);
      Indexed(t, 0) && Agree(t, leader, upto) <==> Harmless(full, snap, leader[0..upto])
  {
    hide HandlerMerge, LogMatching, TermsDiffer, Indexed, Agree, Harmless;
    var live, entries := full[snap + 1..], leader[0..upto];
    SliceIndexed(leader, upto);
    StartOverHeldSnapshot(full, snap, entries);
    if Harmless(full, snap, entries) {
      assert full[..snap + 1] + live == full;
      MergeIsSafe(full, leader, 0, upto);
    } else {
      StartOverBreaks(full, snap, leader, upto);
    }
  }

  lemma StartOverBreaks(full: Log, snap: nat, leader: Log, upto: nat)
    requires Indexed(full, 0) && Indexed(leader, 0) && snap < |full| && upto <= |leader|
    requires !Harmless(full, snap, leader[0..upto])
    ensures var t := full[..snap + 1] + HandlerMerge(full[snap + 1..], 0, leader[0..upto]);
      !(Indexed(t, 0) && Agree(t, leader, upto))
  {
    hide HandlerMerge, TermsDiffer, Indexed, Agree;
    var live, entries := full[snap + 1..], leader[0..upto];
    SliceIndexed(leader, upto);
    DropIndexed(full, 0, snap + 1);
    StartOverIndexes(live, snap, entries);
    LiveTerms(full, snap, live, entries);
    RepresentedIndexes(full, snap, HandlerMerge(live, 0, entries));
    if Agree(full, leader, upto) {
      AgreedTerms(full, leader, upto);
    }
    assert full[..snap + 1] + live == full;
  }

  lemma SliceIndexed(log: Log, upto: nat)
    requires Indexed(log, 0) && upto <= |log|
    ensures Indexed(log[0..upto], 0)
  {
  }

  lemma RepresentedIndexes(full: Log, snap: nat, live: Log)
    requires Indexed(full, 0) && snap < |full|
    ensures Indexed(full[..snap + 1] + live, 0) <==> Indexed(live, snap + 1)
  {
    var t := full[..snap + 1] + live;
    assert forall k :: 0 <= k < |live| ==> t[snap + 1 + k] == live[k];
  }

  lemma AgreedTerms(full: Log, leader: Log, upto: nat)
    requires upto <= |leader| && Agree(full, leader, upto)
    ensures !TermsDiffer(full, 0, leader[0..upto])
  {
    forall i | 0 <= i < upto
      ensures full[0 + i] == leader[0..upto][i]
    {
      AgreeAt(full, leader, upto, i);
    }
  }

  /** Merging from index 0 into the whole log. */
  lemma WholeMerge(full: Log, entries: Log)
    requires Indexed(full, 0) && Indexed(entries, 0)
    ensures Indexed(HandlerMerge(full, 0, entries), 0)
    ensures |entries| < |full| ==> (HandlerMerge(full, 0, entries) == full <==> !TermsDiffer(full, 0, entries))
  {
    var j := FirstDisagreement(full, 0, entries);
    if |entries| < |full| {
      if j < |entries| {
        MergeCuts(full, 0, entries, j);
        assert full[0 + j].term != entries[j].term;
        assert |full[..j] + entries[j..]| < |full|;
      } else {
        MergeKeepsAll(full, 0, entries);
      }
    }
  }

  lemma LiveTerms(full: Log, snap: int, live: Log, entries: Log)
    requires -1 <= snap < |full| && live == full[snap + 1..]
    ensures TermsDiffer(live, 0, entries) <==> TermsDiffer(full, snap + 1, entries)
  {
    if TermsDiffer(live, 0, entries) {
      var i :| 0 <= i < |entries| && 0 + i < |live| && live[0 + i].term != entries[i].term;
      assert full[snap + 1 + i].term != entries[i].term;
    }
    if TermsDiffer(full, snap + 1, entries) {
      var i :| 0 <= i < |entries| && snap + 1 + i < |full| && full[snap + 1 + i].term != entries[i].term;
      assert live[0 + i].term != entries[i].term;
    }
  }

  /** Every term has one log, as with one leader in each: entries of one term in two logs are of it, and so is
      all that stands before them. */
  ghost predicate OneLogPerTerm(a: Log, b: Log) {
    forall i, j :: 0 <= i < |a| && 0 <= j < |b| && a[i].term == b[j].term ==> Agree(a, b, 1 + if i < j then i else j)
  }

  /** Then seeming harmless is all a follower has to check: terms that are those of the live log are those of the
      whole log. */
  lemma SeemingIsBeing(full: Log, snap: nat, leader: Log, upto: nat)
    requires OneLogPerTerm(full, leader) && snap < |full| && upto <= |leader|
    ensures Harmless(full, snap, leader[0..upto]) <==> SeemsHarmless(full[snap + 1..], leader[0..upto])
  {
    hide TermsDiffer, Agree;
    var live, entries := full[snap + 1..], leader[0..upto];
    LiveTerms(full, snap, live, entries);
    if entries != [] && SeemsHarmless(live, entries) {
      SameTermsAt(live, entries, upto - 1);
      assert full[snap + upto].term == leader[upto - 1].term;
      AgreedTerms(full, leader, upto);
    }
  }

  lemma SameTermsAt(log: Log, entries: Log, i: nat)
    requires i < |entries| <= |log| && !TermsDiffer(log, 0, entries)
    ensures log[i].term == entries[i].term
  {
    assert log[0 + i] == log[i];
  }

  /** For instance: the very entries that a follower holds, sent once more from index 0 after it has taken a
      snapshot of the first two, end up where the third should be. */
  lemma StartOverExample(a: LogEntry, b: LogEntry, c: LogEntry)
    requires Indexed([a, b, c], 0)
    ensures var full := [a, b, c];
      && Follow(full, 1, -1, 0, full).log == full
      && HandlerMerge(full[2..], 0, full) == full
      && !Indexed(HandlerMerge(full[2..], 0, full), 2)
  {
    var full := [a, b, c];
    assert full[..0] + full == full;
    assert full[2..][..0] + full == full;
    assert full[0].index == 0;
  }

  /** Another instance, in which the indexes stay: behind a snapshot of the first entry the terms happen to be
      those of the request, so nothing changes and the follower answers success, without agreeing with it. It
      takes two logs of one term, so two leaders. */
  lemma StartOverFalseSuccess(a: LogEntry, b: LogEntry, c: LogEntry, d: LogEntry, e: LogEntry)
    requires Indexed([a, b, c, d], 0) && e.index == 1
    requires a.term == b.term == 1 && c.term == e.term == 2 && d.term == 3
    ensures var full, leader := [a, b, c, d], [a, e];
      && LogMatching(full, leader) && Agree(full, leader, 1) && FromLeader(leader, -1, 0, leader, 2)
      && FollowCompacted(full, 0, -1, 0, leader) == Followed(full, Answer(true, -1, -1))
      && !Agree(full, leader, 2) && !OneLogPerTerm(full, leader)
  {
    var full, leader := [a, b, c, d], [a, e];
    var live := full[1..];
    assert live == [b, c, d];
    assert leader[0..2] == leader;
    FirstDisagreementIs(live, 0, leader, 2);
    assert full[..1] + live == full;
    assert full[..1] == leader[..1] == [a];
    assert full[..2][1] != leader[..2][1];
    assert full[2].term == leader[1].term;
  }

  // ---------- a follower that holds a snapshot ----------

  /** What a follower with a snapshot through index `snap` does with a request, in terms of its whole log. */
  ghost function FollowCompacted(full: Log, snap: int, prev: int, prevTerm: int, entries: Log): Followed
    requires -1 <= prev && -1 <= snap < |full|
  {
    if 0 <= prev <= snap then
      Followed(
        if prev + |entries| <= snap then full
          else SnapshotMerge(full, snap, entries[snap - prev..]), Answer(true, -1, -1))
    else if prev == -1 && snap >= 0 then
      Followed(full[..snap + 1] + HandlerMerge(full[snap + 1..], 0, entries), Answer(true, -1, -1))
    else
      Follow(full, snap, prev, prevTerm, entries)
  }

  /** A request from index 0 to a follower that has discarded entries is to be harmless. */
  ghost predicate Survives(full: Log, snap: int, prev: int, entries: Log)
    requires -1 <= snap < |full|
  {
    prev == -1 && snap >= 0 ==> Harmless(full, snap, entries)
  }

  /** Compaction is invisible: when a request agrees with what the snapshot stands for, log and answer are
      those of a follower that still holds its whole log, exactly when it survives the request. */
  lemma CompactionIsInvisible(full: Log, snap: int, prev: int, prevTerm: int, entries: Log)
    requires Indexed(full, 0) && AgreesWithSnapshot(full, snap, prev, prevTerm, entries)
    ensures FollowCompacted(full, snap, prev, prevTerm, entries) == Follow(full, snap, prev, prevTerm, entries) <==>
      Survives(full, snap, prev, entries)
  {
    if 0 <= prev <= snap {
      FollowAccepts(full, snap, prev, prevTerm, entries);
      SnapshotMergeIsMerge(full, snap, prev, prevTerm, entries);
    } else if prev == -1 && snap >= 0 {
      FollowAccepts(full, snap, prev, prevTerm, entries);
      StartOverHeldSnapshot(full, snap, entries);
    }
  }

  lemma FollowAccepts(full: Log, snap: int, prev: int, prevTerm: int, entries: Log)
    requires -1 <= snap < |full| && -1 <= prev < |full| && (prev == -1 || full[prev].term == prevTerm)
    ensures Follow(full, snap, prev, prevTerm, entries) ==
      Followed(HandlerMerge(full, prev + 1, entries), Answer(true, -1, -1))
  {
  }

  /** The answer is right whatever the snapshot, and whether or not the server survives the request. */
  lemma CompactedTells(full: Log, snap: int, prev: int, prevTerm: int, entries: Log)
    requires -1 <= prev && -1 <= snap < |full|
    ensures var f := FollowCompacted(full, snap, prev, prevTerm, entries);
      Told(full, snap, prev, prevTerm, f.log, f.answer)
  {
    if prev > snap || prev == -1 {
      FollowTells(full, snap, prev, prevTerm, entries);
    }
  }
}
