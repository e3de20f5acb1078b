/** Two runs of a cluster of two servers, each to a state from which not everything goes well. */
module Runs {
  import opened Cluster
  import opened RaftLog
  import opened CatchingUp
  import Commit
  import Compaction

  ghost predicate Leads(c: Cluster, step: Step, t: Cluster) {
    Sized(c) && CanStep(c, step) && t == After(c, step)
  }

  lemma RunOf(run: seq<Cluster>, steps: seq<Step>)
    requires 0 < |steps| && |run| == |steps| + 1
    requires forall k :: 0 <= k < |steps| ==> Leads(run[k], steps[k], run[k + 1])
    ensures IsRun(run, steps)
  {
    forall k | 0 <= k < |run|
      ensures Sized(run[k])
    {
      if k < |steps| {
        assert Leads(run[k], steps[k], run[k + 1]);
      } else {
        assert Leads(run[k - 1], steps[k - 1], run[k - 1 + 1]);
      }
    }
    forall k | 0 <= k < |steps|
      ensures CanStep(run[k], steps[k]) && run[k + 1] == After(run[k], steps[k])
    {
      assert Leads(run[k], steps[k], run[k + 1]);
    }
  }

  /** Server 0 leads in term 1 with the log `a`, server 1 follows with the log `b`; neither holds a snapshot. */
  ghost function TwoServers(
    a: Log, b: Log, commits: seq<int>, next: int, matched: int, requests: set<Request>, responses: set<Response>)
    : Cluster
  {
    Cluster(1, 0, true, [a, b], [-1, -1], commits, [|a|, next], [|a| - 1, matched], requests, responses)
  }

  const Refused := Answer(false, -1, 0)
  const Accepted := Answer(true, -1, -1)

  lemma TakesFirst(e: LogEntry)
    ensures Follow([], -1, -1, 0, [e]) == Followed([e], Accepted)
  {
    assert [] + [e] == [e];
  }

  /** A server discards the one entry that it has committed. */
  lemma Discards(c: Cluster, f: int)
    requires Sized(c) && 0 <= f < |c.logs| && c.snaps[f] == -1 && c.commits[f] == 0
    ensures Leads(c, Compact(f, 0), c.(snaps := c.snaps[f := 0]))
  {
  }

  // ---------- a stall ----------

  const Probe := Append(1, 0, 0, [], 0)
  const No := Appended(1, 0, 0, Refused)
  const Yes := Appended(1, -1, 1, Accepted)

  lemma RefusesProbe(e: LogEntry)
    requires e.term == 0 && e.index == 0
    ensures TermBegins(TwoServers([e], [], [0, -1], 1, -1, {}, {}))
    ensures Leads(TwoServers([e], [], [0, -1], 1, -1, {}, {}), Send(1),
                  TwoServers([e], [], [0, -1], 1, -1, {Probe}, {}))
    ensures Leads(TwoServers([e], [], [0, -1], 1, -1, {Probe}, {}), Deliver(Probe),
                  TwoServers([e], [], [0, -1], 1, -1, {Probe}, {No}))
    ensures Leads(TwoServers([e], [], [0, -1], 1, -1, {Probe}, {No}), Ack(No),
                  TwoServers([e], [], [0, -1], 0, -1, {Probe}, {No}))
  {
    var c := TwoServers([e], [], [0, -1], 1, -1, {}, {});
    assert [e][..1] == [e] && [e][1..] == [];
    PrefixMatches([e], 1);
    assert LogBegins(c, 0) && LogBegins(c, 1);
  }

  ghost function All(e: LogEntry): Request {
    Append(1, -1, 0, [e], 0)
  }

  lemma AcceptsAll(e: LogEntry)
    requires e.term == 0 && e.index == 0
    ensures Leads(TwoServers([e], [], [0, -1], 0, -1, {Probe}, {No}), Send(1),
                  TwoServers([e], [], [0, -1], 0, -1, {Probe, All(e)}, {No}))
    ensures Leads(TwoServers([e], [], [0, -1], 0, -1, {Probe, All(e)}, {No}), Deliver(All(e)),
                  TwoServers([e], [e], [0, 0], 0, -1, {Probe, All(e)}, {No, Yes}))
    ensures Leads(TwoServers([e], [e], [0, 0], 0, -1, {Probe, All(e)}, {No, Yes}), Ack(Yes),
                  TwoServers([e], [e], [0, 0], 1, 0, {Probe, All(e)}, {No, Yes}))
    ensures Leads(TwoServers([e], [e], [0, 0], 1, 0, {Probe, All(e)}, {No, Yes}), Ack(No),
                  TwoServers([e], [e], [0, 0], 0, 0, {Probe, All(e)}, {No, Yes}))
  {
    TakesFirst(e);
  }

  /** A run comes to a stall like this: the follower holds nothing, refuses twice what begins at the end of the
      leader's log, and accepts all of it in between; the late second refusal takes the next index back to 0, and
      then the leader discards what the follower already holds. */
  lemma StallReached(e: LogEntry) returns (run: seq<Cluster>, steps: seq<Step>)
    requires e.term == 0 && e.index == 0
    ensures IsRun(run, steps) && TermBegins(run[0]) && |steps| == 8
    ensures run[8].leading && CanSend(run[8], 1) && Stalled(run[8], 1)
  {
    hide Leads, TermBegins, IsRun;
    RefusesProbe(e);
    AcceptsAll(e);
    var begin := TwoServers([e], [], [0, -1], 1, -1, {}, {});
    var caught := TwoServers([e], [e], [0, 0], 1, 0, {Probe, All(e)}, {No, Yes});
    var back := TwoServers([e], [e], [0, 0], 0, 0, {Probe, All(e)}, {No, Yes});
    Discards(back, 0);
    run := [begin,
            TwoServers([e], [], [0, -1], 1, -1, {Probe}, {}),
            TwoServers([e], [], [0, -1], 1, -1, {Probe}, {No}),
            TwoServers([e], [], [0, -1], 0, -1, {Probe}, {No}),
            TwoServers([e], [], [0, -1], 0, -1, {Probe, All(e)}, {No}),
            TwoServers([e], [e], [0, 0], 0, -1, {Probe, All(e)}, {No, Yes}),
            caught, back, back.(snaps := back.snaps[0 := 0])];
    steps := [Send(1), Deliver(Probe), Ack(No), Send(1), Deliver(All(e)), Ack(Yes), Ack(No), Compact(0, 0)];
    RunOf(run, steps);
  }

  // ---------- a request that a follower does not survive ----------

  const Empty := Append(1, 0, 1, [], 0)

  ghost function First(e: LogEntry): Request {
    Append(1, -1, 0, [e], -1)
  }

  lemma FirstIsStored(e: LogEntry)
    requires e.term == 1 && e.index == 0
    ensures TermBegins(TwoServers([], [], [-1, -1], 0, -1, {}, {}))
    ensures Leads(TwoServers([], [], [-1, -1], 0, -1, {}, {}), Start(e.command),
                  TwoServers([e], [], [-1, -1], 0, -1, {}, {}))
    ensures Leads(TwoServers([e], [], [-1, -1], 0, -1, {}, {}), Send(1),
                  TwoServers([e], [], [-1, -1], 0, -1, {First(e)}, {}))
    ensures Leads(TwoServers([e], [], [-1, -1], 0, -1, {First(e)}, {}), Deliver(First(e)),
                  TwoServers([e], [e], [-1, -1], 0, -1, {First(e)}, {Yes}))
  {
    var c := TwoServers([], [], [-1, -1], 0, -1, {}, {});
    assert LogBegins(c, 0) && LogBegins(c, 1);
    TakesFirst(e);
    assert [] + [e] == [e];
  }

  lemma FirstIsCommitted(e: LogEntry)
    requires e.term == 1 && e.index == 0
    ensures Leads(TwoServers([e], [e], [-1, -1], 0, -1, {First(e)}, {Yes}), Ack(Yes),
                  TwoServers([e], [e], [-1, -1], 1, 0, {First(e)}, {Yes}))
    ensures Leads(TwoServers([e], [e], [-1, -1], 1, 0, {First(e)}, {Yes}), Commit(0),
                  TwoServers([e], [e], [0, -1], 1, 0, {First(e)}, {Yes}))
  {
    assert Commit.StoredOn([0, 0], 0) == {0, 1};
    assert forall y :: 0 < y ==> Commit.StoredOn([0, 0], y) == {};
  }

  lemma FollowerDiscards(e: LogEntry)
    requires e.term == 1 && e.index == 0
    ensures Leads(TwoServers([e], [e], [0, -1], 1, 0, {First(e)}, {Yes}), Send(1),
                  TwoServers([e], [e], [0, -1], 1, 0, {First(e), Empty}, {Yes}))
    ensures Leads(TwoServers([e], [e], [0, -1], 1, 0, {First(e), Empty}, {Yes}), Deliver(Empty),
                  TwoServers([e], [e], [0, 0], 1, 0, {First(e), Empty}, {Yes, Appended(1, 0, 0, Accepted)}))
  {
    assert [e][1..] == [] && [e][..1] + [] == [e];
  }

  lemma NotSurvived(c: Cluster, e: LogEntry)
    requires Sized(c) && IsFollower(c, 1) && c.logs[1] == [e] && c.snaps[1] == 0
    ensures !CanDeliver(c, First(e))
  {
    assert !Compaction.Harmless([e], 0, [e]);
  }

  /** A run comes to a request that the follower does not survive like this: it stores the one entry, hears that
      it is committed, discards it for a snapshot, and then the first request arrives once more. */
  lemma UnsurvivedReached(e: LogEntry) returns (run: seq<Cluster>, steps: seq<Step>)
    requires e.term == 1 && e.index == 0
    ensures IsRun(run, steps) && TermBegins(run[0]) && |steps| == 8
    ensures First(e) in run[8].requests && IsFollower(run[8], 1) && !CanDeliver(run[8], First(e))
  {
    hide Leads, TermBegins, CanDeliver, IsRun;
    FirstIsStored(e);
    FirstIsCommitted(e);
    FollowerDiscards(e);
    var begin := TwoServers([], [], [-1, -1], 0, -1, {}, {});
    var told := TwoServers([e], [e], [0, 0], 1, 0, {First(e), Empty}, {Yes, Appended(1, 0, 0, Accepted)});
    Discards(told, 1);
    NotSurvived(told.(snaps := told.snaps[1 := 0]), e);
    run := [begin,
            TwoServers([e], [], [-1, -1], 0, -1, {}, {}),
            TwoServers([e], [], [-1, -1], 0, -1, {First(e)}, {}),
            TwoServers([e], [e], [-1, -1], 0, -1, {First(e)}, {Yes}),
            TwoServers([e], [e], [-1, -1], 1, 0, {First(e)}, {Yes}),
            TwoServers([e], [e], [0, -1], 1, 0, {First(e)}, {Yes}),
            TwoServers([e], [e], [0, -1], 1, 0, {First(e), Empty}, {Yes}),
            told, told.(snaps := told.snaps[1 := 0])];
    steps := [Start(e.command), Send(1), Deliver(First(e)), Ack(Yes), Commit(0), Send(1), Deliver(Empty),
              Compact(1, 0)];
    RunOf(run, steps);
  }
}
