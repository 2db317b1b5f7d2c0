/** Replication state of an object version (cmd/bucket-replication-utils.go): the pending
    status derived from a decision, and the overall status derived from the targets. */
module ReplicationState {
  import opened Basics
  import opened ReplicationDecision
  import opened ReplicationStatus

  // ----- Decisions built target by target

  /** The map after a sequence of `Set` calls. */
  function Built(sets: seq<Target>): Decision {
    if sets == [] then map[] else Built(sets[..|sets| - 1])[sets[|sets| - 1].arn := sets[|sets| - 1]]
  }

  lemma {:induction false} BuiltByArn(sets: seq<Target>)
    ensures forall k :: k in Built(sets) ==> Built(sets)[k].arn == k && Built(sets)[k] in sets
    ensures forall t :: t in sets ==> t.arn in Built(sets)
  {
    if sets != [] {
      var n := |sets| - 1;
      BuiltByArn(sets[..n]);
      assert sets == sets[..n] + [sets[n]];
    }
  }

  ghost predicate ReplicatesAny(m: Decision) {
    exists k :: k in m && m[k].replicate
  }

  /** What the printing loop has written after visiting the keys of `order`. */
  function PrintPending(m: Decision, order: seq<string>): string
    requires forall k :: k in order ==> k in m
  {
    if order == [] then ""
    else
      var t := m[order[|order| - 1]];
      PrintPending(m, order[..|order| - 1]) + (if t.replicate then PrintEntry(t.arn, PENDING) else "")
  }

  class ReplicateDecision {
    var targetsMap: Decision

    constructor ()
      ensures targetsMap == map[]
    {
      targetsMap := map[];
    }

    method Set(t: Target)
      modifies this
      ensures targetsMap == old(targetsMap)[t.arn := t]
    {
      targetsMap := targetsMap[t.arn := t];
    }

    method ReplicateAny() returns (any: bool)
      ensures any <==> ReplicatesAny(targetsMap)
    {
      var rest := targetsMap.Keys;
      while rest != {}
        invariant rest <= targetsMap.Keys
        invariant forall k :: k in targetsMap.Keys - rest ==> !targetsMap[k].replicate
        decreases rest
      {
        var k :| k in rest;
        if targetsMap[k].replicate {
          return true;
        }
        rest := rest - {k};
      }
      return false;
    }

    method PendingStatus() returns (s: string)
      ensures exists order :: IsOrder(order, targetsMap) && s == PrintPending(targetsMap, order)
    {
      s := "";
      ghost var order := [];
      var rest := targetsMap.Keys;
      while rest != {}
        invariant rest <= targetsMap.Keys && (forall k :: k in order <==> k in targetsMap.Keys - rest)
        invariant forall i, j :: 0 <= i < j < |order| ==> order[i] != order[j]
        invariant s == PrintPending(targetsMap, order)
        decreases rest
      {
        var k :| k in rest;
        PendingNext(targetsMap, order, k);
        hide PrintPending, PrintEntry;
        assert k !in order;
        order := order + [k];
        if targetsMap[k].replicate {
          s := s + PrintEntry(targetsMap[k].arn, PENDING);
        }
        rest := rest - {k};
      }
    }
  }

  lemma PendingNext(m: Decision, order: seq<string>, k: string)
    requires k in m && forall x :: x in order ==> x in m
    ensures PrintPending(m, order + [k]) == if m[k].replicate then PrintPending(m, order) + PrintEntry(m[k].arn, PENDING)
                                            else PrintPending(m, order)
  {
    assert (order + [k])[..|order|] == order;
    assert PrintPending(m, order) + "" == PrintPending(m, order);
  }

  /** The replicating targets in the given order, each pending. */
  function PendingTargets(m: Decision, order: seq<string>): seq<TargetInfo>
    requires forall k :: k in order ==> k in m
  {
    if order == [] then []
    else
      var t := m[order[|order| - 1]];
      PendingTargets(m, order[..|order| - 1]) + (if t.replicate then [TargetInfo(t.arn, PENDING)] else [])
  }

  lemma {:induction false} PrintStatusesNext(targets: seq<TargetInfo>, t: TargetInfo)
    requires t.arn != ""
    ensures PrintStatuses(targets + [t]) == PrintStatuses(targets) + PrintEntry(t.arn, t.status)
  {
    if targets == [] {
      assert [] + [t] == [t] && [t][1..] == [];
      assert PrintStatuses([t]) == PrintEntry(t.arn, t.status) + PrintStatuses([]);
    } else {
      assert (targets + [t])[0] == targets[0] && (targets + [t])[1..] == targets[1..] + [t];
      PrintStatusesNext(targets[1..], t);
      hide PrintEntry;
      if targets[0].arn != "" {
        Assoc(PrintEntry(targets[0].arn, targets[0].status), PrintStatuses(targets[1..]), PrintEntry(t.arn, t.status));
      }
    }
  }

  lemma {:induction false} PendingIsStatuses(m: Decision, order: seq<string>)
    requires (forall k :: k in order ==> k in m) && forall k :: k in m && m[k].replicate ==> m[k].arn != ""
    ensures PrintPending(m, order) == PrintStatuses(PendingTargets(m, order))
  {
    if order != [] {
      var n := |order| - 1;
      var before, t := order[..n], m[order[n]];
      PendingIsStatuses(m, before);
      if t.replicate {
        PrintStatusesNext(PendingTargets(m, before), TargetInfo(t.arn, PENDING));
      }
      hide PrintStatuses, PrintEntry;
      assert PendingTargets(m, before) + [] == PendingTargets(m, before);
    }
  }

  lemma {:induction false} PendingMembers(m: Decision, order: seq<string>)
    requires (forall k :: k in order ==> k in m) && (forall k :: k in m ==> m[k].arn == k)
    requires forall i, j :: 0 <= i < j < |order| ==> order[i] != order[j]
    ensures var ts := PendingTargets(m, order);
            && (forall t :: t in ts <==> t.arn in order && m[t.arn].replicate && t.status == PENDING)
            && (forall i, j :: 0 <= i < j < |ts| ==> ts[i].arn != ts[j].arn)
  {
    if order != [] {
      var n := |order| - 1;
      var before, k := order[..n], order[n];
      assert order == before + [k] && k !in before;
      PendingMembers(m, before);
      var ts := PendingTargets(m, before);
      assert forall i :: 0 <= i < |ts| ==> ts[i] in ts;
    }
  }

  /** The replicating targets, each pending. */
  function Replicating(m: Decision): map<string, Status> {
    map k | k in m && m[k].replicate :: PENDING
  }

  /** For every decision built by `Set` calls and every iteration order, the statuses found
      in the printed pending status are exactly the replicating targets, all pending, if and
      only if the ARNs of these are findable. */
  lemma PendingRoundTrip(sets: seq<Target>, order: seq<string>)
    requires IsOrder(order, Built(sets))
    ensures var m := Built(sets);
            StatusesMap(PrintPending(m, order)) == Replicating(m) <==>
            forall k :: k in m && m[k].replicate ==> Findable(k, PENDING)
  {
    var m := Built(sets);
    var s := PrintPending(m, order);
    BuiltByArn(sets);
    if forall k :: k in m && m[k].replicate ==> Findable(k, PENDING) {
      PendingFound(m, order);
    }
    if StatusesMap(s) == Replicating(m) {
      FoundIsFindable(s);
      ToMapValues(FindAll(s));
      hide Findable, FindAll, PrintPending, ToMap, Built;
      forall k | k in m && m[k].replicate
        ensures Findable(k, PENDING)
      {
        assert k in StatusesMap(s) && StatusesMap(s)[k] == PENDING;
      }
    }
  }

  lemma PendingFound(m: Decision, order: seq<string>)
    requires IsOrder(order, m) && (forall k :: k in m ==> m[k].arn == k)
    requires forall k :: k in m && m[k].replicate ==> Findable(k, PENDING)
    ensures StatusesMap(PrintPending(m, order)) == Replicating(m)
  {
    hide Findable, PrintPending, PendingTargets, Replicating, StatusesMap, PrintStatuses;
    var ts := PendingTargets(m, order);
    PendingFindable(m, order);
    StatusesRoundTrip(ts);
    PendingMembers(m, order);
    PendingExact(m, StatusesMap(PrintStatuses(ts)), ts);
  }

  lemma PendingFindable(m: Decision, order: seq<string>)
    requires IsOrder(order, m) && (forall k :: k in m ==> m[k].arn == k)
    requires forall k :: k in m && m[k].replicate ==> Findable(k, PENDING)
    ensures PrintPending(m, order) == PrintStatuses(PendingTargets(m, order))
    ensures AllFindable(PendingTargets(m, order)) && DistinctArns(PendingTargets(m, order))
  {
    assert forall k :: Findable(k, PENDING) ==> k != "";
    hide Findable, PrintPending, PendingTargets, PrintStatuses;
    PendingIsStatuses(m, order);
    PendingMembers(m, order);
    var ts := PendingTargets(m, order);
    forall i | 0 <= i < |ts|
      ensures Findable(ts[i].arn, ts[i].status)
    {
      assert ts[i] in ts;
    }
  }

  lemma PendingExact(m: Decision, found: map<string, Status>, ts: seq<TargetInfo>)
    requires forall t :: t in ts <==> t.arn in m && m[t.arn].replicate && t.status == PENDING
    requires Recovers(found, ts)
    ensures found == Replicating(m)
  {
    forall k
      ensures k in found <==> k in Replicating(m)
      ensures k in found ==> found[k] == PENDING
    {
      if k in found {
        assert TargetInfo(k, found[k]) in ts;
      }
      if k in Replicating(m) {
        assert TargetInfo(k, PENDING) in ts;
      }
    }
  }

  /** The composite of the replicating targets says whether there are any. */
  lemma PendingComposite(m: Decision)
    ensures CompositeOf(MapStatuses(Replicating(m)), COMPLETED) == if ReplicatesAny(m) then PENDING else ""
  {
    var found := Replicating(m);
    if ReplicatesAny(m) {
      var k :| k in m && m[k].replicate;
      assert k in found && found[k] in MapStatuses(found);
    }
  }

  /** ReplicationStatusInternal: one entry per target that has an ARN. */
  method ReplicationStatusInternal(targets: seq<TargetInfo>) returns (s: string)
    ensures s == PrintStatuses(targets)
    ensures targets == [] ==> s == ""
    ensures |targets| == 1 && targets[0].arn != "" ==> s == targets[0].arn + "=" + targets[0].status + ";"
  {
    s := "";
    assert targets[..0] == [];
    hide PrintStatuses;
    NothingPrinted();
    for i := 0 to |targets|
      invariant s == PrintStatuses(targets[..i])
    {
      assert targets[..i + 1] == targets[..i] + [targets[i]];
      if targets[i].arn == "" {
        UnnamedNext(targets[..i], targets[i]);
        continue;
      }
      PrintStatusesNext(targets[..i], targets[i]);
      s := s + PrintEntry(targets[i].arn, targets[i].status);
    }
    assert targets[..|targets|] == targets;
    if |targets| == 1 && targets[0].arn != "" {
      OnePrinted(targets);
    }
  }

  lemma NothingPrinted()
    ensures PrintStatuses([]) == ""
  {
  }

  lemma OnePrinted(targets: seq<TargetInfo>)
    requires |targets| == 1 && targets[0].arn != ""
    ensures PrintStatuses(targets) == targets[0].arn + "=" + targets[0].status + ";"
  {
    assert targets[1..] == [];
  }

  lemma {:induction false} UnnamedNext(targets: seq<TargetInfo>, t: TargetInfo)
    requires t.arn == ""
    ensures PrintStatuses(targets + [t]) == PrintStatuses(targets)
  {
    if targets == [] {
      assert [] + [t] == [t] && [t][1..] == [];
    } else {
      assert (targets + [t])[0] == targets[0] && (targets + [t])[1..] == targets[1..] + [t];
      UnnamedNext(targets[1..], t);
    }
  }

  // ----- The overall status

  /** Time value that stands for "never". */
  const TIME_SENTINEL := 0

  /** What replication reports about a target: the status of the version there, and the
      status of purging it there, empty when nothing is to be purged. */
  datatype Report = Report(arn: string, status: Status, purge: Status)

  function Statuses(reports: seq<Report>): (ts: seq<TargetInfo>)
    ensures |ts| == |reports|
    ensures forall i :: 0 <= i < |ts| ==> ts[i] == TargetInfo(reports[i].arn, reports[i].status)
  {
    seq(|reports|, i requires 0 <= i < |reports| => TargetInfo(reports[i].arn, reports[i].status))
  }

  function Purges(reports: seq<Report>): (ts: seq<TargetInfo>)
    ensures |ts| == |reports|
    ensures forall i :: 0 <= i < |ts| ==> ts[i] == TargetInfo(reports[i].arn, reports[i].purge)
  {
    seq(|reports|, i requires 0 <= i < |reports| => TargetInfo(reports[i].arn, reports[i].purge))
  }

  /** VersionPurgeStatusInternal prints only the targets that have a status. */
  function WithStatus(targets: seq<TargetInfo>): seq<TargetInfo> {
    if targets == [] then []
    else (if targets[0].status == "" then [] else [targets[0]]) + WithStatus(targets[1..])
  }

  datatype State = State(replicaTime: int, replicaStatus: Status, replicationTime: int,
                         statusInternal: string, targets: map<string, Status>,
                         purgeInternal: string, purgeTargets: map<string, Status>)

  function GetReplicationState(reports: seq<Report>, time: int, previous: State): State {
    var statuses, purges := PrintStatuses(Statuses(reports)), PrintStatuses(WithStatus(Purges(reports)));
    State(previous.replicaTime, previous.replicaStatus, time, statuses, StatusesMap(statuses), purges, StatusesMap(purges))
  }

  ghost function CompositeReplicationStatus(s: State): Status {
    if s.statusInternal != "" then
      if s.statusInternal in {PENDING, COMPLETED, FAILED, REPLICA} then s.statusInternal
      else
        var status := CompositeOf(MapStatuses(s.targets), COMPLETED);
        if s.replicaTime != TIME_SENTINEL && status == COMPLETED && s.replicaTime > s.replicationTime then s.replicaStatus
        else status
    else s.replicaStatus
  }

  ghost function CompositeVersionPurgeStatus(s: State): Status {
    if s.purgeInternal in {PENDING, COMPLETE, FAILED} then s.purgeInternal
    else CompositeOf(MapStatuses(s.purgeTargets), COMPLETE)
  }

  lemma PrintedHasEquals(targets: seq<TargetInfo>)
    requires targets != [] && targets[0].arn != ""
    ensures '=' in PrintStatuses(targets)
  {
    var t := targets[0];
    assert PrintEntry(t.arn, t.status)[|t.arn|] == '=';
    assert PrintStatuses(targets)[|t.arn|] == '=';
  }

  /** What is printed is never taken for a status of the old format. */
  lemma PrintedIsNoStatus(targets: seq<TargetInfo>)
    requires forall i :: 0 <= i < |targets| ==> targets[i].arn != ""
    ensures PrintStatuses(targets) !in {PENDING, COMPLETED, COMPLETE, FAILED, REPLICA}
    ensures PrintStatuses(targets) == "" <==> targets == []
  {
    assert '=' !in PENDING && '=' !in COMPLETED && '=' !in COMPLETE && '=' !in FAILED && '=' !in REPLICA;
    if targets != [] {
      PrintedHasEquals(targets);
    }
  }

  /** The targets that were reached. Replication makes room for every target and leaves an
      empty entry, without ARN or status, for each one it does not reach. */
  function Named(targets: seq<TargetInfo>): seq<TargetInfo> {
    if targets == [] then []
    else (if targets[0].arn == "" then [] else [targets[0]]) + Named(targets[1..])
  }

  ghost predicate EntriesAreEmpty(targets: seq<TargetInfo>) {
    forall t :: t in targets && t.arn == "" ==> t.status == ""
  }

  lemma {:induction false} NamedMembers(targets: seq<TargetInfo>)
    ensures forall t :: t in Named(targets) <==> t in targets && t.arn != ""
    ensures PrintStatuses(Named(targets)) == PrintStatuses(targets)
  {
    if targets != [] {
      NamedMembers(targets[1..]);
      var rest := Named(targets[1..]);
      assert targets == [targets[0]] + targets[1..];
      if targets[0].arn == "" {
        assert Named(targets) == [] + rest == rest;
      } else {
        assert ([targets[0]] + rest)[1..] == rest;
      }
    }
  }

  /** A replica that arrived after replication completed everywhere takes over. */
  predicate ReplicaTakesOver(completed: bool, time: int, previous: State) {
    completed && previous.replicaTime != TIME_SENTINEL && previous.replicaTime > time
  }

  ghost predicate AllCompleted(targets: seq<TargetInfo>) {
    forall t :: t in targets ==> t.status == COMPLETED
  }

  /** The status of a version whose state was rebuilt is that of the named targets, unless
      there are none, or all completed and a replica arrived later: then the replica's. */
  lemma StateKeepsNamedStatus(reports: seq<Report>, time: int, previous: State)
    requires AllFindable(Named(Statuses(reports))) && DistinctArns(Named(Statuses(reports)))
    ensures var ts := Named(Statuses(reports));
            CompositeReplicationStatus(GetReplicationState(reports, time, previous)) ==
            if ts == [] || ReplicaTakesOver(AllCompleted(ts), time, previous) then previous.replicaStatus
            else CompositeOf(ListStatuses(ts), COMPLETED)
  {
    var ts := Named(Statuses(reports));
    NamedMembers(Statuses(reports));
    PrintedIsNoStatus(ts);
    StatusesRoundTrip(ts);
    if ts != [] {
      CompletedComposite(ts);
    }
    hide PrintStatuses, StatusesMap, CompositeOf, Named, AllCompleted;
  }

  /** A state of the old format, where the status itself is stored, keeps it; without any
      status the replica's counts. */
  lemma OldFormat(s: State)
    ensures s.statusInternal in {"PENDING", "COMPLETED", "FAILED", "REPLICA"} ==> CompositeReplicationStatus(s) == s.statusInternal
    ensures s.statusInternal == "" ==> CompositeReplicationStatus(s) == s.replicaStatus
    ensures s.purgeInternal in {"PENDING", "COMPLETE", "FAILED"} ==> CompositeVersionPurgeStatus(s) == s.purgeInternal
  {
  }

  /** The rebuilt status is failed exactly when replication to some named target failed, or
      when it is the replica's and that is failed. */
  lemma StateFailsExactly(reports: seq<Report>, time: int, previous: State)
    requires AllFindable(Named(Statuses(reports))) && DistinctArns(Named(Statuses(reports)))
    ensures var ts := Named(Statuses(reports));
            CompositeReplicationStatus(GetReplicationState(reports, time, previous)) == FAILED <==>
            || (exists t :: t in ts && t.status == FAILED)
            || ((ts == [] || ReplicaTakesOver(AllCompleted(ts), time, previous)) && previous.replicaStatus == FAILED)
  {
    var ts := Named(Statuses(reports));
    hide CompositeReplicationStatus, GetReplicationState, Named, AllFindable, DistinctArns, CompositeOf, ListStatuses;
    StateKeepsNamedStatus(reports, time, previous);
    FailedComposite(ts);
    if t :| t in ts && t.status == FAILED {
      assert !AllCompleted(ts);
    }
    hide AllCompleted, ReplicaTakesOver;
  }

  lemma FailedComposite(targets: seq<TargetInfo>)
    ensures CompositeOf(ListStatuses(targets), COMPLETED) == FAILED <==> exists t :: t in targets && t.status == FAILED
  {
    StatusMembers(targets);
    hide ListStatuses;
    if t :| t in targets && t.status == FAILED {
      assert FAILED in ListStatuses(targets);
    }
    if FAILED in ListStatuses(targets) {
      var t :| t in targets && t.status == FAILED;
    }
    assert COMPLETED != FAILED && PENDING != FAILED;
  }

  lemma CompletedComposite(targets: seq<TargetInfo>)
    requires targets != []
    ensures CompositeOf(ListStatuses(targets), COMPLETED) == COMPLETED <==> AllCompleted(targets)
  {
    StatusMembers(targets);
    assert targets[0] in targets && targets[0].status in ListStatuses(targets);
    hide ListStatuses;
    if AllCompleted(targets) {
      assert ListStatuses(targets) == iset{COMPLETED};
    } else {
      var t :| t in targets && t.status != COMPLETED;
      assert t.status in ListStatuses(targets);
    }
  }

  /** An empty entry turns a completed list pending, and nothing else. */
  lemma EmptyEntriesCount(targets: seq<TargetInfo>)
    requires EntriesAreEmpty(targets) && Named(targets) != []
    ensures var named, listed := CompositeOf(ListStatuses(Named(targets)), COMPLETED), CompositeOf(ListStatuses(targets), COMPLETED);
            listed == if named == COMPLETED && exists t :: t in targets && t.arn == "" then PENDING else named
  {
    hide *;
    var all, some := ListStatuses(targets), ListStatuses(Named(targets));
    NamedStatuses(targets);
    if exists t :: t in targets && t.arn == "" {
      MorePending(all, some);
    }
  }

  lemma NamedStatuses(targets: seq<TargetInfo>)
    requires EntriesAreEmpty(targets) && Named(targets) != []
    ensures var all, some := ListStatuses(targets), ListStatuses(Named(targets));
            && some != iset{}
            && all == if exists t :: t in targets && t.arn == "" then some + iset{""} else some
  {
    NamedMembers(targets);
    StatusMembers(targets);
    StatusMembers(Named(targets));
    assert Named(targets)[0] in Named(targets) && Named(targets)[0].status in ListStatuses(Named(targets));
    hide ListStatuses, Named, PrintStatuses;
    var all, some := ListStatuses(targets), ListStatuses(Named(targets));
    forall s
      ensures s in all <==> s in some || (s == "" && exists t :: t in targets && t.arn == "")
    {
      if s in all {
        var t :| t in targets && t.status == s;
        assert t.arn != "" ==> t in Named(targets);
      }
    }
  }

  lemma MorePending(all: iset<Status>, some: iset<Status>)
    requires some != iset{} && all == some + iset{""}
    ensures CompositeOf(all, COMPLETED) == if CompositeOf(some, COMPLETED) == COMPLETED then PENDING else CompositeOf(some, COMPLETED)
  {
    assert "" in all;
  }

  /** What the list of targets says, when the rebuilt state says the replica's status. */
  ghost function ListedThen(targets: seq<TargetInfo>): Status {
    if targets == [] then "" else if exists t :: t in targets && t.arn == "" then PENDING else COMPLETED
  }

  /** Replication stores the status of the list next to the printed statuses. The status of
      the rebuilt state agrees with it exactly when there is no empty entry or some named
      target has not completed; or, where the replica's status counts, when that is what the
      list says. */
  lemma StateAgreesWithList(reports: seq<Report>, time: int, previous: State)
    requires AllFindable(Named(Statuses(reports))) && DistinctArns(Named(Statuses(reports)))
    requires EntriesAreEmpty(Statuses(reports))
    ensures var all, named := Statuses(reports), Named(Statuses(reports));
            CompositeReplicationStatus(GetReplicationState(reports, time, previous)) == CompositeOf(ListStatuses(all), COMPLETED) <==>
            if named == [] || ReplicaTakesOver(AllCompleted(named), time, previous) then previous.replicaStatus == ListedThen(all)
            else (forall t :: t in all ==> t.arn != "") || !AllCompleted(named)
  {
    var all, named := Statuses(reports), Named(Statuses(reports));
    StateKeepsNamedStatus(reports, time, previous);
    if named == [] {
      NothingNamed(all);
    } else {
      CompletedComposite(named);
      EmptyEntriesCount(all);
    }
    hide *;
  }

  lemma NothingNamed(targets: seq<TargetInfo>)
    requires Named(targets) == [] && EntriesAreEmpty(targets)
    ensures CompositeOf(ListStatuses(targets), COMPLETED) == ListedThen(targets)
  {
    NamedMembers(targets);
    StatusMembers(targets);
    hide ListStatuses, PrintStatuses, Named;
    if targets != [] {
      assert targets[0] in targets && targets[0].arn == "";
      assert ListStatuses(targets) == iset{""};
    }
  }

  /** One target completed and one was not reached: the list says pending, the state says
      completed. */
  lemma UnreachedTarget(arn: string, time: int, previous: State)
    requires Findable(arn, COMPLETED) && previous.replicaTime == TIME_SENTINEL
    ensures var reports := [Report(arn, COMPLETED, ""), Report("", "", "")];
            && CompositeOf(ListStatuses(Statuses(reports)), COMPLETED) == PENDING
            && CompositeReplicationStatus(GetReplicationState(reports, time, previous)) == COMPLETED
  {
    var reports := [Report(arn, COMPLETED, ""), Report("", "", "")];
    var all := Statuses(reports);
    OneNamed(all, TargetInfo(arn, COMPLETED));
    CompletedComposite(Named(all));
    EmptyEntriesCount(all);
    assert all[1] in all;
    StateKeepsNamedStatus(reports, time, previous);
    hide *;
  }

  lemma OneNamed(all: seq<TargetInfo>, t: TargetInfo)
    requires all == [t, TargetInfo("", "")] && Findable(t.arn, t.status)
    ensures Named(all) == [t] && EntriesAreEmpty(all) && DistinctArns([t]) && AllFindable([t]) && (t.status == COMPLETED ==> AllCompleted([t]))
    ensures WithStatus(all) == [t]
  {
    var rest := all[1..];
    assert rest == [TargetInfo("", "")] && rest[1..] == [];
    assert Named(rest) == [] + Named(rest[1..]) && WithStatus(rest) == [] + WithStatus(rest[1..]);
    assert Named(all) == [t] + Named(rest) && WithStatus(all) == [t] + WithStatus(rest);
  }

  // Purging a version reports no replication status

  lemma {:induction false} FoundWithoutStatus(targets: seq<TargetInfo>)
    requires forall i :: 0 <= i < |targets| ==> targets[i].status == ""
    ensures Found(targets) == [] <==> |targets| <= 1
    ensures forall e :: e in Found(targets) ==> e.1 != "" && e.1[0] == ';'
  {
    if |targets| > 1 {
      FoundWithoutStatus(targets[2..]);
    }
  }

  lemma UnknownStatuses(found: seq<(string, string)>)
    requires forall e :: e in found ==> e.1 != "" && e.1[0] == ';'
    ensures CompositeOf(MapStatuses(ToMap(found)), COMPLETED) == if found == [] then "" else PENDING
  {
    ToMapValues(found);
    var m := ToMap(found);
    assert found != [] ==> found[|found| - 1].0 in m;
    hide ToMap;
    assert forall s :: s in MapStatuses(m) ==> s != "" && s[0] == ';';
    if found != [] {
      var k :| k in m;
      assert m[k] in MapStatuses(m);
    }
  }

  /** The reports of a purged version, where only the purge status is set, rebuild a
      replication status nobody reported: none for one target, pending for several. The list
      says pending unless it is empty, so with one named target the two never agree. */
  lemma PurgedVersionStatus(reports: seq<Report>, time: int, previous: State)
    requires forall i :: 0 <= i < |reports| ==> reports[i].status == ""
    requires forall t :: t in Named(Statuses(reports)) ==> Plain(t)
    ensures var named := Named(Statuses(reports));
            && CompositeReplicationStatus(GetReplicationState(reports, time, previous)) ==
               (if |named| == 0 then previous.replicaStatus else if |named| == 1 then "" else PENDING)
            && CompositeOf(ListStatuses(Statuses(reports)), COMPLETED) == if reports == [] then "" else PENDING
  {
    var all, named := Statuses(reports), Named(Statuses(reports));
    NoStatuses(all);
    hide PrintStatuses, FindAll, Found, Named, CompositeOf, Plain, ToMap, MapStatuses, ListStatuses;
    NamedMembers(all);
    NamedWithoutStatus(named);
  }

  lemma NamedWithoutStatus(named: seq<TargetInfo>)
    requires forall t :: t in named ==> Plain(t) && t.arn != "" && t.status == ""
    ensures var s := PrintStatuses(named);
            && s !in {PENDING, COMPLETED, FAILED, REPLICA} && (s == "" <==> named == [])
            && CompositeOf(MapStatuses(StatusesMap(s)), COMPLETED) == if |named| <= 1 then "" else PENDING
  {
    hide PrintStatuses, FindAll, Found, CompositeOf, Plain, ToMap, MapStatuses;
    assert forall i :: 0 <= i < |named| ==> named[i] in named;
    PrintedIsNoStatus(named);
    FoundExact(named);
    FoundWithoutStatus(named);
    UnknownStatuses(Found(named));
  }

  lemma NoStatuses(targets: seq<TargetInfo>)
    requires forall i :: 0 <= i < |targets| ==> targets[i].status == ""
    ensures CompositeOf(ListStatuses(targets), COMPLETED) == if targets == [] then "" else PENDING
  {
    if targets != [] {
      assert targets[0].status in ListStatuses(targets);
      assert ListStatuses(targets) == iset{""};
    }
  }

  // The purge status

  lemma {:induction false} WithStatusMembers(targets: seq<TargetInfo>)
    ensures forall t :: t in WithStatus(targets) <==> t in targets && t.status != ""
    ensures DistinctArns(targets) ==> DistinctArns(WithStatus(targets))
  {
    if targets != [] {
      WithStatusMembers(targets[1..]);
      var rest := WithStatus(targets[1..]);
      assert targets == [targets[0]] + targets[1..];
      assert forall i :: 0 <= i < |rest| ==> rest[i] in rest;
      assert DistinctArns(targets) ==> DistinctArns(targets[1..]);
      assert DistinctArns(targets) ==> forall t :: t in targets[1..] ==> t.arn != targets[0].arn;
    }
  }

  /** Some target has a purge status other than the completed one. */
  ghost predicate StillPurging(targets: seq<TargetInfo>) {
    exists t :: t in targets && t.status != "" && t.status != COMPLETE
  }

  lemma PurgeComposites(targets: seq<TargetInfo>)
    ensures CompositeOf(ListStatuses(WithStatus(targets)), COMPLETE) == CompositeOf(ListStatuses(targets), COMPLETE) <==>
            StillPurging(targets) || forall t :: t in targets ==> t.status != ""
  {
    if targets == [] {
      return;
    }
    WithStatusMembers(targets);
    StatusMembers(targets);
    StatusMembers(WithStatus(targets));
    hide WithStatus;
    var all, some := ListStatuses(targets), ListStatuses(WithStatus(targets));
    assert targets[0] in targets && targets[0].status in all;
    assert forall s :: s in some <==> s in all && s != "";
    hide ListStatuses;
    if StillPurging(targets) {
      var t :| t in targets && t.status != "" && t.status != COMPLETE;
      assert t.status in some && t.status != COMPLETE;
    }
    if s :| s in some && s != COMPLETE {
      var t :| t in targets && t.status == s;
      assert t.status != "" && t.status != COMPLETE;
    }
    assert (forall t :: t in targets ==> t.status != "") <==> "" !in all;
    CompositesAgree(all, some);
  }

  lemma StatusMembers(targets: seq<TargetInfo>)
    ensures forall s :: s in ListStatuses(targets) <==> exists t :: t in targets && t.status == s
  {
    forall s
      ensures s in ListStatuses(targets) <==> exists t :: t in targets && t.status == s
    {
      if s in ListStatuses(targets) {
        var i :| 0 <= i < |targets| && targets[i].status == s;
        assert targets[i] in targets;
      }
    }
  }

  lemma CompositesAgree(all: iset<Status>, some: iset<Status>)
    requires all != iset{} && forall s :: s in some <==> s in all && s != ""
    ensures CompositeOf(some, COMPLETE) == CompositeOf(all, COMPLETE) <==> "" !in all || exists s :: s in some && s != COMPLETE
  {
    if "" !in all {
      assert some == all;
    } else if s :| s in some && s != COMPLETE {
      assert s in all;
    } else {
      assert some == iset{} || some == iset{COMPLETE};
    }
  }

  /** The purge status of a rebuilt state is that of the targets that have one. The list
      itself counts the others as not complete, so the two agree exactly when every target
      has a purge status, or some target has one that is not complete. */
  lemma PurgeStatusExact(reports: seq<Report>, time: int, previous: State)
    requires AllFindable(WithStatus(Purges(reports))) && DistinctArns(WithStatus(Purges(reports)))
    ensures var ts := Purges(reports);
            var r := CompositeVersionPurgeStatus(GetReplicationState(reports, time, previous));
            && r == CompositeOf(ListStatuses(WithStatus(ts)), COMPLETE)
            && (r == CompositeOf(ListStatuses(ts), COMPLETE) <==>
                StillPurging(ts) || forall t :: t in ts ==> t.status != "")
  {
    var ts := Purges(reports);
    WithStatusMembers(ts);
    PrintedIsNoStatus(WithStatus(ts));
    StatusesRoundTrip(WithStatus(ts));
    PurgeComposites(ts);
    hide PrintStatuses, StatusesMap, CompositeOf, WithStatus;
  }

  /** A version purged on one target while the other was not reached: the list says pending,
      the state says complete. */
  lemma UnreachedPurge(arn: string, time: int, previous: State)
    requires Findable(arn, COMPLETE)
    ensures var reports := [Report(arn, "", COMPLETE), Report("", "", "")];
            && CompositeOf(ListStatuses(Purges(reports)), COMPLETE) == PENDING
            && CompositeVersionPurgeStatus(GetReplicationState(reports, time, previous)) == COMPLETE
  {
    var reports := [Report(arn, "", COMPLETE), Report("", "", "")];
    var all, t := Purges(reports), TargetInfo(arn, COMPLETE);
    OneNamed(all, t);
    PurgeStatusExact(reports, time, previous);
    assert ListStatuses([t]) == iset{COMPLETE} by {
      assert [t][0].status in ListStatuses([t]);
    }
    assert "" in ListStatuses(all) by {
      assert all[1].status == "";
    }
    assert FAILED !in ListStatuses(all);
    hide CompositeVersionPurgeStatus, GetReplicationState, Findable, WithStatus;
  }
}
