/** The registry of heal sequences (cmd/admin-heal-ops.go): launching, ending, stopping and
    periodic clean-up, each step taken under a lock, in every interleaving. */
module HealRegistry {
  import opened Basics

  type Path = string

  /** Seconds an ended sequence is kept before the periodic clean-up removes it. */
  const KEEP_DURATION := 600

  predicate Overlap(a: Path, b: Path) {
    a <= b || b <= a
  }

  /** The background sequence is recognised by its client token and never counts as ended. */
  datatype Sequence = Sequence(path: Path, background: bool, endTime: Option<int>) {
    predicate HasEnded() {
      !background && endTime.Some?
    }
  }

  /** All sequences ever launched, the registered ones by path, and the stops under way:
      the path they were asked for and the sequence found there. */
  datatype Registry = Registry(sequences: seq<Sequence>, byPath: map<Path, nat>, stops: set<(Path, nat)>) {
    ghost predicate Valid() {
      && (forall p :: p in byPath ==> byPath[p] < |sequences| && sequences[byPath[p]].path == p)
      && (forall s :: s in stops ==> s.1 < |sequences|)
    }

    predicate Running(id: nat) {
      id < |sequences| && !sequences[id].HasEnded()
    }
  }

  const EMPTY := Registry([], map[], {})

  datatype Event =
    | Launch(path: Path, background: bool)  // the critical section of a launch
    | End(id: nat, time: int)               // the sequence's goroutine records its end
    | BeginStop(path: Path)                 // a stop looks the path up and signals
    | FinishStop(path: Path, id: nat)       // it has seen that sequence end and removes the path
    | Clean(now: int)

  predicate Admitted(r: Registry, path: Path) {
    forall p :: p in r.byPath && r.Running(r.byPath[p]) ==> !Overlap(p, path)
  }

  predicate Enabled(r: Registry, e: Event) {
    match e
    case Launch(_, _) => true
    case End(id, _) => id < |r.sequences| && r.sequences[id].endTime.None?
    case BeginStop(_) => true
    case FinishStop(path, id) => (path, id) in r.stops && id < |r.sequences| && r.sequences[id].HasEnded()
    case Clean(_) => true
  }

  predicate Expired(q: Sequence, now: int) {
    q.HasEnded() && q.endTime.value + KEEP_DURATION < now
  }

  function Step(r: Registry, e: Event): Registry
    requires r.Valid() && Enabled(r, e)
  {
    match e
    case Launch(path, background) =>
      if !Admitted(r, path) then r
      else r.(sequences := r.sequences + [Sequence(path, background, None)], byPath := r.byPath[path := |r.sequences|])
    case End(id, time) => r.(sequences := r.sequences[id := r.sequences[id].(endTime := Some(time))])
    case BeginStop(path) => if path in r.byPath then r.(stops := r.stops + {(path, r.byPath[path])}) else r
    case FinishStop(path, id) => r.(byPath := r.byPath - {path})
    case Clean(now) => r.(byPath := map p | p in r.byPath && !Expired(r.sequences[r.byPath[p]], now) :: r.byPath[p])
  }

  lemma StepIsValid(r: Registry, e: Event)
    requires r.Valid() && Enabled(r, e)
    ensures Step(r, e).Valid()
  {
  }

  /** The state after a run of enabled steps from the empty registry. */
  function Run(events: seq<Event>): (o: Option<Registry>)
    ensures o.Some? ==> o.value.Valid()
  {
    if events == [] then Some(EMPTY) else
      var before, e := Run(events[..|events| - 1]), events[|events| - 1];
      if before.None? || !Enabled(before.value, e) then None else
        StepIsValid(before.value, e);
        Some(Step(before.value, e))
  }

  lemma RunExtend(events: seq<Event>, e: Event)
    requires Run(events).Some? && (e.Launch? || e.BeginStop? || Enabled(Run(events).value, e))
    ensures Enabled(Run(events).value, e)
    ensures Run(events + [e]) == Some(Step(Run(events).value, e))
  {
    assert (events + [e])[..|events|] == events;
  }

  // ----- Registered sequences

  /** No two running sequences are registered under overlapping paths. */
  ghost predicate Disjoint(r: Registry)
    requires r.Valid()
  {
    forall p, q :: p in r.byPath && q in r.byPath && p != q && r.Running(r.byPath[p]) && r.Running(r.byPath[q]) ==> !Overlap(p, q)
  }

  /** The sequence at a path has no end time yet, or is the background sequence, which goes on
      whatever its end time. */
  predicate NotOver(r: Registry, p: Path)
    requires p in r.byPath
  {
    r.byPath[p] < |r.sequences| && (r.sequences[r.byPath[p]].background || r.sequences[r.byPath[p]].endTime.None?)
  }

  /** A launch is admitted exactly when no sequence that is not over is registered under a path
      that is a prefix of its own or has its own as a prefix; then it takes its path. */
  lemma LaunchExactly(r: Registry, path: Path, background: bool)
    requires r.Valid()
    ensures var r' := Step(r, Launch(path, background));
            if exists p :: p in r.byPath && NotOver(r, p) && (p <= path || path <= p) then r' == r
            else
              && r'.sequences == r.sequences + [Sequence(path, background, None)]
              && r'.byPath == r.byPath[path := |r.sequences|] && r'.stops == r.stops
  {
  }

  /** An end is recorded for the one sequence, at its time; a stop removes the one path. */
  lemma EndAndStop(r: Registry, e: Event)
    requires r.Valid() && Enabled(r, e)
    ensures e.End? ==>
              && Step(r, e).byPath == r.byPath && Step(r, e).stops == r.stops && |Step(r, e).sequences| == |r.sequences|
              && forall i :: 0 <= i < |r.sequences| ==>
                   Step(r, e).sequences[i] == if i == e.id then r.sequences[i].(endTime := Some(e.time)) else r.sequences[i]
    ensures e.FinishStop? ==>
              && Step(r, e).sequences == r.sequences && Step(r, e).stops == r.stops
              && forall p :: p in Step(r, e).byPath <==> p in r.byPath && p != e.path
  {
  }

  /** A clean-up keeps an ended sequence for ten minutes after its end and not longer, keeps
      every other one, and changes nothing else. */
  lemma CleanKeepsTenMinutes(r: Registry, now: int, p: Path)
    requires r.Valid()
    ensures var r' := Step(r, Clean(now));
            && (p in r'.byPath <==> p in r.byPath && (NotOver(r, p) || now <= r.sequences[r.byPath[p]].endTime.value + 10 * 60))
            && (p in r'.byPath ==> r'.byPath[p] == r.byPath[p])
            && r'.sequences == r.sequences && r'.stops == r.stops
  {
  }

  /** What one step can change: running sequences do not appear out of nothing. */
  lemma StepKeepsDisjoint(r: Registry, e: Event)
    requires r.Valid() && Enabled(r, e) && Disjoint(r)
    ensures Step(r, e).Valid() && Disjoint(Step(r, e))
  {
    StepIsValid(r, e);
    var r' := Step(r, e);
    forall p, q | p in r'.byPath && q in r'.byPath && p != q && r'.Running(r'.byPath[p]) && r'.Running(r'.byPath[q])
      ensures !Overlap(p, q)
    {
      if e.Launch? && Admitted(r, e.path) {
        assert p != e.path ==> p in r.byPath && r.Running(r.byPath[p]);
        assert q != e.path ==> q in r.byPath && r.Running(r.byPath[q]);
      } else {
        assert p in r.byPath && q in r.byPath && r.Running(r.byPath[p]) && r.Running(r.byPath[q]);
      }
    }
  }

  /** In every reachable state, no two running sequences are registered under paths one of
      which is a prefix of the other. */
  lemma {:induction false} RegisteredPathsDisjoint(events: seq<Event>)
    requires Run(events).Some?
    ensures Disjoint(Run(events).value)
    ensures var r := Run(events).value;
            forall p, q :: p in r.byPath && q in r.byPath && p != q && NotOver(r, p) && NotOver(r, q) ==> !(p <= q) && !(q <= p)
  {
    hide Disjoint, Step, Enabled, NotOver;
    if events == [] {
      assert Disjoint(Run(events).value) by { NothingRegistered(); }
    } else {
      RegisteredPathsDisjoint(events[..|events| - 1]);
      StepKeepsDisjoint(Run(events[..|events| - 1]).value, events[|events| - 1]);
    }
    NoPrefixes(Run(events).value);
  }

  lemma NothingRegistered()
    ensures EMPTY.Valid() && Disjoint(EMPTY)
  {
  }

  lemma NoPrefixes(r: Registry)
    requires r.Valid() && Disjoint(r)
    ensures forall p, q :: p in r.byPath && q in r.byPath && p != q && NotOver(r, p) && NotOver(r, q) ==> !(p <= q) && !(q <= p)
  {
    forall p, q | p in r.byPath && q in r.byPath && p != q && NotOver(r, p) && NotOver(r, q)
      ensures !(p <= q) && !(q <= p)
    {
      assert r.Running(r.byPath[p]) && r.Running(r.byPath[q]);
      assert !Overlap(p, q);
    }
  }

  /** Every sequence of `r` is still there in `r'`, and where it had ended it still has, at
      the same time. */
  ghost predicate EndsAreFinal(r: Registry, r': Registry) {
    && |r.sequences| <= |r'.sequences|
    && forall id :: 0 <= id < |r.sequences| ==>
         && r'.sequences[id].path == r.sequences[id].path
         && r'.sequences[id].background == r.sequences[id].background
         && (r.sequences[id].endTime.Some? ==> r'.sequences[id].endTime == r.sequences[id].endTime)
  }

  /** An ended sequence never becomes un-ended. */
  lemma {:induction false} EndedStaysEnded(events: seq<Event>, k: nat)
    requires Run(events).Some? && k <= |events|
    ensures Run(events[..k]).Some? && EndsAreFinal(Run(events[..k]).value, Run(events).value)
  {
    if k == |events| {
      assert events[..k] == events;
    } else {
      var before, e := events[..|events| - 1], events[|events| - 1];
      assert before[..k] == events[..k];
      var r := Run(before).value;
      assert Run(before).Some? && Enabled(r, e) && Run(events).value == Step(r, e);
      hide Run, Step, Enabled, EndsAreFinal;
      EndedStaysEnded(before, k);
      StepKeepsEnds(r, e);
      EndsTransitive(Run(events[..k]).value, r, Step(r, e));
    }
  }

  lemma EndsTransitive(r: Registry, r': Registry, r'': Registry)
    requires EndsAreFinal(r, r') && EndsAreFinal(r', r'')
    ensures EndsAreFinal(r, r'')
  {
  }

  lemma StepKeepsEnds(r: Registry, e: Event)
    requires r.Valid() && Enabled(r, e)
    ensures EndsAreFinal(r, Step(r, e))
  {
  }

  /** A stop removes a path only after the sequence it found there, when it was asked for, has
      ended. */
  lemma StopWaits(events: seq<Event>, path: Path, id: nat)
    requires Run(events + [FinishStop(path, id)]).Some?
    ensures Run(events).Some? && id < |Run(events).value.sequences|
    ensures var q := Run(events).value.sequences[id]; !q.background && q.endTime.Some?
    ensures BeginStop(path) in events
  {
    assert (events + [FinishStop(path, id)])[..|events|] == events;
    StopsWereBegun(events);
  }

  lemma {:induction false} StopsWereBegun(events: seq<Event>)
    requires Run(events).Some?
    ensures forall s :: s in Run(events).value.stops ==> BeginStop(s.0) in events
  {
    if events != [] {
      var before, e := events[..|events| - 1], events[|events| - 1];
      assert events == before + [e];
      StopsWereBegun(before);
      forall s | s in Run(events).value.stops
        ensures BeginStop(s.0) in events
      {
        if s !in Run(before).value.stops {
          assert e == BeginStop(s.0);
        }
      }
    }
  }

  // ----- Running sequences, registered or not

  ghost predicate RunningDisjoint(r: Registry) {
    forall i: nat, j: nat :: i < j && r.Running(i) && r.Running(j) ==> !Overlap(r.sequences[i].path, r.sequences[j].path)
  }

  ghost predicate Registered(r: Registry) {
    forall id: nat :: r.Running(id) ==> var p := r.sequences[id].path; p in r.byPath && r.byPath[p] == id
  }

  lemma RegisteredRunDisjoint(r: Registry)
    requires r.Valid() && Disjoint(r) && Registered(r)
    ensures RunningDisjoint(r)
  {
    forall i: nat, j: nat | i < j && r.Running(i) && r.Running(j)
      ensures !Overlap(r.sequences[i].path, r.sequences[j].path)
    {
      assert r.sequences[i].path in r.byPath && r.sequences[j].path in r.byPath;
    }
  }

  /** The path a stop removes no longer holds a running sequence. */
  predicate SafeStop(r: Registry, e: Event) {
    e.FinishStop? && e.path in r.byPath ==> !r.Running(r.byPath[e.path])
  }

  /** A step keeps every running sequence registered exactly when it is not a stop that
      removes another sequence than the one it waited for, still running. */
  lemma StepKeepsRegistered(r: Registry, e: Event)
    requires r.Valid() && Enabled(r, e) && Registered(r)
    ensures Registered(Step(r, e)) <==> SafeStop(r, e)
  {
    var r' := Step(r, e);
    if SafeStop(r, e) {
      forall id: nat | r'.Running(id)
        ensures var p := r'.sequences[id].path; p in r'.byPath && r'.byPath[p] == id
      {
        if id < |r.sequences| {
          assert r.Running(id);
          var p := r.sequences[id].path;
          if e.Launch? && Admitted(r, e.path) && p == e.path {
            assert Overlap(p, p);
            assert false;
          }
        }
      }
    } else {
      var id := r.byPath[e.path];
      assert r'.Running(id) && r'.sequences[id].path == e.path;
    }
  }

  /** No stop in the run removes a path that a running sequence holds. */
  predicate SafeStops(events: seq<Event>) {
    events == [] ||
    var before, e := events[..|events| - 1], events[|events| - 1];
    SafeStops(before) && (Run(before).Some? ==> SafeStop(Run(before).value, e))
  }

  lemma {:induction false} SafeRunIsRegistered(events: seq<Event>)
    requires Run(events).Some? && SafeStops(events)
    ensures Registered(Run(events).value)
  {
    if events != [] {
      var before, e := events[..|events| - 1], events[|events| - 1];
      SafeRunIsRegistered(before);
      StepKeepsRegistered(Run(before).value, e);
    }
  }

  /** As long as no stop removes a path that a running sequence holds, running sequences
      never overlap, registered or not. */
  lemma {:induction false} SafeRunsNeverOverlap(events: seq<Event>)
    requires Run(events).Some? && SafeStops(events)
    ensures RunningDisjoint(Run(events).value)
  {
    SafeRunIsRegistered(events);
    RegisteredPathsDisjoint(events);
    RegisteredRunDisjoint(Run(events).value);
  }

  /** And a stop is harmless only then: where it removes the path of a running sequence, the
      very next launch on that path is admitted and two running sequences overlap. */
  lemma UnsafeStopAdmitsOverlap(r: Registry, e: Event, background: bool)
    requires r.Valid() && Disjoint(r) && Enabled(r, e) && !SafeStop(r, e)
    ensures var r1 := Step(r, e);
            && r1.Valid() && Admitted(r1, e.path)
            && !RunningDisjoint(Step(r1, Launch(e.path, background)))
  {
    StepIsValid(r, e);
    var r1 := Step(r, e);
    var r2 := Step(r1, Launch(e.path, background));
    var i, j := r.byPath[e.path], |r.sequences|;
    forall p | p in r1.byPath && r1.Running(r1.byPath[p])
      ensures !Overlap(p, e.path)
    {
      assert p in r.byPath && p != e.path && r.Running(r.byPath[p]);
    }
    assert r2.Running(i) && r2.Running(j) && Overlap(r2.sequences[i].path, r2.sequences[j].path);
  }

  /** The sequence a stop waits for ends, and another is launched on the path meanwhile. */
  lemma RelaunchDuringStop(p: Path)
    ensures var q := Sequence(p, false, None);
            var r1 := Registry([q], map[p := 0], {});
            var r2 := Registry([q], map[p := 0], {(p, 0)});
            var r3 := Registry([q.(endTime := Some(1))], map[p := 0], {(p, 0)});
            var r4 := Registry([q.(endTime := Some(1)), q], map[p := 1], {(p, 0)});
            && r1.Valid() && r2.Valid() && r3.Valid()
            && Step(EMPTY, Launch(p, false)) == r1 && Step(r1, BeginStop(p)) == r2
            && Enabled(r2, End(0, 1)) && Step(r2, End(0, 1)) == r3 && Step(r3, Launch(p, false)) == r4
            && Enabled(r4, FinishStop(p, 0)) && !SafeStop(r4, FinishStop(p, 0))
  {
  }

  /** So a stop that removes a running sequence does occur. */
  lemma UnsafeStopIsReachable(p: Path)
    ensures var events := [Launch(p, false), BeginStop(p), End(0, 1), Launch(p, false)];
            && Run(events).Some?
            && Enabled(Run(events).value, FinishStop(p, 0)) && !SafeStop(Run(events).value, FinishStop(p, 0))
  {
    var e1 := [Launch(p, false)];
    var e2 := e1 + [BeginStop(p)];
    var e3 := e2 + [End(0, 1)];
    RelaunchDuringStop(p);
    assert Run([]) == Some(EMPTY) && [] + [Launch(p, false)] == e1;
    hide Run, Step, Enabled, SafeStop;
    RunExtend([], Launch(p, false));
    RunExtend(e1, BeginStop(p));
    RunExtend(e2, End(0, 1));
    RunExtend(e3, Launch(p, false));
    assert e3 + [Launch(p, false)] == [Launch(p, false), BeginStop(p), End(0, 1), Launch(p, false)];
  }
}
