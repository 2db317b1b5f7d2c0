/** Runs of disk healing (cmd/background-newdisks-heal-ops.go, cmd/global-heal.go): sweeps
    enter, count and finish buckets, the tracker is saved now and then, and at any point
    the server may go back to what was saved last. */
module HealingRuns {
  import opened Basics
  import opened HealingTracker

  // ----- Totals

  function Add(a: Counters, b: Counters): Counters {
    Counters(a.itemsHealed + b.itemsHealed, a.itemsFailed + b.itemsFailed, a.bytesDone + b.bytesDone, a.bytesFailed + b.bytesFailed)
  }

  function Wrap(c: Counters): Counters {
    Counters(c.itemsHealed % UINT64, c.itemsFailed % UINT64, c.bytesDone % UINT64, c.bytesFailed % UINT64)
  }

  lemma WrapThenPlus(a: Counters, b: Counters)
    ensures Wrap(a).Plus(b) == Wrap(Add(a, b))
  {
    ModOfSum(a.itemsHealed, b.itemsHealed);
    ModOfSum(a.itemsFailed, b.itemsFailed);
    ModOfSum(a.bytesDone, b.bytesDone);
    ModOfSum(a.bytesFailed, b.bytesFailed);
  }

  lemma AddZero(c: Counters)
    ensures Add(c, ZERO) == c
  {
  }

  lemma WrapZero()
    ensures Wrap(ZERO) == ZERO
  {
  }

  lemma ModOfSum(a: nat, b: nat)
    ensures (a % UINT64 + b) % UINT64 == (a + b) % UINT64
  {
  }

  // ----- Steps

  /** The fields of a tracker. */
  datatype Record<Name> = Record(queued: seq<Name>, healed: seq<Name>, current: Option<Name>,
                                 counters: Counters, resumePoint: Counters)

  datatype Event<Name> =
    | Begin(buckets: seq<Name>)           // the queue is set and saved, a sweep over it starts
    | Enter(bucket: Name)                 // the sweep reaches its next bucket
    | Grow(bucket: Name, gain: Counters)  // objects of the bucket in hand are counted
    | Done(bucket: Name)                  // it is finished
    | GiveUp                              // or could not be listed
    | Save
    | EndSweep                            // nothing is left to visit
    | Reload                              // the saved tracker is loaded, what was in memory is gone

  function Resumed<Name>(r: Record<Name>): Record<Name> {
    r.(counters := r.resumePoint)
  }

  /** What an event does to the tracker in memory. */
  function Apply<Name(==)>(r: Record<Name>, e: Event<Name>): Record<Name> {
    match e
    case Begin(buckets) => r.(queued := NotIn(buckets, r.healed))
    case Enter(b) =>
      // going on with the same bucket keeps its numbers, entering another one drops them
      (if r.current.Some? && r.current.value != b then Resumed(r) else r).(current := Some(b))
    case Grow(_, gain) => r.(counters := r.counters.Plus(gain))
    case Done(b) => r.(queued := WithoutSkipping(r.queued, b), healed := r.healed + [b], resumePoint := r.counters)
    case EndSweep => r.(current := None)
    case GiveUp => r
    case Save => r
    case Reload => r
  }

  /** Where the healer is: the buckets its sweep has yet to visit, and the one in hand. */
  datatype Phase<Name> = Loaded | Sweeping(todo: seq<Name>, hand: Option<Name>) | Ended

  datatype State<Name> = State(memory: Record<Name>, disk: Record<Name>, phase: Phase<Name>)

  function NewTracker<Name>(): Record<Name> {
    Record([], [], None, ZERO, ZERO)
  }

  predicate Enabled<Name(==)>(s: State<Name>, e: Event<Name>) {
    match e
    case Begin(buckets) => s.phase.Loaded? && NoDuplicates(buckets)
    case Enter(b) => s.phase.Sweeping? && s.phase.hand.None? && s.phase.todo != [] && s.phase.todo[0] == b
    case Grow(b, _) => s.phase.Sweeping? && s.phase.hand == Some(b)
    case Done(b) => s.phase.Sweeping? && s.phase.hand == Some(b)
    case GiveUp => s.phase.Sweeping? && s.phase.hand.Some?
    case Save => s.phase.Sweeping?
    case EndSweep => s.phase.Sweeping? && s.phase.hand.None? && s.phase.todo == []
    case Reload => true
  }

  function Step<Name(==)>(s: State<Name>, e: Event<Name>): State<Name>
    requires Enabled(s, e)
  {
    var m := Apply(s.memory, e);
    match e
    case Begin(_) => State(m, m, Sweeping(m.queued, None))
    case Enter(b) => State(m, s.disk, Sweeping(s.phase.todo[1..], Some(b)))
    case Grow(_, _) => s.(memory := m)
    case Done(_) => State(m, s.disk, s.phase.(hand := None))
    case GiveUp => State(m, s.disk, s.phase.(hand := None))
    case Save => State(m, m, s.phase)
    case EndSweep => State(m, s.disk, Ended)
    case Reload => State(s.disk, s.disk, Loaded)
  }

  /** The state after a run of enabled events on a new tracker. */
  function Run<Name(==)>(events: seq<Event<Name>>): Option<State<Name>> {
    if events == [] then Some(State(NewTracker(), NewTracker(), Loaded))
    else
      var before := Run(events[..|events| - 1]);
      if before.None? || !Enabled(before.value, events[|events| - 1]) then None
      else Some(Step(before.value, events[|events| - 1]))
  }

  // ----- What counts

  /** The events whose effect is still there: a reload undoes all since the last save. */
  function Surviving<Name>(events: seq<Event<Name>>): seq<Event<Name>>
    decreases |events|
  {
    if events == [] then []
    else if events[|events| - 1].Reload? then Saved(events[..|events| - 1])
    else Surviving(events[..|events| - 1]) + [events[|events| - 1]]
  }

  /** The events whose effect was saved. */
  function Saved<Name>(events: seq<Event<Name>>): seq<Event<Name>>
    decreases |events|
  {
    if events == [] then []
    else if events[|events| - 1].Save? || events[|events| - 1].Begin? then
      Surviving(events[..|events| - 1]) + [events[|events| - 1]]
    else Saved(events[..|events| - 1])
  }

  function LastEntered<Name>(h: seq<Event<Name>>): Option<Name> {
    if h == [] then None
    else if h[|h| - 1].Enter? then Some(h[|h| - 1].bucket)
    else LastEntered(h[..|h| - 1])
  }

  /** What was counted for bucket `b` since it was last entered from another bucket. */
  function Growth<Name(==)>(h: seq<Event<Name>>, b: Name): Counters {
    if h == [] then ZERO
    else
      var before, e := h[..|h| - 1], h[|h| - 1];
      if e.Grow? && e.bucket == b then Add(Growth(before, b), e.gain)
      else if e.Enter? && e.bucket == b && LastEntered(before) != Some(b) then ZERO
      else Growth(before, b)
  }

  /** The exact total for the given buckets, without wrap-around. */
  function Total<Name(==)>(h: seq<Event<Name>>, buckets: seq<Name>): Counters {
    if buckets == [] then ZERO
    else Add(Total(h, buckets[..|buckets| - 1]), Growth(h, buckets[|buckets| - 1]))
  }

  /** What was counted for a bucket that is entered but not finished. */
  function Unfinished<Name(==)>(h: seq<Event<Name>>, healed: seq<Name>): Counters {
    if LastEntered(h).Some? && LastEntered(h).value !in healed then Growth(h, LastEntered(h).value) else ZERO
  }

  /** What a tracker is after the events `h`. */
  ghost predicate Accounts<Name>(r: Record<Name>, h: seq<Event<Name>>) {
    && NoDuplicates(r.queued) && NoDuplicates(r.healed)
    && (forall b :: b in r.queued ==> b !in r.healed)
    && r.resumePoint == Wrap(Total(h, r.healed))
    && r.counters == Wrap(Add(Total(h, r.healed), Unfinished(h, r.healed)))
  }

  lemma {:induction false} SameTotal<Name>(h: seq<Event<Name>>, h': seq<Event<Name>>, buckets: seq<Name>)
    requires forall b :: b in buckets ==> Growth(h, b) == Growth(h', b)
    ensures Total(h, buckets) == Total(h', buckets)
  {
    if buckets != [] {
      var n := |buckets| - 1;
      assert buckets[n] in buckets && forall b :: b in buckets[..n] ==> b in buckets;
      SameTotal(h, h', buckets[..n]);
    }
  }

  /** One event more: only the bucket it names can count differently. */
  lemma GrowthNext<Name>(h: seq<Event<Name>>, e: Event<Name>, b: Name)
    ensures Growth(h + [e], b) ==
            if e.Grow? && e.bucket == b then Add(Growth(h, b), e.gain)
            else if e.Enter? && e.bucket == b && LastEntered(h) != Some(b) then ZERO
            else Growth(h, b)
    ensures LastEntered(h + [e]) == if e.Enter? then Some(e.bucket) else LastEntered(h)
  {
    assert (h + [e])[..|h|] == h;
  }

  lemma TotalNext<Name>(h: seq<Event<Name>>, e: Event<Name>, buckets: seq<Name>)
    requires e.Grow? || e.Enter? ==> e.bucket !in buckets
    ensures Total(h + [e], buckets) == Total(h, buckets)
  {
    forall b | b in buckets
      ensures Growth(h + [e], b) == Growth(h, b)
    {
      GrowthNext(h, e, b);
    }
    SameTotal(h + [e], h, buckets);
  }

  lemma TotalAppend<Name>(h: seq<Event<Name>>, buckets: seq<Name>, b: Name)
    ensures Total(h, buckets + [b]) == Add(Total(h, buckets), Growth(h, b))
  {
    assert (buckets + [b])[..|buckets|] == buckets;
  }

  // ----- One event

  lemma BeginAccounts<Name>(r: Record<Name>, h: seq<Event<Name>>, buckets: seq<Name>)
    requires Accounts(r, h) && NoDuplicates(buckets)
    ensures Accounts(Apply(r, Begin(buckets)), h + [Begin(buckets)])
  {
    var e := Begin(buckets);
    NotInMembers(buckets, r.healed);
    NotInDistinct(buckets, r.healed);
    TotalNext(h, e, r.healed);
    UnfinishedSame(h, e, r.healed);
    hide Total, Unfinished, NotIn, Wrap, Add;
  }

  lemma UnfinishedSame<Name>(h: seq<Event<Name>>, e: Event<Name>, healed: seq<Name>)
    requires !e.Grow? && !e.Enter?
    ensures Unfinished(h + [e], healed) == Unfinished(h, healed)
  {
    match LastEntered(h)
    case None => assert (h + [e])[..|h|] == h;
    case Some(b) => GrowthNext(h, e, b);
  }

  lemma EnterAccounts<Name>(r: Record<Name>, h: seq<Event<Name>>, b: Name)
    requires Accounts(r, h) && r.current == LastEntered(h) && b !in r.healed
    ensures Accounts(Apply(r, Enter(b)), h + [Enter(b)])
  {
    TotalNext(h, Enter(b), r.healed);
    UnfinishedAfterEnter(h, b, r.healed);
    AddZero(Total(h, r.healed));
    var r' := Apply(r, Enter(b));
    assert r' == r.(current := Some(b), counters := if r.current.Some? && r.current.value != b then r.resumePoint else r.counters);
    assert r.counters == Wrap(Add(Total(h, r.healed), Unfinished(h, r.healed))) && r.resumePoint == Wrap(Total(h, r.healed));
    assert r'.counters == Wrap(Add(Total(h + [Enter(b)], r.healed), Unfinished(h + [Enter(b)], r.healed))) by {
      hide *;
    }
  }

  lemma UnfinishedAfterEnter<Name>(h: seq<Event<Name>>, b: Name, healed: seq<Name>)
    requires b !in healed
    ensures Unfinished(h + [Enter(b)], healed) == if LastEntered(h) == Some(b) then Unfinished(h, healed) else ZERO
    ensures LastEntered(h).None? ==> Unfinished(h, healed) == ZERO
  {
    GrowthNext(h, Enter(b), b);
    hide Growth, LastEntered;
  }

  lemma GrowAccounts<Name>(r: Record<Name>, h: seq<Event<Name>>, b: Name, gain: Counters)
    requires Accounts(r, h) && LastEntered(h) == Some(b) && b !in r.healed
    ensures Accounts(Apply(r, Grow(b, gain)), h + [Grow(b, gain)])
  {
    var e := Grow(b, gain);
    TotalNext(h, e, r.healed);
    GrowthNext(h, e, b);
    var total, growth := Total(h, r.healed), Growth(h, b);
    WrapThenPlus(Add(total, growth), gain);
    assert Add(Add(total, growth), gain) == Add(total, Add(growth, gain));
    hide Total, Growth, LastEntered, Wrap, Add;
  }

  lemma DoneAccounts<Name>(r: Record<Name>, h: seq<Event<Name>>, b: Name)
    requires Accounts(r, h) && LastEntered(h) == Some(b) && b in r.queued
    ensures Accounts(Apply(r, Done(b)), h + [Done(b)])
    ensures Apply(r, Done(b)).queued == Without(r.queued, b)
  {
    var e := Done(b);
    DistinctIsHarmless(r.queued, b);
    WithoutMembers(r.queued, b);
    WithoutKeepsDistinct(r.queued, b);
    TotalNext(h, e, r.healed + [b]);
    TotalAppend(h, r.healed, b);
    GrowthNext(h, e, b);
    AddZero(Total(h, r.healed + [b]));
    hide Total, Growth, LastEntered, Wrap, Add, Without, WithoutSkipping;
  }

  lemma OtherAccounts<Name>(r: Record<Name>, h: seq<Event<Name>>, e: Event<Name>)
    requires Accounts(r, h) && (e.GiveUp? || e.Save? || e.EndSweep?)
    ensures Accounts(Apply(r, e), h + [e])
  {
    TotalNext(h, e, r.healed);
    UnfinishedSame(h, e, r.healed);
    hide Total, Unfinished, Wrap, Add;
  }

  /** The sweep visits queued buckets only, each once. */
  ghost predicate OnCourse<Name>(s: State<Name>) {
    s.phase.Sweeping? ==>
      && NoDuplicates(s.phase.todo)
      && (forall b :: b in s.phase.todo ==> b in s.memory.queued)
      && (s.phase.hand.Some? ==>
            s.phase.hand.value in s.memory.queued && s.phase.hand.value !in s.phase.todo && s.memory.current == s.phase.hand)
  }

  lemma StepOnCourse<Name>(s: State<Name>, e: Event<Name>)
    requires OnCourse(s) && Enabled(s, e) && NoDuplicates(s.memory.queued)
    ensures OnCourse(Step(s, e))
  {
    match e
    case Begin(buckets) => NotInDistinct(buckets, s.memory.healed);
    case Done(b) =>
      DistinctIsHarmless(s.memory.queued, b);
      WithoutMembers(s.memory.queued, b);
    case _ =>
  }

  /** Memory accounts for what survives, disk for what was saved, and the bucket a tracker
      names is the last one entered, until the sweep ends. */
  ghost predicate Sound<Name>(s: State<Name>, survived: seq<Event<Name>>, saved: seq<Event<Name>>) {
    && Accounts(s.memory, survived) && Accounts(s.disk, saved)
    && s.disk.current == LastEntered(saved)
    && s.memory.current == (if s.phase.Ended? then None else LastEntered(survived))
    && OnCourse(s)
  }

  /** The event on memory. */
  lemma MemoryAccounts<Name>(s: State<Name>, h: seq<Event<Name>>, e: Event<Name>)
    requires Accounts(s.memory, h) && OnCourse(s) && Enabled(s, e) && !e.Reload?
    requires !s.phase.Ended? ==> s.memory.current == LastEntered(h)
    ensures Accounts(Apply(s.memory, e), h + [e])
    ensures Apply(s.memory, e).current == if e.EndSweep? then None else LastEntered(h + [e])
  {
    var m := s.memory;
    assert (h + [e])[..|h|] == h;
    match e
    case Begin(buckets) => BeginAccounts(m, h, buckets);
    case Enter(b) => EnterAccounts(m, h, b);
    case Grow(b, gain) => GrowAccounts(m, h, b, gain);
    case Done(b) => DoneAccounts(m, h, b);
    case _ => OtherAccounts(m, h, e);
  }

  // ----- Every run

  lemma StepIsSound<Name>(s: State<Name>, events: seq<Event<Name>>, e: Event<Name>)
    requires Enabled(s, e) && Sound(s, Surviving(events), Saved(events))
    ensures Sound(Step(s, e), Surviving(events + [e]), Saved(events + [e]))
  {
    HistoryNext(events, e);
    hide Accounts, LastEntered, OnCourse, Apply, Surviving, Saved;
    assert NoDuplicates(s.memory.queued) by { QueueIsDistinct(s.memory, Surviving(events)); }
    StepOnCourse(s, e);
    if !e.Reload? {
      MemoryAccounts(s, Surviving(events), e);
    }
  }

  lemma QueueIsDistinct<Name>(r: Record<Name>, h: seq<Event<Name>>)
    requires Accounts(r, h)
    ensures NoDuplicates(r.queued)
  {
  }

  lemma HistoryNext<Name>(events: seq<Event<Name>>, e: Event<Name>)
    ensures Surviving(events + [e]) == if e.Reload? then Saved(events) else Surviving(events) + [e]
    ensures Saved(events + [e]) == if e.Save? || e.Begin? then Surviving(events) + [e] else Saved(events)
  {
    assert (events + [e])[..|events|] == events;
  }

  /** After every run, in memory and on disk: queued and healed buckets are disjoint and
      without repetition, the resume point is the total (modulo 2^64) of what was counted
      for the healed buckets, and the counters add what was counted for the one bucket that
      is entered but not finished. The sweep visits queued, hence unhealed, buckets only. */
  lemma {:induction false} RunIsSound<Name>(events: seq<Event<Name>>)
    requires Run(events).Some?
    ensures Sound(Run(events).value, Surviving(events), Saved(events))
  {
    hide Sound, Surviving, Saved, Step, Enabled;
    if events == [] {
      NewIsSound(events);
    } else {
      var before, e := events[..|events| - 1], events[|events| - 1];
      assert events == before + [e];
      RunIsSound(before);
      StepIsSound(Run(before).value, before, e);
    }
  }

  lemma NothingHappened<Name>(none: seq<Event<Name>>, noBuckets: seq<Name>)
    requires none == [] && noBuckets == []
    ensures Surviving(none) == none && Saved(none) == none && LastEntered(none) == None
    ensures Total(none, noBuckets) == ZERO && Unfinished(none, noBuckets) == ZERO
  {
  }

  lemma NewIsSound<Name>(none: seq<Event<Name>>)
    requires none == []
    ensures Sound(State(NewTracker(), NewTracker(), Loaded), Surviving(none), Saved(none))
  {
    hide Surviving, Saved, Total, Unfinished, LastEntered, Wrap, Add;
    var noBuckets: seq<Name> := NewTracker().healed;
    NothingHappened(none, noBuckets);
    AddZero(ZERO);
    WrapZero();
  }

  /** Rolling back, after any run, leaves exactly the totals of the healed buckets. */
  lemma ResumeCountsHealedBuckets<Name>(events: seq<Event<Name>>)
    requires Run(events).Some?
    ensures var r := Run(events).value.memory;
            Resumed(r).counters == Wrap(Total(Surviving(events), r.healed))
    ensures var r := Run(events).value.memory;
            var c, total := Resumed(r).counters, Total(Surviving(events), r.healed);
            && c.itemsHealed == total.itemsHealed % 18446744073709551616
            && c.itemsFailed == total.itemsFailed % 18446744073709551616
            && c.bytesDone == total.bytesDone % 18446744073709551616
            && c.bytesFailed == total.bytesFailed % 18446744073709551616
  {
    RunIsSound(events);
    hide Run, Surviving, Saved, Total;
  }

  /** Everything that was ever counted for bucket `b`. */
  function Counted<Name(==)>(events: seq<Event<Name>>, b: Name): Counters {
    if events == [] then ZERO
    else
      var before, e := events[..|events| - 1], events[|events| - 1];
      if e.Grow? && e.bucket == b then Add(Counted(before, b), e.gain) else Counted(before, b)
  }

  /** As long as nothing is reloaded, nothing is lost: every count of every bucket is in its
      growth, and a bucket the sweep has yet to visit has none. */
  lemma {:induction false} NothingIsLost<Name>(events: seq<Event<Name>>, b: Name)
    requires Run(events).Some? && Reload !in events
    ensures Surviving(events) == events && Growth(events, b) == Counted(events, b)
    ensures var phase := Run(events).value.phase;
            phase.Loaded? || (phase.Sweeping? && b in phase.todo) ==> Counted(events, b) == ZERO
  {
    if events != [] {
      var before, e := events[..|events| - 1], events[|events| - 1];
      assert events == before + [e];
      NothingIsLost(before, b);
      RunIsSound(before);
      hide Apply, Accounts, Add;
    }
  }

  /** Entering a bucket other than the one the tracker names does that, and going on with
      the same bucket keeps what was counted for it: the counters then are the totals of the
      healed buckets and of the one in hand. */
  lemma InHand<Name>(events: seq<Event<Name>>)
    requires Run(events).Some? && Run(events).value.phase.Sweeping? && Run(events).value.phase.hand.Some?
    ensures var s, h := Run(events).value, Surviving(events);
            && s.phase.hand.value !in s.memory.healed
            && s.memory.counters == Wrap(Total(h, s.memory.healed + [s.phase.hand.value]))
  {
    RunIsSound(events);
    var s, h := Run(events).value, Surviving(events);
    TotalAppend(h, s.memory.healed, s.phase.hand.value);
    hide Run, Surviving, Saved, Total, Growth, LastEntered;
  }

  /** A bucket that is named only by the sweep that ended is counted in memory still, but
      never on disk: a tracker that names no bucket was saved without unfinished counts. */
  lemma SavedWithoutBucket<Name>(events: seq<Event<Name>>)
    requires Run(events).Some? && Run(events).value.disk.current.None?
    ensures Run(events).value.disk.counters == Run(events).value.disk.resumePoint
  {
    RunIsSound(events);
    NothingUnfinished(Run(events).value.disk, Saved(events));
  }

  lemma NothingUnfinished<Name>(r: Record<Name>, h: seq<Event<Name>>)
    requires Accounts(r, h) && LastEntered(h).None?
    ensures r.counters == r.resumePoint
  {
    AddZero(Total(h, r.healed));
    hide Total, LastEntered, Wrap, Add, NoDuplicates;
  }

  /** The saved healed list is a prefix of the one in memory. */
  ghost predicate SavedIsPrefix<Name>(s: State<Name>) {
    s.disk.healed <= s.memory.healed
  }

  lemma StepGrows<Name>(s: State<Name>, e: Event<Name>)
    requires SavedIsPrefix(s) && Enabled(s, e)
    ensures SavedIsPrefix(Step(s, e))
    ensures s.disk.healed <= Step(s, e).disk.healed
    ensures !e.Reload? ==> s.memory.healed <= Step(s, e).memory.healed
  {
  }

  lemma {:induction false} RunKeepsPrefix<Name>(events: seq<Event<Name>>)
    requires Run(events).Some?
    ensures SavedIsPrefix(Run(events).value)
  {
    if events != [] {
      RunKeepsPrefix(events[..|events| - 1]);
      StepGrows(Run(events[..|events| - 1]).value, events[|events| - 1]);
    }
  }

  /** The saved healed list only ever grows; the list in memory falls back at a reload, to
      the saved one. */
  lemma {:induction false} SavedListGrows<Name>(events: seq<Event<Name>>, k: nat)
    requires Run(events).Some? && k <= |events|
    ensures Run(events[..k]).Some?
    ensures Run(events[..k]).value.disk.healed <= Run(events).value.disk.healed
    ensures Reload !in events[k..] ==> Run(events[..k]).value.memory.healed <= Run(events).value.memory.healed
  {
    if k == |events| {
      assert events[..k] == events;
    } else {
      hide Step, Enabled;
      var before, e := events[..|events| - 1], events[|events| - 1];
      assert before[..k] == events[..k];
      assert events[k..] == before[k..] + [e];
      SavedListGrows(before, k);
      RunKeepsPrefix(before);
      StepGrows(Run(before).value, e);
      var s, t, u := Run(events[..k]).value, Run(before).value, Run(events).value;
      hide Run;
      PrefixTransitive(s.disk.healed, t.disk.healed, u.disk.healed);
      if Reload !in events[k..] {
        PrefixTransitive(s.memory.healed, t.memory.healed, u.memory.healed);
      }
    }
  }
}
