/** The object-lock gates (cmd/bucket-object-lock.go) and what they keep together over
    every run of requests on one object version. */
module ObjectLock {
  import opened Basics

  /** `NoMode` is the empty mode, the only one that is not valid. */
  datatype Mode = NoMode | Governance | Compliance

  /** `NoHold` is the absent status; the other two are valid. */
  datatype LegalHold = NoHold | HoldOn | HoldOff

  datatype Retention = Retention(mode: Mode, until: int)

  /** Lock metadata of a stored version; `content` tells one upload from another. */
  datatype Version = Version(content: nat, retention: Retention, hold: LegalHold, deleteMarker: bool)

  /** Reading of the trusted clock, which may fail. */
  type Clock = Option<int>

  datatype Verdict = Allowed | Locked | AccessDenied | Failed

  // ----- The gates

  /** May lifecycle or quota enforcement remove this version? */
  predicate LockedForDeletion(v: Version, now: Clock) {
    if v.deleteMarker then false
    else if v.hold == HoldOn then true
    else if v.retention.mode != NoMode then now.None? || v.retention.until > now.value
    else false
  }

  /** Outcome of looking the version up. */
  datatype Lookup = Found | MethodNotAllowed | NotFound | LookupFailed

  /** A request to delete a version. `permissions` says whether either of the two
      permissions that allow a governance bypass is granted. */
  datatype DeleteRequest = DeleteRequest(optsOk: bool, bypass: bool, permissions: bool)

  function RetentionBypassForDelete(v: Version, purgePending: bool, lookup: Lookup, r: DeleteRequest, now: Clock): Verdict {
    if !r.optsOk then Failed
    else if lookup != Found then
      if lookup == MethodNotAllowed && (v.deleteMarker || purgePending) then Allowed
      else if lookup == NotFound then Allowed
      else Failed
    else if v.hold == HoldOn then Locked
    else
      match v.retention.mode
      case NoMode => Allowed
      case Compliance => UntilPast(v.retention, now)
      case Governance =>
        if !r.bypass then UntilPast(v.retention, now)
        else if !r.permissions then AccessDenied
        else Allowed
  }

  function UntilPast(ret: Retention, now: Clock): Verdict {
    if now.None? || ret.until >= now.value then Locked else Allowed
  }

  /** A request to replace a version's retention; an empty mode asks to clear it.
      `permitted` is the answer of the policy check the gate makes. */
  datatype RetentionRequest = RetentionRequest(retention: Retention, bypass: bool, permitted: bool)

  function RetentionBypassForPut(v: Version, r: RetentionRequest, now: Clock): Verdict {
    if now.None? then Locked
    else
      var ret, policy := v.retention, if r.permitted then Allowed else AccessDenied;
      if ret.mode == NoMode || ret.until < now.value then policy
      else
        match ret.mode
        case Governance =>
          if !r.bypass && (r.retention.mode != Governance || r.retention.until < ret.until) then Locked
          else policy
        case Compliance =>
          if r.retention.mode != Compliance || r.retention.until < ret.until then Locked
          else policy
  }

  /** A bucket's object-lock configuration: default retention when `validity` is positive. */
  datatype BucketLock = BucketLock(lockEnabled: bool, mode: Mode, validity: int)

  /** A header as parsed: absent, malformed, or with a value. */
  datatype Header<+T> = Absent | Malformed | Value(value: T)

  /** An upload: to a given version or not, from replication or not, with its lock headers.
      `permitted` is whether it may set retention. */
  datatype PutRequest = PutRequest(optsOk: bool, versionGiven: bool, replica: bool,
                                   retention: Header<Retention>, hold: Header<LegalHold>, permitted: bool)

  /** Either refused, or admitted with the lock metadata to store. */
  datatype PutVerdict = Refused | Admitted(retention: Retention, hold: LegalHold)

  const NO_RETENTION := Retention(NoMode, 0)

  /** `existing` is the version the request names, when its metadata could be read. */
  function PutObjectLockAllowed(cfg: Option<BucketLock>, existing: Option<Version>, r: PutRequest, now: Clock): PutVerdict {
    if cfg.None? then Refused
    else if !cfg.value.lockEnabled then
      if r.retention.Absent? && r.hold.Absent? then Admitted(NO_RETENTION, NoHold) else Refused
    else if !r.optsOk then Refused
    else if r.versionGiven && !r.replica && existing.Some? then
      var v := existing.value;
      if now.None? then Refused
      else if v.retention.mode == Compliance && v.retention.until > now.value then Refused
      else if v.hold == HoldOn then Refused
      else PutHeaders(cfg.value, r, v.retention, v.hold, now)
    else PutHeaders(cfg.value, r, NO_RETENTION, NoHold, now)
  }

  /** The rest of the gate, once the named version is known not to stand in the way. */
  function PutHeaders(cfg: BucketLock, r: PutRequest, retention: Retention, hold: LegalHold, now: Clock): PutVerdict {
    if r.hold.Malformed? then Admitted(retention, NoHold)  // the wrong error variable is returned, and it is nil
    else
      var hold' := if r.hold.Value? then r.hold.value else hold;
      if !r.retention.Absent? then
        if r.retention.Malformed? || !r.permitted then Refused
        else Admitted(r.retention.value, if r.hold.Value? then r.hold.value else NoHold)
      else if r.replica then Admitted(NO_RETENTION, hold')
      else if cfg.validity > 0 then
        if !r.permitted || now.None? then Refused
        else if r.hold.Absent? then Admitted(Retention(cfg.mode, now.value + cfg.validity), hold')
        else Admitted(NO_RETENTION, hold')
      else Admitted(retention, hold')
  }

  // ----- Runs on one version

  /** `uploads` numbers the uploads made so far. */
  datatype State = State(version: Option<Version>, uploads: nat)

  datatype Request =
    | PutRetention(retention: RetentionRequest)
    | DeleteVersion(delete: DeleteRequest)
    | ExpireVersion
    | Overwrite(put: PutRequest)

  /** One request at one moment; the trusted clock may fail to answer. */
  datatype Event = Event(time: int, clockOk: bool, request: Request) {
    function Now(): Clock {
      if clockOk then Some(time) else None
    }
  }

  /** Effect of one request; metadata reads succeed, and `cfg` is the bucket's lock. */
  function Step(cfg: BucketLock, s: State, e: Event): State {
    match e.request
    case PutRetention(r) =>
      if s.version.None? || RetentionBypassForPut(s.version.value, r, e.Now()) != Allowed then s
      else
        var ret := if r.retention.mode != NoMode then r.retention else NO_RETENTION;
        s.(version := Some(s.version.value.(retention := ret)))
    case DeleteVersion(r) =>
      if s.version.None? then s
      else if RetentionBypassForDelete(s.version.value, false, Found, r, e.Now()) != Allowed then s
      else s.(version := None)
    case ExpireVersion =>
      if s.version.None? || LockedForDeletion(s.version.value, e.Now()) then s else s.(version := None)
    case Overwrite(r) =>
      match PutObjectLockAllowed(Some(cfg), s.version, r, e.Now())
      case Refused => s
      case Admitted(ret, hold) =>
        State(Some(Version(s.uploads, if ret.mode != NoMode then ret else NO_RETENTION, hold, false)), s.uploads + 1)
  }

  function Run(cfg: BucketLock, s: State, events: seq<Event>): State {
    if events == [] then s else Step(cfg, Run(cfg, s, events[..|events| - 1]), events[|events| - 1])
  }

  ghost predicate ClockNeverGoesBack(events: seq<Event>) {
    forall i, j :: 0 <= i < j < |events| ==> events[i].time <= events[j].time
  }

  /** Overwrites that name the version and do not come from replication. */
  predicate DirectOverwrite(r: Request) {
    r.Overwrite? ==> r.put.versionGiven && !r.put.replica
  }

  predicate NoBypass(r: Request) {
    && (r.PutRetention? ==> !r.retention.bypass)
    && (r.DeleteVersion? ==> !r.delete.bypass)
  }

  /** Still the same upload, still in `mode`, until `date` at least. */
  ghost predicate Protected(s: State, content: nat, mode: Mode, date: int) {
    && s.version.Some?
    && s.version.value.content == content < s.uploads
    && s.version.value.retention.mode == mode
    && s.version.value.retention.until >= date
    && !s.version.value.deleteMarker
  }

  // Compliance

  lemma ComplianceStep(cfg: BucketLock, s: State, e: Event, content: nat, date: int)
    requires cfg.lockEnabled && DirectOverwrite(e.request) && e.time < date
    requires Protected(s, content, Compliance, date)
    ensures Protected(Step(cfg, s, e), content, Compliance, date)
  {
  }

  /** A version in compliance mode until `date` stays the same upload, in compliance mode
      and until `date` at least, after every request made before `date`. */
  lemma {:induction false} ComplianceIsKept(cfg: BucketLock, s: State, events: seq<Event>, k: nat, content: nat, date: int)
    requires cfg.lockEnabled && Protected(s, content, Compliance, date)
    requires ClockNeverGoesBack(events) && forall e :: e in events ==> DirectOverwrite(e.request)
    requires k < |events| && events[k].time < date
    ensures Protected(Run(cfg, s, events[..k + 1]), content, Compliance, date)
  {
    var upTo := events[..k + 1];
    assert upTo[..k] == events[..k] && upTo[k] == events[k];
    if k > 0 {
      ComplianceIsKept(cfg, s, events, k - 1, content, date);
    } else {
      assert events[..0] == [];
    }
    assert events[k] in events;
    ComplianceStep(cfg, Run(cfg, s, events[..k]), events[k], content, date);
  }

  /** The gates release a compliance version at two different moments: expiry and every
      overwrite that the rest of its gate admits from the date on, explicit delete, bypass
      or not, and every change that shortens or drops the retention only after it. */
  lemma GatesAroundTheDate(cfg: BucketLock, v: Version, t: int, put: PutRequest, delete: DeleteRequest, change: RetentionRequest)
    requires cfg.lockEnabled && put.versionGiven && !put.replica
    requires v.retention.mode == Compliance && v.hold != HoldOn && !v.deleteMarker
    requires change.retention.mode != Compliance || change.retention.until < v.retention.until
    ensures var until, now := v.retention.until, Some(t);
            && (!LockedForDeletion(v, now) <==> until <= t)
            && (PutObjectLockAllowed(Some(cfg), Some(v), put, now).Admitted? <==>
                until <= t && put.optsOk && PutHeaders(cfg, put, v.retention, v.hold, now).Admitted?)
            && (RetentionBypassForDelete(v, false, Found, delete, now) == Allowed <==> until < t && delete.optsOk)
            && (RetentionBypassForPut(v, change, now) == Allowed <==> until < t && change.permitted)
  {
  }

  // Uploads

  /** The headers of an upload are acceptable. */
  predicate HeadersOk(cfg: BucketLock, r: PutRequest, now: Clock) {
    || r.hold.Malformed?
    || (if r.retention.Absent? then r.replica || cfg.validity <= 0 || (r.permitted && now.Some?)
        else r.retention.Value? && r.permitted)
  }

  /** In a locked bucket an upload is admitted exactly when its options parse, the version it
      names does not stand in the way and its headers are acceptable. Without a lock it is
      admitted, without lock metadata, exactly when it has no lock headers. */
  lemma UploadExactly(cfg: Option<BucketLock>, existing: Option<Version>, r: PutRequest, now: Clock)
    ensures var verdict := PutObjectLockAllowed(cfg, existing, r, now);
            && (cfg.None? ==> verdict == Refused)
            && (cfg.Some? && !cfg.value.lockEnabled ==>
                  verdict == if r.retention.Absent? && r.hold.Absent? then Admitted(NO_RETENTION, NoHold) else Refused)
            && (cfg.Some? && cfg.value.lockEnabled ==>
                  (verdict.Admitted? <==> r.optsOk && !StandsInTheWay(existing, r, now) && HeadersOk(cfg.value, r, now)))
  {
  }

  // Deleting a version

  /** A version that is found may be deleted exactly when it is not under legal hold and its
      retention does not stand in the way: none, or past its date, or in governance mode with
      the bypass header and the permission for it. */
  lemma DeleteExactly(v: Version, purgePending: bool, r: DeleteRequest, now: Clock)
    requires r.optsOk
    ensures var past := now.Some? && v.retention.until < now.value;
            var verdict := RetentionBypassForDelete(v, purgePending, Found, r, now);
            && (verdict == Allowed <==>
                && v.hold != HoldOn
                && ( || v.retention.mode == NoMode
                     || (v.retention.mode == Governance && r.bypass && r.permissions)
                     || (past && !(v.retention.mode == Governance && r.bypass))))
            && (verdict == AccessDenied <==> v.hold != HoldOn && v.retention.mode == Governance && r.bypass && !r.permissions)
            && verdict != Failed
  {
  }

  /** A version that cannot be found: only a delete marker, a pending purge or nothing at all may
      be deleted. */
  lemma DeleteUnfound(v: Version, purgePending: bool, lookup: Lookup, r: DeleteRequest, now: Clock)
    requires lookup != Found
    ensures RetentionBypassForDelete(v, purgePending, lookup, r, now) ==
            if r.optsOk && (lookup == NotFound || (lookup == MethodNotAllowed && (v.deleteMarker || purgePending))) then Allowed else Failed
  {
  }

  /** The retention may be changed exactly by a permitted request that does not weaken it, or
      after its date, or with the bypass header in governance mode; never without a clock. */
  lemma ChangeExactly(v: Version, r: RetentionRequest, now: Clock)
    ensures var open :=
              && now.Some?
              && ( || v.retention.mode == NoMode
                   || v.retention.until < now.value
                   || (r.retention.mode == v.retention.mode && r.retention.until >= v.retention.until)
                   || (v.retention.mode == Governance && r.bypass));
            RetentionBypassForPut(v, r, now) == if !open then Locked else if r.permitted then Allowed else AccessDenied
  {
  }

  /** What a request does to the version when its gate lets it through, and else nothing. */
  lemma StepEffects(cfg: BucketLock, s: State, e: Event)
    requires s.version.Some? && !e.request.Overwrite?
    ensures var v, now := s.version.value, e.Now();
            Step(cfg, s, e) ==
            match e.request
            case PutRetention(r) =>
              if RetentionBypassForPut(v, r, now) != Allowed then s
              else if r.retention.mode == NoMode then s.(version := Some(v.(retention := Retention(NoMode, 0))))
              else s.(version := Some(v.(retention := r.retention)))
            case DeleteVersion(r) => if RetentionBypassForDelete(v, false, Found, r, now) == Allowed then s.(version := None) else s
            case ExpireVersion => if LockedForDeletion(v, now) then s else s.(version := None)
            case Overwrite(_) => s
  {
  }

  /** Expiry leaves alone exactly the versions under legal hold or under retention whose date has
      not come, or cannot be told; never a delete marker. */
  lemma ExpiryExactly(v: Version, now: Clock)
    ensures !LockedForDeletion(v, now) <==>
            || v.deleteMarker
            || (v.hold != HoldOn && (v.retention.mode == NoMode || (now.Some? && v.retention.until <= now.value)))
  {
  }

  // Malformed and lone legal-hold headers

  /** The version the request names, if it is looked up, stands in the way of an upload. */
  predicate StandsInTheWay(existing: Option<Version>, r: PutRequest, now: Clock) {
    && r.versionGiven && !r.replica && existing.Some?
    && ( || now.None?
         || existing.value.hold == HoldOn
         || (existing.value.retention.mode == Compliance && existing.value.retention.until > now.value))
  }

  /** A malformed legal-hold header does not make the gate refuse an upload: it is admitted
      exactly when nothing but the named version could stand in its way, whatever else its
      headers say. It is then stored without a hold, and with the retention of the version it
      names, if that could be read, or none. */
  lemma MalformedHoldIsAdmitted(cfg: BucketLock, existing: Option<Version>, r: PutRequest, now: Clock)
    requires cfg.lockEnabled && r.hold.Malformed?
    ensures var verdict := PutObjectLockAllowed(Some(cfg), existing, r, now);
            && (verdict.Admitted? <==> r.optsOk && !StandsInTheWay(existing, r, now))
            && (verdict.Admitted? ==>
                  && verdict.hold == NoHold
                  && verdict.retention ==
                     if r.versionGiven && !r.replica && existing.Some? then existing.value.retention else NO_RETENTION)
  {
  }

  /** The parser of the retention headers lets only valid modes through. */
  predicate WellParsed(r: PutRequest) {
    r.retention.Value? ==> r.retention.value.mode != NoMode
  }

  /** What an upload that names no version is stored as. */
  function Stored(cfg: BucketLock, r: PutRequest, now: Clock, content: nat): Option<Version> {
    match PutObjectLockAllowed(Some(cfg), None, r, now)
    case Refused => None
    case Admitted(ret, hold) => Some(Version(content, if ret.mode != NoMode then ret else NO_RETENTION, hold, false))
  }

  /** A permitted upload with well-formed headers is stored with exactly the mode and the date
      it asks for, and with the hold it asks for or none. */
  lemma UploadIsStoredAsAsked(cfg: BucketLock, r: PutRequest, now: Clock, content: nat)
    requires cfg.lockEnabled && r.optsOk && !r.versionGiven && WellParsed(r)
    requires r.retention.Value? && r.permitted && !r.hold.Malformed?
    ensures Stored(cfg, r, now, content) ==
            Some(Version(content, r.retention.value, if r.hold.Value? then r.hold.value else NoHold, false))
  {
  }

  /** What every other upload that names no version is stored as, or that it is refused. */
  lemma OtherUploads(cfg: BucketLock, r: PutRequest, now: Clock, content: nat)
    requires cfg.lockEnabled && !r.versionGiven && WellParsed(r)
    ensures var v := Stored(cfg, r, now, content);
            var plain := Version(content, NO_RETENTION, if r.hold.Value? then r.hold.value else NoHold, false);
            && (!r.optsOk ==> v == None)
            && (r.optsOk && r.hold.Malformed? ==> v == Some(plain))
            && (r.optsOk && !r.hold.Malformed? && !r.retention.Absent? ==> (v == None <==> r.retention.Malformed? || !r.permitted))
            && (r.optsOk && !r.hold.Malformed? && r.retention.Absent? ==>
                  if r.replica || cfg.validity <= 0 then v == Some(plain)
                  else if !r.permitted || now.None? then v == None
                  else if r.hold.Absent? then
                    cfg.mode != NoMode ==> v == Some(plain.(retention := Retention(cfg.mode, now.value + cfg.validity)))
                  else v == Some(plain))
  {
  }

  /** An overwrite without retention headers, in a bucket without default retention, keeps the
      retention of the version it replaces, and its hold status unless it brings its own. */
  lemma OverwriteInherits(cfg: BucketLock, s: State, e: Event)
    requires cfg.lockEnabled && cfg.validity <= 0 && s.version.Some? && e.clockOk
    requires e.request.Overwrite? && DirectOverwrite(e.request)
    requires e.request.put.optsOk && e.request.put.retention.Absent? && !e.request.put.hold.Malformed?
    requires !StandsInTheWay(s.version, e.request.put, e.Now())
    ensures var before, after := s.version.value, Step(cfg, s, e).version;
            && after.Some? && after.value.content == s.uploads
            && (before.retention.mode != NoMode ==> after.value.retention == before.retention)
            && after.value.hold == if e.request.put.hold.Value? then e.request.put.hold.value else before.hold
  {
  }

  /** From the moment it is stored, an upload in compliance mode until a date is kept until that
      date: the same content, in compliance mode, and until that date at least. */
  lemma UploadIsKept(cfg: BucketLock, r: PutRequest, now: Clock, uploads: nat, events: seq<Event>, k: nat)
    requires cfg.lockEnabled && r.optsOk && !r.versionGiven && WellParsed(r)
    requires r.retention.Value? && r.retention.value.mode == Compliance && r.permitted && !r.hold.Malformed?
    requires ClockNeverGoesBack(events) && forall e :: e in events ==> DirectOverwrite(e.request)
    requires k < |events| && events[k].time < r.retention.value.until
    ensures Protected(Run(cfg, State(Stored(cfg, r, now, uploads), uploads + 1), events[..k + 1]), uploads, Compliance, r.retention.value.until)
  {
    UploadIsStoredAsAsked(cfg, r, now, uploads);
    ComplianceIsKept(cfg, State(Stored(cfg, r, now, uploads), uploads + 1), events, k, uploads, r.retention.value.until);
  }

  /** The same of an upload that takes the default retention of its bucket, which runs from the
      time of the upload. */
  lemma DefaultIsKept(cfg: BucketLock, r: PutRequest, time: int, uploads: nat, events: seq<Event>, k: nat)
    requires cfg.lockEnabled && cfg.validity > 0 && cfg.mode == Compliance
    requires r.optsOk && !r.versionGiven && !r.replica && r.retention.Absent? && r.hold.Absent? && r.permitted
    requires ClockNeverGoesBack(events) && forall e :: e in events ==> DirectOverwrite(e.request)
    requires k < |events| && events[k].time < time + cfg.validity
    ensures Protected(Run(cfg, State(Stored(cfg, r, Some(time), uploads), uploads + 1), events[..k + 1]), uploads, Compliance, time + cfg.validity)
  {
    OtherUploads(cfg, r, Some(time), uploads);
    ComplianceIsKept(cfg, State(Stored(cfg, r, Some(time), uploads), uploads + 1), events, k, uploads, time + cfg.validity);
  }

  /** In a bucket with default retention a new upload is stored with retention exactly when
      it carries no legal-hold header, or a valid one next to valid retention headers. */
  lemma DefaultRetentionExact(cfg: BucketLock, r: PutRequest, now: Clock, content: nat)
    requires cfg.lockEnabled && cfg.validity > 0 && cfg.mode != NoMode
    requires !r.versionGiven && !r.replica && WellParsed(r)
    requires Stored(cfg, r, now, content).Some?
    ensures Stored(cfg, r, now, content).value.retention.mode != NoMode <==>
            r.hold.Absent? || (r.hold.Value? && r.retention.Value?)
  {
  }

  /** Otherwise it can be deleted at once, by anyone and by expiry, unless its header asked for
      the hold. */
  lemma LostRetentionIsOpen(cfg: BucketLock, r: PutRequest, now: Clock, content: nat, later: Clock, delete: DeleteRequest)
    requires cfg.lockEnabled && cfg.validity > 0 && cfg.mode != NoMode
    requires !r.versionGiven && !r.replica && WellParsed(r)
    requires Stored(cfg, r, now, content).Some? && delete.optsOk
    requires !(r.hold.Absent? || (r.hold.Value? && r.retention.Value?))
    ensures var v := Stored(cfg, r, now, content).value;
            && (RetentionBypassForDelete(v, false, Found, delete, later) == Allowed <==> r.hold != Value(HoldOn))
            && (LockedForDeletion(v, later) <==> r.hold == Value(HoldOn))
  {
    DefaultRetentionExact(cfg, r, now, content);
  }

  /** An instance: a header that reads neither ON nor OFF. */
  lemma MalformedHoldLosesRetention()
    ensures var cfg, put := BucketLock(true, Compliance, 30), PutRequest(true, false, false, Absent, Malformed, true);
            && Stored(cfg, put.(hold := Absent), Some(100), 0) == Some(Version(0, Retention(Compliance, 130), NoHold, false))
            && Stored(cfg, put, Some(100), 0) == Some(Version(0, NO_RETENTION, NoHold, false))
  {
  }

  // Governance

  /** The overwrites the gate lets through on a version not under legal hold, whatever the
      governance date: it looks at the date in compliance mode only. */
  predicate OverwriteOpen(cfg: BucketLock, hold: LegalHold, e: Event) {
    && e.request.Overwrite?
    && var r := e.request.put;
    && r.optsOk && e.clockOk && hold != HoldOn
    && ( || r.hold.Malformed?
         || (if r.retention.Absent? then cfg.validity > 0 ==> r.permitted
             else r.retention.Value? && r.permitted))
  }

  lemma GovernanceStep(cfg: BucketLock, s: State, e: Event, content: nat, hold: LegalHold, date: int)
    requires cfg.lockEnabled && DirectOverwrite(e.request) && NoBypass(e.request) && e.time < date
    requires Protected(s, content, Governance, date) && s.version.value.hold == hold
    ensures Protected(Step(cfg, s, e), content, Governance, date) <==> !OverwriteOpen(cfg, hold, e)
    ensures !OverwriteOpen(cfg, hold, e) ==> Step(cfg, s, e).version.value.hold == hold
  {
  }

  /** An upload that replaced another never gives way to it again. */
  ghost predicate Replaced(s: State, content: nat) {
    content < s.uploads && (s.version.Some? ==> s.version.value.content != content)
  }

  lemma OpenOverwriteReplaces(cfg: BucketLock, s: State, e: Event, content: nat, hold: LegalHold, date: int)
    requires cfg.lockEnabled && DirectOverwrite(e.request) && OverwriteOpen(cfg, hold, e)
    requires Protected(s, content, Governance, date) && s.version.value.hold == hold
    ensures Replaced(Step(cfg, s, e), content)
  {
  }

  lemma ReplacedStays(cfg: BucketLock, s: State, e: Event, content: nat)
    requires Replaced(s, content)
    ensures Replaced(Step(cfg, s, e), content)
  {
  }

  lemma {:induction false} GovernanceRun(cfg: BucketLock, s: State, events: seq<Event>, content: nat, hold: LegalHold, date: int)
    requires cfg.lockEnabled && Protected(s, content, Governance, date) && s.version.value.hold == hold
    requires forall e :: e in events ==> DirectOverwrite(e.request) && NoBypass(e.request) && e.time < date
    ensures var end := Run(cfg, s, events);
            if exists e :: e in events && OverwriteOpen(cfg, hold, e) then Replaced(end, content)
            else Protected(end, content, Governance, date) && end.version.value.hold == hold
  {
    if events != [] {
      var before, e := events[..|events| - 1], events[|events| - 1];
      assert events == before + [e];
      GovernanceRun(cfg, s, before, content, hold, date);
      var mid := Run(cfg, s, before);
      if exists e' :: e' in before && OverwriteOpen(cfg, hold, e') {
        ReplacedStays(cfg, mid, e, content);
      } else {
        GovernanceStep(cfg, mid, e, content, hold, date);
        if OverwriteOpen(cfg, hold, e) {
          OpenOverwriteReplaces(cfg, mid, e, content, hold, date);
        }
      }
    }
  }

  /** Without bypass headers, a version in governance mode until `date` is kept by a run of
      requests before `date` exactly when the run holds no overwrite of the open kind. */
  lemma GovernanceIsKeptExactly(cfg: BucketLock, s: State, events: seq<Event>, content: nat, hold: LegalHold, date: int)
    requires cfg.lockEnabled && Protected(s, content, Governance, date) && s.version.value.hold == hold
    requires forall e :: e in events ==> DirectOverwrite(e.request) && NoBypass(e.request) && e.time < date
    ensures Protected(Run(cfg, s, events), content, Governance, date) <==>
            forall e :: e in events ==> !OverwriteOpen(cfg, hold, e)
  {
    GovernanceRun(cfg, s, events, content, hold, date);
  }

  /** The documentation of the upload gate says that a governance version may be
      overwritten only once its date has passed; a plain overwrite does not wait. */
  lemma GovernanceOverwrittenBeforeDate()
    ensures var s := State(Some(Version(0, Retention(Governance, 100), NoHold, false)), 1);
            var put := PutRequest(true, true, false, Absent, Absent, false);
            Step(BucketLock(true, NoMode, 0), s, Event(50, true, Overwrite(put))).version.value.content == 1
  {
  }

  // Legal hold

  /** Under legal hold a version survives every run, whatever its retention, the dates and
      the bypass headers. */
  lemma {:induction false} LegalHoldIsKept(cfg: BucketLock, s: State, events: seq<Event>, content: nat)
    requires cfg.lockEnabled && forall e :: e in events ==> DirectOverwrite(e.request)
    requires s.version.Some? && s.version.value.content == content
    requires s.version.value.hold == HoldOn && !s.version.value.deleteMarker
    ensures var end := Run(cfg, s, events).version;
            end.Some? && end.value.content == content && end.value.hold == HoldOn && !end.value.deleteMarker
  {
    if events != [] {
      var before := events[..|events| - 1];
      assert events[|events| - 1] in events && forall e :: e in before ==> e in events;
      LegalHoldIsKept(cfg, s, before, content);
    }
  }
}
