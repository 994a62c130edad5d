/** The write-ahead log from both ends: what STARTs and appends write, the scan
    accepts, over every run and up to the byte where a crash cuts the last write. */
module WalLog {
  import opened Wrappers
  import opened Bytes
  import opened WalScan
  import WalSpace

  const U64_MAX := 0xffff_ffff_ffff_ffff

  /** A store's log and the fields that decide its next record. */
  datatype Store = Store(log: seq<byte>, nextLsn: nat, incarnation: nat, payloadCursor: nat)

  datatype Event =
    | Append(family: u16, body: seq<byte>)
    | Start(decision: u32, truncated: u64, changed: bool, epoch: u64, reserved: u64, outstanding: u64, staged: u64)

  function Space(env: Env, st: Store): WalSpace.State {
    WalSpace.State(env.capacityWal, |st.log|, st.incarnation)
  }

  /** Values the record formats can carry. */
  predicate InRange(env: Env, st: Store) {
    && env.capacityWal < U64_MAX && env.capacityPayload <= U64_MAX
    && |st.log| <= env.capacityWal && st.nextLsn <= |st.log| + 1 && st.payloadCursor <= env.capacityPayload
    && st.incarnation <= MAX_INCARNATION
  }

  /** The START the source fills in from the state of the store. */
  function StartFields(env: Env, st: Store, e: Event): StartBody
    requires e.Start? && InRange(env, st) && WalSpace.CanStart(Space(env, st))
  {
    StartBody(FORMAT_VERSION, st.incarnation + 1, st.incarnation, e.epoch, e.changed, e.decision, e.truncated,
              if st.nextLsn == 0 then 0 else st.nextLsn - 1, |st.log| + START_BYTES, st.payloadCursor,
              env.capacityWal, env.capacityPayload, env.exportUuid, e.reserved, e.outstanding, e.staged)
  }

  /** What the writer itself tests: room, and a record it can encode. */
  predicate Accepts(env: Env, st: Store, e: Event) {
    && InRange(env, st)
    && match e
       case Append(family, body) =>
         && FAMILY_START < family <= FAMILY_COHORT && HEADER_BYTES + |body| + 4 <= MAX_RECORD
         && WalSpace.CanAppend(Space(env, st), HEADER_BYTES + |body| + 4, 0)
       case Start(_, _, _, _, _, _, _) =>
         && WalSpace.CanStart(Space(env, st)) && PAYLOAD_ALIGN <= st.payloadCursor
         && DecisionOk(StartFields(env, st, e))
  }

  function RecordOf(env: Env, st: Store, e: Event): seq<byte>
    requires Accepts(env, st, e)
  {
    if e.Append? then Encoded(env, e.family, st.nextLsn, st.incarnation, e.body)
    else StartRecord(env, StartFields(env, st, e), st.nextLsn)
  }

  function HeaderOf(env: Env, st: Store, e: Event): Header
    requires Accepts(env, st, e)
  {
    if e.Append? then Header(e.family, HEADER_BYTES + |e.body| + 4, st.nextLsn, st.incarnation)
    else Header(FAMILY_START, START_BYTES, st.nextLsn, st.incarnation + 1)
  }

  /** The record's body, payloads and meaning are ones the reader will accept. */
  predicate Readable(env: Env, st: Store, e: Event)
    requires Accepts(env, st, e)
  {
    var rec := RecordOf(env, st, e);
    && (e.Append? ==> env.bodyOk(rec)) && env.payloadsMatch(rec) && env.accept(st.log, rec)
    && env.payloadEnd(rec) <= env.capacityPayload && (env.payloadEnd(rec) == 0 || env.payloadEnd(rec) >= PAYLOAD_ALIGN)
  }

  function After(env: Env, st: Store, e: Event): Store {
    if !Accepts(env, st, e) then st
    else
      var rec := RecordOf(env, st, e);
      var end := env.payloadEnd(rec);
      Store(st.log + rec, st.nextLsn + 1, if e.Start? then st.incarnation + 1 else st.incarnation,
            if st.payloadCursor < end then end else st.payloadCursor)
  }

  /** The cursor of a scan that stands where the store does. */
  function CurOf(st: Store, sawStart: bool, count: nat): Cur {
    Cur(|st.log|, st.nextLsn, st.incarnation, st.payloadCursor, sawStart, count)
  }

  /** The scan of the log ends clean, exactly at the state of the store. */
  ghost predicate InStep(env: Env, st: Store) {
    && InRange(env, st) && st.nextLsn >= 2 && st.incarnation >= 1 && st.payloadCursor >= PAYLOAD_ALIGN
    && ScanAll(env, st.log) == Scanned(Clean, |st.log|, 0, st.nextLsn - 1, st.incarnation, st.payloadCursor, st.nextLsn - 1)
    && EndOf(env, st.log, START) == CurOf(st, true, st.nextLsn - 1)
  }

  lemma RecordDecodes(env: Env, st: Store, e: Event)
    requires Accepts(env, st, e) && Readable(env, st, e) && st.nextLsn >= 1 && (e.Append? ==> st.incarnation >= 1)
    ensures var rec, h := RecordOf(env, st, e), HeaderOf(env, st, e);
            Decode(env, rec) == Some(h) && |rec| == h.total >= HEADER_BYTES + 4
    ensures e.Start? ==> StartOf(HeaderOf(env, st, e), RecordOf(env, st, e)) == Some(StartFields(env, st, e))
    ensures e.Start? ==> var b := StartFields(env, st, e);
                         && b.decision == e.decision && b.truncatedBytes == e.truncated && b.verifierChanged == e.changed
                         && b.verifierEpoch == e.epoch && b.liveWalReserved == e.reserved
                         && b.livePayloadOutstanding == e.outstanding && b.livePayloadStaged == e.staged
  {
    hide Decode, Encoded, StartRecord, StartOf, DecisionOk;
    if e.Append? {
      BodyDecodes(env, e.family, st.nextLsn, st.incarnation, e.body);
    } else {
      StartDecodes(env, StartFields(env, st, e), st.nextLsn);
    }
  }

  /** The scan takes the record the writer wrote, and arrives at the writer's next state. */
  lemma ScanTakesIt(env: Env, st: Store, e: Event, c: Cur)
    requires Accepts(env, st, e) && Readable(env, st, e) && st.nextLsn >= 1 && (e.Append? ==> st.incarnation >= 1 && c.sawStart)
    requires c == CurOf(st, c.sawStart, c.count)
    ensures Take(env, st.log, RecordOf(env, st, e), HeaderOf(env, st, e), c) == Some(CurOf(After(env, st, e), true, c.count + 1))
  {
    hide Decode, Encoded, StartRecord, StartOf, DecisionOk;
    RecordDecodes(env, st, e);
  }

  lemma StaysInRange(env: Env, st: Store, e: Event)
    requires Accepts(env, st, e) && Readable(env, st, e) && st.nextLsn >= 1 && (e.Append? ==> st.incarnation >= 1)
    ensures InRange(env, After(env, st, e))
  {
    hide Decode, Encoded, StartRecord, StartOf, DecisionOk, WalSpace.Required;
    RecordDecodes(env, st, e);
  }

  lemma EventKeepsStep(env: Env, st: Store, e: Event)
    requires InStep(env, st) && (Accepts(env, st, e) ==> Readable(env, st, e))
    ensures InStep(env, After(env, st, e))
  {
    hide Decode, RecordOf, HeaderOf, ScanAll, EndOf, Take, Accepts, Readable, InRange;
    if Accepts(env, st, e) {
      hide After;
      AfterFields(env, st, e);
      RecordDecodes(env, st, e);
      ScanTakesIt(env, st, e, EndOf(env, st.log, START));
      WholeAppend(env, st.log, RecordOf(env, st, e), HeaderOf(env, st, e));
      StaysInRange(env, st, e);
    }
  }

  // ----- runs

  function Run(env: Env, st: Store, events: seq<Event>): Store
    decreases |events|
  {
    if events == [] then st else Run(env, After(env, st, events[0]), events[1..])
  }

  /** Every record the run writes is readable where it is written. */
  predicate AllReadable(env: Env, st: Store, events: seq<Event>)
    decreases |events|
  {
    events == []
    || ((Accepts(env, st, events[0]) ==> Readable(env, st, events[0])) && AllReadable(env, After(env, st, events[0]), events[1..]))
  }

  /** Over every run of STARTs and appends, refused ones included, the log scans
      clean, with the writer's own LSN, incarnation and cursors. */
  lemma {:induction false} RunScansClean(env: Env, st: Store, events: seq<Event>)
    requires InStep(env, st) && AllReadable(env, st, events)
    ensures InStep(env, Run(env, st, events))
    decreases |events|
  {
    hide InStep, After, Accepts, Readable;
    if events != [] {
      EventKeepsStep(env, st, events[0]);
      RunScansClean(env, After(env, st, events[0]), events[1..]);
    }
  }

  /** The empty store that provisioning starts from. */
  predicate Unprovisioned(st: Store) {
    st.log == [] && st.nextLsn == 1 && st.incarnation == 0 && st.payloadCursor == PAYLOAD_ALIGN
  }

  lemma FirstStart(env: Env, st: Store, e: Event)
    requires Unprovisioned(st) && e.Start? && Accepts(env, st, e) && Readable(env, st, e)
    ensures InStep(env, After(env, st, e))
  {
    hide Decode, RecordOf, HeaderOf, StartFields, StartOf, Take, Accepts, Readable, InRange, After, InStep, Unprovisioned;
    FirstLsn(st);
    RecordDecodes(env, st, e);
    ScanTakesIt(env, st, e, CurOf(st, false, 0));
    StaysInRange(env, st, e);
    AfterFields(env, st, e);
    FirstStep(env, st, After(env, st, e), RecordOf(env, st, e), HeaderOf(env, st, e));
  }

  lemma FirstLsn(st: Store)
    requires Unprovisioned(st)
    ensures st.nextLsn == 1
  {}

  lemma FirstStep(env: Env, st: Store, after: Store, rec: seq<byte>, h: Header)
    requires Unprovisioned(st) && InRange(env, after) && after.log == st.log + rec && after.nextLsn == st.nextLsn + 1
    requires after.incarnation == st.incarnation + 1 && after.payloadCursor >= st.payloadCursor
    requires Decode(env, rec) == Some(h) && |rec| == h.total
    requires Take(env, st.log, rec, h, CurOf(st, false, 0)) == Some(CurOf(after, true, 1))
    ensures InStep(env, after)
  {
    hide Decode, ScanAll, EndOf, Take, InRange;
    assert after.log == rec && CurOf(st, false, 0) == START;
    FirstRecord(env, rec, h, CurOf(after, true, 1));
  }

  lemma AfterFields(env: Env, st: Store, e: Event)
    requires Accepts(env, st, e)
    ensures var after := After(env, st, e);
            && after.log == st.log + RecordOf(env, st, e) && after.nextLsn == st.nextLsn + 1
            && after.incarnation == (if e.Start? then st.incarnation + 1 else st.incarnation)
            && after.payloadCursor >= st.payloadCursor
  {
    hide Accepts, RecordOf;
  }

  /** From provisioning on: whatever STARTs and appends follow the first START, the
      log scans clean and the scan returns the store's own counters. */
  lemma EveryRunScansClean(env: Env, st: Store, first: Event, events: seq<Event>)
    requires Unprovisioned(st) && first.Start? && Accepts(env, st, first) && AllReadable(env, st, [first] + events)
    ensures var end := Run(env, st, [first] + events);
            && InStep(env, end) && end.nextLsn >= 2
            && ScanAll(env, end.log) == Scanned(Clean, |end.log|, 0, end.nextLsn - 1, end.incarnation, end.payloadCursor, end.nextLsn - 1)
  {
    var all := [first] + events;
    assert all[0] == first && all[1..] == events;
    hide InStep, After, Accepts, Readable, ScanAll;
    FirstStart(env, st, first);
    RunScansClean(env, After(env, st, first), events);
    StepMeans(env, Run(env, st, all));
  }

  lemma StepMeans(env: Env, st: Store)
    requires InStep(env, st)
    ensures st.nextLsn >= 2
    ensures ScanAll(env, st.log) == Scanned(Clean, |st.log|, 0, st.nextLsn - 1, st.incarnation, st.payloadCursor, st.nextLsn - 1)
  {
    hide ScanAll, EndOf;
  }

  /** A crash after r bytes of the next record, in any reachable state: nothing or
      everything is the store before or after; a cut inside the header is
      recovered to the store before; a later cut fences. */
  lemma CrashInWrite(env: Env, st: Store, e: Event, r: nat)
    requires InStep(env, st) && Accepts(env, st, e) && Readable(env, st, e) && r <= |RecordOf(env, st, e)|
    ensures var rec, after := RecordOf(env, st, e), After(env, st, e);
            ScanAll(env, st.log + rec[..r])
            == if r == 0 then ScanAll(env, st.log)
               else if r < HEADER_BYTES then ScanAll(env, st.log).(tail := Incomplete, truncated := r)
               else if r < |rec| then Fenced(Unparseable)
               else ScanAll(env, after.log)
  {
    hide Decode, RecordOf, HeaderOf, ScanAll, EndOf, Take, Accepts, Readable, InRange;
    var rec := RecordOf(env, st, e);
    RecordDecodes(env, st, e);
    if r == 0 {
      assert st.log + rec[..0] == st.log;
    } else if r == |rec| {
      assert rec[..r] == rec;
    } else {
      TornAppend(env, st.log, rec, HeaderOf(env, st, e), r);
    }
  }

  // ----- the space rule applies to these runs

  function SpaceEvent(e: Event): WalSpace.Event {
    if e.Append? then WalSpace.Append(HEADER_BYTES + |e.body| + 4, 0) else WalSpace.Start
  }

  /** A record the formats can carry is accepted exactly when the space rule accepts it, and takes the same room. */
  lemma SpaceFollows(env: Env, st: Store, e: Event)
    requires InRange(env, st) && st.nextLsn >= 1 && st.incarnation >= 1 && (Accepts(env, st, e) ==> Readable(env, st, e))
    requires e.Append? ==> FAMILY_START < e.family <= FAMILY_COHORT && HEADER_BYTES + |e.body| + 4 <= MAX_RECORD
    requires e.Start? && WalSpace.CanStart(Space(env, st)) ==> PAYLOAD_ALIGN <= st.payloadCursor && DecisionOk(StartFields(env, st, e))
    ensures Space(env, After(env, st, e)) == WalSpace.After(Space(env, st), SpaceEvent(e))
  {
    hide Decode, Encoded, StartRecord, StartOf, DecisionOk, WalSpace.Required;
    if Accepts(env, st, e) {
      RecordDecodes(env, st, e);
    }
  }

  // ----- one store, to the byte

  /** A reader that accepts every body, on a log of the minimum size. */
  ghost predicate Permissive(env: Env) {
    && env.capacityWal == WalSpace.MIN_WAL_BYTES && env.capacityPayload == 2 * PAYLOAD_ALIGN
    && (forall s: seq<byte> :: env.bodyOk(s)) && (forall s: seq<byte> :: env.payloadsMatch(s))
    && (forall s: seq<byte>, t: seq<byte> :: env.accept(s, t)) && (forall s: seq<byte> :: env.payloadEnd(s) == 0)
  }

  lemma PermissiveReads(env: Env, st: Store, e: Event)
    requires Permissive(env) && Accepts(env, st, e)
    ensures Readable(env, st, e)
  {
    hide Accepts, RecordOf;
  }

  lemma FirstAccepted(env: Env, st: Store, first: Event)
    requires Permissive(env) && Unprovisioned(st) && first == Start(FIRST_PROVISION, 0, false, 0, 0, 0, 0)
    ensures Accepts(env, st, first)
  {
  }

  lemma SmallAppendAccepted(env: Env, st: Store, e: Event)
    requires Permissive(env) && InRange(env, st) && st.incarnation == 1 && |st.log| == START_BYTES
    requires e == Append(FAMILY_COHORT, [])
    ensures Accepts(env, st, e)
  {
  }

  /** The family is not empty: a provisioned log and a 76-byte record after it.
      Cut after 71 bytes the append is recovered, after 72 it fences the store. */
  lemma TornAppendOnDisk(env: Env, st0: Store, first: Event, e: Event)
    requires Permissive(env) && Unprovisioned(st0) && first == Start(FIRST_PROVISION, 0, false, 0, 0, 0, 0)
    requires e == Append(FAMILY_COHORT, [])
    ensures Accepts(env, st0, first)
    ensures var st := After(env, st0, first);
            && Accepts(env, st, e) && |RecordOf(env, st, e)| == 76
            && ScanAll(env, st.log) == Scanned(Clean, 197, 0, 1, 1, 4096, 1)
            && ScanAll(env, st.log + RecordOf(env, st, e)[..71]) == Scanned(Incomplete, 197, 71, 1, 1, 4096, 1)
            && ScanAll(env, st.log + RecordOf(env, st, e)[..72]) == Fenced(Unparseable)
  {
    hide Decode, RecordOf, HeaderOf, StartFields, StartOf, Take, Accepts, Readable, InRange, InStep, ScanAll, Permissive, Unprovisioned, After;
    FirstAccepted(env, st0, first);
    PermissiveReads(env, st0, first);
    FirstStart(env, st0, first);
    var st := After(env, st0, first);
    FirstLog(env, st0, first);
    StepMeans(env, st);
    SmallAppendAccepted(env, st, e);
    PermissiveReads(env, st, e);
    RecordLength(env, st, e);
    CrashInWrite(env, st, e, 71);
    CrashInWrite(env, st, e, 72);
  }

  lemma FirstLog(env: Env, st: Store, first: Event)
    requires Permissive(env) && Unprovisioned(st) && first.Start? && Accepts(env, st, first)
    ensures var after := After(env, st, first);
            |after.log| == START_BYTES && after.incarnation == 1 && after.nextLsn == 2 && after.payloadCursor == PAYLOAD_ALIGN
    ensures InRange(env, After(env, st, first))
  {
    hide Decode, Encoded, StartRecord, StartOf, DecisionOk, RecordOf, HeaderOf, Accepts, Readable, InRange;
    PermissiveReads(env, st, first);
    RecordDecodes(env, st, first);
    StaysInRange(env, st, first);
    StartHeader(env, st, first);
  }

  lemma StartHeader(env: Env, st: Store, e: Event)
    requires Accepts(env, st, e)
    ensures HeaderOf(env, st, e).total == if e.Start? then START_BYTES else HEADER_BYTES + |e.body| + 4
  {
    hide Accepts;
  }

  lemma RecordLength(env: Env, st: Store, e: Event)
    requires Accepts(env, st, e) && Readable(env, st, e) && st.nextLsn >= 1 && st.incarnation >= 1 && e.Append?
    ensures |RecordOf(env, st, e)| == HEADER_BYTES + |e.body| + 4
  {
    hide Decode, RecordOf, HeaderOf, Accepts, Readable;
    RecordDecodes(env, st, e);
    StartHeader(env, st, e);
  }

  /** Such a reader exists. */
  lemma PermissiveExists() returns (env: Env)
    ensures Permissive(env)
  {
    var zero: Uuid := seq(16, _ => 0);
    env := Env(_ => 0, _ => true, _ => true, (_, _) => true, _ => 0, zero, zero, zero, WalSpace.MIN_WAL_BYTES, 2 * PAYLOAD_ALIGN);
  }

  /** The same, closed: a log on disk and a record whose torn tail of 72 bytes fences it. */
  lemma TornAppendWitness() returns (env: Env, log: seq<byte>, rec: seq<byte>)
    ensures |rec| == 76 && ScanAll(env, log) == Scanned(Clean, 197, 0, 1, 1, 4096, 1)
    ensures ScanAll(env, log + rec[..71]) == Scanned(Incomplete, 197, 71, 1, 1, 4096, 1)
    ensures ScanAll(env, log + rec[..72]) == Fenced(Unparseable)
  {
    hide ScanAll, RecordOf, After, Accepts, Permissive;
    env := PermissiveExists();
    var st0 := Store([], 1, 0, PAYLOAD_ALIGN);
    var first, e := Start(FIRST_PROVISION, 0, false, 0, 0, 0, 0), Append(FAMILY_COHORT, []);
    TornAppendOnDisk(env, st0, first, e);
    var st := After(env, st0, first);
    log, rec := st.log, RecordOf(env, st, e);
  }
}
