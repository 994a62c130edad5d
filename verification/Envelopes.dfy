/** The request envelope: its five bodies, the shape test both directions apply,
    and the canonical encoding the request digest covers.

    Handles are their canonical u64; an absent option carries no value; a
    NULL payload and an empty payload are both the empty blob, which
    the shape test refuses. */
module Envelopes {
  import opened Wrappers
  import opened Bytes
  import opened Codec

  const OP_WRITE_BATCH := 1
  const OP_FINALIZE_BATCH := 2
  const OP_COMMIT_BATCH := 3
  const OP_ROLLBACK_BATCH := 4
  const OP_MARK_ERROR := 5
  const OP_BEGIN_REPAIR := 6
  const OP_PREPARE_REPAIR := 7
  const OP_FINALIZE_REPAIR := 8
  const OP_COMMIT_REPAIR := 9
  const OP_ABORT_REPAIR := 10
  const OP_CLEAR_ERROR := 11
  const OP_UNLOCK := 12
  const OP_RECOVERY_ADMIT := 13
  const OP_LEASE_REAP := 14

  const REPAIR_ERROR := 1
  const REPAIR_NOPRE := 2
  const UNSTABLE := 1
  const FILE_SYNC := 3
  const PHASE_ADMITTED := 1
  const PHASE_ROLLED_BACK := 6
  const CKSUM_CRC32 := 1
  const CKSUM_CRC32C := 2
  const WRITER_RESERVED_LOW := 0
  const WRITER_RESERVED_HIGH := 0xffff_ffff
  const ENVELOPE_MAX := BATCH_PAYLOAD_MAX + 65536

  datatype WriteEntry = WriteEntry(index: u64, payloadId: u32, owner: Owner, expected: Option<Guard>, payload: Blob, checksum: Checksum)
  datatype WriteBatch = WriteBatch(entries: seq<WriteEntry>, stability: u32, activate: bool)

  datatype LifecycleEntry = LifecycleEntry(index: u64, owner: Owner, txn: u64, predecessor: Option<u64>)
  datatype LifecycleBatch = LifecycleBatch(rangeBegin: u64, rangeEnd: u64, entries: seq<LifecycleEntry>, priorVerifier: Verifier)

  datatype RollbackEntry = RollbackEntry(index: u64, owner: Owner, txn: u64, visible: Option<u64>, predecessor: Option<u64>, custody: Option<u64>)
  datatype RollbackBatch = RollbackBatch(rangeBegin: u64, rangeEnd: u64, entries: seq<RollbackEntry>)

  datatype Replacement = Replacement(payload: Blob, checksum: Checksum)
  datatype RepairEntry = RepairEntry(index: u64, mode: u32, owner: Owner, txn: Option<u64>, custody: Option<u64>, postcond: Option<u64>,
                                     successor: Option<u64>, predecessor: Option<u64>, replacement: Option<Replacement>)
  datatype RepairBatch = RepairBatch(rangeBegin: u64, rangeEnd: u64, entries: seq<RepairEntry>, cohort: Option<u64>, episode: Option<u64>,
                                     phase: Option<u32>, verifier: Option<Verifier>, certificate: Option<Certificate>)

  datatype ControlBatch = ControlBatch(txns: seq<u64>, oldAdmission: u64, newAdmission: Option<u64>, readEpoch: Option<u64>)

  datatype Body =
    | Write(write: WriteBatch)
    | Lifecycle(lifecycle: LifecycleBatch)
    | Rollback(rollback: RollbackBatch)
    | Control(control: ControlBatch)
    | Repair(repair: RepairBatch)

  datatype Envelope = Envelope(objKey: ObjKey, admission: u64, incarnation: u64, key: OpKey, op: u32, body: Body)

  // ----- the shape test

  predicate CountOk(n: int) { BATCH_ENTRIES_MIN <= n <= BATCH_ENTRIES_MAX }

  predicate OwnerOk(o: Owner) {
    o.cohort != 0 && o.writer != WRITER_RESERVED_LOW && o.writer != WRITER_RESERVED_HIGH
  }

  predicate ChecksumOk(k: Checksum) {
    (k.alg == CKSUM_CRC32 || k.alg == CKSUM_CRC32C) && |k.digest| == 4
  }

  predicate PayloadOk(b: Blob) { 1 <= |b| <= CHUNK_BYTES_MAX }

  predicate Live(id: Option<u64>) { id.Some? ==> id.value != 0 }

  function WritePayload(es: seq<WriteEntry>): nat {
    if es == [] then 0 else |es[0].payload| + WritePayload(es[1..])
  }

  predicate ValidWrite(w: WriteBatch) {
    && CountOk(|w.entries|) && UNSTABLE <= w.stability <= FILE_SYNC
    && WritePayload(w.entries) <= BATCH_PAYLOAD_MAX
    && (forall i :: 0 <= i < |w.entries| ==>
                      PayloadOk(w.entries[i].payload) && ChecksumOk(w.entries[i].checksum) && OwnerOk(w.entries[i].owner))
    && forall i, j :: 0 <= j < i < |w.entries| ==> w.entries[j].index != w.entries[i].index
  }

  predicate ValidLifecycle(l: LifecycleBatch) {
    && CountOk(|l.entries|) && l.rangeBegin < l.rangeEnd
    && (forall i :: 0 <= i < |l.entries| ==>
                      var e := l.entries[i];
                      l.rangeBegin <= e.index < l.rangeEnd && e.txn != 0 && OwnerOk(e.owner) && Live(e.predecessor))
    && forall i, j :: 0 <= j < i < |l.entries| ==> l.entries[j].index != l.entries[i].index && l.entries[j].txn != l.entries[i].txn
  }

  predicate ValidRollback(r: RollbackBatch) {
    && CountOk(|r.entries|) && r.rangeBegin < r.rangeEnd
    && (forall i :: 0 <= i < |r.entries| ==>
                      var e := r.entries[i];
                      && r.rangeBegin <= e.index < r.rangeEnd && e.txn != 0 && OwnerOk(e.owner)
                      && Live(e.visible) && Live(e.predecessor) && Live(e.custody))
    && forall i, j :: 0 <= j < i < |r.entries| ==> r.entries[j].index != r.entries[i].index && r.entries[j].txn != r.entries[i].txn
  }

  predicate ValidControl(op: u32, k: ControlBatch) {
    && CountOk(|k.txns|) && k.oldAdmission != 0
    && (forall i :: 0 <= i < |k.txns| ==> k.txns[i] != 0)
    && (forall i, j :: 0 <= j < i < |k.txns| ==> k.txns[j] != k.txns[i])
    && if op == OP_RECOVERY_ADMIT then
         k.newAdmission.Some? && k.newAdmission.value != 0 && k.newAdmission.value != k.oldAdmission && k.readEpoch.Some?
       else
         k.newAdmission.None? && k.readEpoch.None?
  }

  predicate ValidRepairEntry(op: u32, r: RepairBatch, e: RepairEntry) {
    var wantsMode := op == OP_BEGIN_REPAIR;
    var wantsTxn := op == OP_PREPARE_REPAIR || op == OP_FINALIZE_REPAIR || op == OP_COMMIT_REPAIR;
    var wantsState := op == OP_MARK_ERROR || op == OP_BEGIN_REPAIR;
    var wantsPredecessor := op == OP_FINALIZE_REPAIR || op == OP_COMMIT_REPAIR;
    && r.rangeBegin <= e.index < r.rangeEnd && OwnerOk(e.owner)
    && (if wantsMode then e.mode == REPAIR_ERROR || e.mode == REPAIR_NOPRE else e.mode == 0)
    && (e.custody.Some? <==> op != OP_PREPARE_REPAIR) && Live(e.custody)
    && (e.txn.Some? <==> wantsTxn) && Live(e.txn)
    && (e.postcond.Some? <==> wantsMode && e.mode == REPAIR_NOPRE) && Live(e.postcond)
    && (e.successor.Some? <==> wantsState) && Live(e.successor)
    && (wantsPredecessor ==> e.predecessor.Some?)
    && (!wantsPredecessor && !wantsState ==> e.predecessor.None?) && Live(e.predecessor)
    && (e.replacement.Some? <==> op == OP_PREPARE_REPAIR)
    && (e.replacement.Some? ==> PayloadOk(e.replacement.value.payload) && ChecksumOk(e.replacement.value.checksum))
  }

  predicate ValidRepair(op: u32, r: RepairBatch) {
    var namesError := exists i :: 0 <= i < |r.entries| && r.entries[i].mode == REPAIR_ERROR;
    && CountOk(|r.entries|) && r.rangeBegin < r.rangeEnd
    && (if op == OP_UNLOCK then r.cohort.Some? != r.episode.Some?
        else && (r.cohort.Some? <==> op != OP_MARK_ERROR && op != OP_BEGIN_REPAIR)
             && (r.episode.Some? <==> op == OP_CLEAR_ERROR || (op == OP_BEGIN_REPAIR && namesError)))
    && Live(r.cohort) && Live(r.episode)
    && (r.certificate.Some? <==> op == OP_CLEAR_ERROR)
    && (r.phase.Some? <==> op == OP_ABORT_REPAIR)
    && (r.phase.Some? ==> PHASE_ADMITTED <= r.phase.value <= PHASE_ROLLED_BACK)
    && (r.verifier.Some? <==> op == OP_FINALIZE_REPAIR || op == OP_COMMIT_REPAIR)
    && (forall i :: 0 <= i < |r.entries| ==> ValidRepairEntry(op, r, r.entries[i]))
    && forall i, j :: 0 <= j < i < |r.entries| ==> r.entries[j].index != r.entries[i].index
  }

  predicate OpKnown(op: u32) { OP_WRITE_BATCH <= op <= OP_LEASE_REAP }

  predicate IsRepair(op: u32) { OP_MARK_ERROR <= op <= OP_UNLOCK }

  predicate Valid(env: Envelope) {
    match env.body
    case Write(w) => env.op == OP_WRITE_BATCH && ValidWrite(w)
    case Lifecycle(l) => (env.op == OP_FINALIZE_BATCH || env.op == OP_COMMIT_BATCH) && ValidLifecycle(l)
    case Rollback(r) => env.op == OP_ROLLBACK_BATCH && ValidRollback(r)
    case Control(k) => (env.op == OP_RECOVERY_ADMIT || env.op == OP_LEASE_REAP) && ValidControl(env.op, k)
    case Repair(r) => IsRepair(env.op) && ValidRepair(env.op, r)
  }

  /** Which options a repair carries, operation by operation, as the request's description
      lists them: a member names just what its operation has a use for. */
  lemma RepairOptions(env: Envelope, i: nat)
    requires Valid(env) && env.body.Repair? && i < |env.body.repair.entries|
    ensures var r, e := env.body.repair, env.body.repair.entries[i];
            && (e.custody.Some? <==> env.op in {5, 6, 8, 9, 10, 11, 12})
            && (e.txn.Some? <==> env.op in {7, 8, 9})
            && (e.replacement.Some? <==> env.op == 7)
            && (e.successor.Some? <==> env.op in {5, 6})
            && (env.op in {8, 9} ==> e.predecessor.Some?) && (env.op in {7, 10, 11, 12} ==> e.predecessor.None?)
            && (e.mode in {1, 2} <==> env.op == 6) && (e.mode == 0 <==> env.op != 6)
            && (e.postcond.Some? <==> env.op == 6 && e.mode == 2)
            && (env.op != 12 ==> (r.cohort.Some? <==> env.op in {7, 8, 9, 10, 11}))
            && (env.op == 12 ==> (r.cohort.Some? <==> r.episode.None?))
            && (env.op == 6 && e.mode == 1 ==> r.episode.Some?)
            && (r.episode.Some? && env.op != 6 ==> env.op in {11, 12}) && (env.op == 11 ==> r.episode.Some?)
            && (r.phase.Some? <==> env.op == 10) && (r.verifier.Some? <==> env.op in {8, 9}) && (r.certificate.Some? <==> env.op == 11)
  {
    assert ValidRepairEntry(env.op, env.body.repair, env.body.repair.entries[i]);
  }

  /** The chunk a member names; a control operation names transactions instead. */
  function Member(body: Body, i: nat): u64
    requires i < Count(body)
  {
    match body
    case Write(w) => w.entries[i].index
    case Lifecycle(l) => l.entries[i].index
    case Rollback(r) => r.entries[i].index
    case Control(k) => k.txns[i]
    case Repair(r) => r.entries[i].index
  }

  /** One to sixteen members, no two the same, under one of the fourteen tags. */
  lemma MembersDiffer(env: Envelope, i: nat, j: nat)
    requires Valid(env) && j < i < Count(env.body)
    ensures Member(env.body, i) != Member(env.body, j)
    ensures 1 <= Count(env.body) <= 16 && 1 <= env.op <= 14
  {}

  // ----- entries

  function PutWriteEntry(e: WriteEntry, t: seq<byte>): seq<byte> {
    PutU64(e.index, PutU32(e.payloadId, PutOwner(e.owner, PutOptGuard(e.expected, PutBytes(e.payload, PutChecksum(e.checksum, t))))))
  }

  function GetWriteEntry(s: seq<byte>): Parse<WriteEntry> {
    var index :- GetU64(s);
    var payloadId :- GetU32(index.rest);
    var owner :- GetOwner(payloadId.rest);
    var expected :- GetOptGuard(owner.rest);
    var payload :- GetBytes(CHUNK_BYTES_MAX, expected.rest);
    var checksum :- GetChecksum(payload.rest);
    Got(WriteEntry(index.value, payloadId.value, owner.value, expected.value, payload.value, checksum.value), checksum.rest)
  }

  predicate WriteEntryFits(e: WriteEntry) { |e.payload| <= CHUNK_BYTES_MAX && |e.checksum.digest| <= 4 }

  function WriteEntrySize(e: WriteEntry): nat {
    41 + (if e.expected.None? then 0 else 9) + |e.payload| + |e.checksum.digest|
  }

  function PutLifecycleEntry(e: LifecycleEntry, t: seq<byte>): seq<byte> {
    PutU64(e.index, PutOwner(e.owner, PutU64(e.txn, PutOptU64(e.predecessor, t))))
  }

  function GetLifecycleEntry(s: seq<byte>): Parse<LifecycleEntry> {
    var index :- GetU64(s);
    var owner :- GetOwner(index.rest);
    var txn :- GetU64(owner.rest);
    var predecessor :- GetOptU64(txn.rest);
    Got(LifecycleEntry(index.value, owner.value, txn.value, predecessor.value), predecessor.rest)
  }

  function LifecycleEntrySize(e: LifecycleEntry): nat { 32 + OptSize(e.predecessor) }

  function PutRollbackEntry(e: RollbackEntry, t: seq<byte>): seq<byte> {
    PutU64(e.index, PutOwner(e.owner, PutU64(e.txn, PutOptU64(e.visible, PutOptU64(e.predecessor, PutOptU64(e.custody, t))))))
  }

  function GetRollbackEntry(s: seq<byte>): Parse<RollbackEntry> {
    var index :- GetU64(s);
    var owner :- GetOwner(index.rest);
    var txn :- GetU64(owner.rest);
    var visible :- GetOptU64(txn.rest);
    var predecessor :- GetOptU64(visible.rest);
    var custody :- GetOptU64(predecessor.rest);
    Got(RollbackEntry(index.value, owner.value, txn.value, visible.value, predecessor.value, custody.value), custody.rest)
  }

  function RollbackEntrySize(e: RollbackEntry): nat {
    32 + OptSize(e.visible) + OptSize(e.predecessor) + OptSize(e.custody)
  }

  function PutReplacement(v: Option<Replacement>, t: seq<byte>): seq<byte> {
    if v.None? then PutBool(false, t) else PutBool(true, PutBytes(v.value.payload, PutChecksum(v.value.checksum, t)))
  }

  function GetReplacement(s: seq<byte>): Parse<Option<Replacement>> {
    var p :- GetBool(s);
    if !p.value then Got(None, p.rest)
    else
      var payload :- GetBytes(CHUNK_BYTES_MAX, p.rest);
      var checksum :- GetChecksum(payload.rest);
      Got(Some(Replacement(payload.value, checksum.value)), checksum.rest)
  }

  predicate ReplacementFits(v: Option<Replacement>) {
    v.Some? ==> |v.value.payload| <= CHUNK_BYTES_MAX && |v.value.checksum.digest| <= 4
  }

  function ReplacementSize(v: Option<Replacement>): nat {
    if v.None? then 1 else 13 + |v.value.payload| + |v.value.checksum.digest|
  }

  /** The optional handles of a repair entry, in order. */
  function PutHandles(e: RepairEntry, t: seq<byte>): seq<byte> {
    PutOptU64(e.txn, PutOptU64(e.custody, PutOptU64(e.postcond, PutOptU64(e.successor, PutOptU64(e.predecessor, t)))))
  }

  function PutRepairEntry(e: RepairEntry, t: seq<byte>): seq<byte> {
    PutU64(e.index, PutU32(e.mode, PutOwner(e.owner, PutHandles(e, PutReplacement(e.replacement, t)))))
  }

  function GetRepairEntry(s: seq<byte>): Parse<RepairEntry> {
    var index :- GetU64(s);
    var mode :- GetU32(index.rest);
    var owner :- GetOwner(mode.rest);
    var txn :- GetOptU64(owner.rest);
    var custody :- GetOptU64(txn.rest);
    var postcond :- GetOptU64(custody.rest);
    var successor :- GetOptU64(postcond.rest);
    var predecessor :- GetOptU64(successor.rest);
    var replacement :- GetReplacement(predecessor.rest);
    Got(RepairEntry(index.value, mode.value, owner.value, txn.value, custody.value, postcond.value, successor.value,
                    predecessor.value, replacement.value), replacement.rest)
  }

  predicate RepairEntryFits(e: RepairEntry) { ReplacementFits(e.replacement) }

  function RepairEntrySize(e: RepairEntry): nat {
    28 + OptSize(e.txn) + OptSize(e.custody) + OptSize(e.postcond) + OptSize(e.successor) + OptSize(e.predecessor)
    + ReplacementSize(e.replacement)
  }

  lemma WriteEntryLaws()
    ensures Lawful(WriteEntryFits, PutWriteEntry, GetWriteEntry)
    ensures forall e: WriteEntry, t: seq<byte> {:trigger PutWriteEntry(e, t)} :: |PutWriteEntry(e, t)| == WriteEntrySize(e) + |t|
  {
    hide PutU32, GetU32, PutU64, GetU64, PutOwner, GetOwner, PutOptGuard, GetOptGuard, PutBytes, GetBytes, PutChecksum, GetChecksum;
    Primitives(); BytesLaws(); Records(); OptGuardLaws();
  }

  lemma LifecycleEntryLaws()
    ensures Lawful(Always<LifecycleEntry>, PutLifecycleEntry, GetLifecycleEntry)
    ensures forall e: LifecycleEntry, t: seq<byte> {:trigger PutLifecycleEntry(e, t)} :: |PutLifecycleEntry(e, t)| == LifecycleEntrySize(e) + |t|
  {
    hide PutU64, GetU64, PutOwner, GetOwner, PutOptU64, GetOptU64;
    Primitives(); Records(); Options();
  }

  lemma RollbackEntryLaws()
    ensures Lawful(Always<RollbackEntry>, PutRollbackEntry, GetRollbackEntry)
    ensures forall e: RollbackEntry, t: seq<byte> {:trigger PutRollbackEntry(e, t)} :: |PutRollbackEntry(e, t)| == RollbackEntrySize(e) + |t|
  {
    hide PutU64, GetU64, PutOwner, GetOwner, PutOptU64, GetOptU64;
    Primitives(); Records(); Options();
  }

  lemma ReplacementLaws()
    ensures forall v: Option<Replacement>, t: seq<byte> {:trigger PutReplacement(v, t)}
              :: ReplacementFits(v) ==> GetReplacement(PutReplacement(v, t)) == Got(v, t)
    ensures forall v: Option<Replacement>, t: seq<byte> {:trigger PutReplacement(v, t)} :: |PutReplacement(v, t)| == ReplacementSize(v) + |t|
    ensures forall s: seq<byte> {:trigger GetReplacement(s)} :: GetReplacement(s).Got?
              ==> ReplacementFits(GetReplacement(s).value) && PutReplacement(GetReplacement(s).value, GetReplacement(s).rest) == s
  {
    hide PutBool, GetBool, PutBytes, GetBytes, PutChecksum, GetChecksum;
    BoolLaws(); BytesLaws(); Records();
  }

  lemma RepairEntryLaws()
    ensures Lawful(RepairEntryFits, PutRepairEntry, GetRepairEntry)
    ensures forall e: RepairEntry, t: seq<byte> {:trigger PutRepairEntry(e, t)} :: |PutRepairEntry(e, t)| == RepairEntrySize(e) + |t|
  {
    hide PutU32, GetU32, PutU64, GetU64, PutOwner, GetOwner, PutOptU64, GetOptU64, PutReplacement, GetReplacement;
    Primitives(); Records(); Options(); ReplacementLaws();
  }

  // ----- bodies

  function PutWrite(w: WriteBatch, t: seq<byte>): seq<byte>
    requires CountOk(|w.entries|)
  {
    PutU32(|w.entries|, PutVec(PutWriteEntry, w.entries, PutU32(w.stability, PutBool(w.activate, t))))
  }

  function GetWrite(s: seq<byte>): Parse<WriteBatch> {
    var n :- GetU32(s);
    if !CountOk(n.value) then Fail
    else
      var es :- GetVec(GetWriteEntry, n.value, n.rest);
      if WritePayload(es.value) > BATCH_PAYLOAD_MAX then Fail
      else
        var stability :- GetU32(es.rest);
        var activate :- GetBool(stability.rest);
        if stability.value < UNSTABLE || stability.value > FILE_SYNC then Fail
        else Got(WriteBatch(es.value, stability.value, activate.value), activate.rest)
  }

  function PutLifecycle(l: LifecycleBatch, t: seq<byte>): seq<byte>
    requires CountOk(|l.entries|)
  {
    PutU64(l.rangeBegin, PutU64(l.rangeEnd, PutU32(|l.entries|, PutVec(PutLifecycleEntry, l.entries, PutRaw(l.priorVerifier, t)))))
  }

  function GetLifecycle(s: seq<byte>): Parse<LifecycleBatch> {
    var lo :- GetU64(s);
    var hi :- GetU64(lo.rest);
    var n :- GetU32(hi.rest);
    if !CountOk(n.value) then Fail
    else
      var es :- GetVec(GetLifecycleEntry, n.value, n.rest);
      var verifier :- GetRaw(8, es.rest);
      Got(LifecycleBatch(lo.value, hi.value, es.value, verifier.value), verifier.rest)
  }

  function PutRollback(r: RollbackBatch, t: seq<byte>): seq<byte>
    requires CountOk(|r.entries|)
  {
    PutU64(r.rangeBegin, PutU64(r.rangeEnd, PutU32(|r.entries|, PutVec(PutRollbackEntry, r.entries, t))))
  }

  function GetRollback(s: seq<byte>): Parse<RollbackBatch> {
    var lo :- GetU64(s);
    var hi :- GetU64(lo.rest);
    var n :- GetU32(hi.rest);
    if !CountOk(n.value) then Fail
    else
      var es :- GetVec(GetRollbackEntry, n.value, n.rest);
      Got(RollbackBatch(lo.value, hi.value, es.value), es.rest)
  }

  function PutControl(k: ControlBatch, t: seq<byte>): seq<byte>
    requires CountOk(|k.txns|)
  {
    PutU32(|k.txns|, PutVec(PutU64, k.txns, PutU64(k.oldAdmission, PutOptU64(k.newAdmission, PutOptU64(k.readEpoch, t)))))
  }

  function GetControl(s: seq<byte>): Parse<ControlBatch> {
    var n :- GetU32(s);
    if !CountOk(n.value) then Fail
    else
      var txns :- GetVec(GetU64, n.value, n.rest);
      var oldAdmission :- GetU64(txns.rest);
      var newAdmission :- GetOptU64(oldAdmission.rest);
      var readEpoch :- GetOptU64(newAdmission.rest);
      Got(ControlBatch(txns.value, oldAdmission.value, newAdmission.value, readEpoch.value), readEpoch.rest)
  }

  function ReplacementPayload(v: Option<Replacement>): nat { if v.None? then 0 else |v.value.payload| }

  function RepairPayload(es: seq<RepairEntry>): nat {
    if es == [] then 0 else ReplacementPayload(es[0].replacement) + RepairPayload(es[1..])
  }

  /** What follows the entries of a repair batch. */
  function PutRepairTail(r: RepairBatch, t: seq<byte>): seq<byte> {
    PutOptU64(r.cohort, PutOptU64(r.episode, PutOptU32(r.phase, PutOptVerifier(r.verifier, PutOptCertificate(r.certificate, t)))))
  }

  function PutRepair(r: RepairBatch, t: seq<byte>): seq<byte>
    requires CountOk(|r.entries|)
  {
    PutU64(r.rangeBegin, PutU64(r.rangeEnd, PutU32(|r.entries|, PutVec(PutRepairEntry, r.entries, PutRepairTail(r, t)))))
  }

  function GetRepairTail(lo: u64, hi: u64, es: seq<RepairEntry>, s: seq<byte>): Parse<RepairBatch> {
    var cohort :- GetOptU64(s);
    var episode :- GetOptU64(cohort.rest);
    var phase :- GetOptU32(episode.rest);
    var verifier :- GetOptVerifier(phase.rest);
    var certificate :- GetOptCertificate(verifier.rest);
    Got(RepairBatch(lo, hi, es, cohort.value, episode.value, phase.value, verifier.value, certificate.value), certificate.rest)
  }

  /** Reads a repair body whose payloads come to no more than `limit` bytes. */
  function GetRepair(limit: nat, s: seq<byte>): Parse<RepairBatch> {
    var lo :- GetU64(s);
    var hi :- GetU64(lo.rest);
    var n :- GetU32(hi.rest);
    if !CountOk(n.value) then Fail
    else
      var es :- GetVec(GetRepairEntry, n.value, n.rest);
      if RepairPayload(es.value) > limit then Fail else GetRepairTail(lo.value, hi.value, es.value, es.rest)
  }

  lemma WriteRoundTrip(w: WriteBatch, t: seq<byte>)
    requires ValidWrite(w)
    ensures GetWrite(PutWrite(w, t)) == Got(w, t)
  {
    hide PutU32, GetU32, PutBool, GetBool, PutVec, GetVec, PutWriteEntry, GetWriteEntry, Lawful;
    Primitives(); WriteEntryLaws();
    GetOfPutVec(WriteEntryFits, PutWriteEntry, GetWriteEntry, w.entries, PutU32(w.stability, PutBool(w.activate, t)));
  }

  lemma WriteCanonical(s: seq<byte>)
    requires GetWrite(s).Got?
    ensures var p := GetWrite(s); CountOk(|p.value.entries|) && PutWrite(p.value, p.rest) == s
  {
    hide PutU32, GetU32, PutBool, GetBool, PutVec, GetVec, PutWriteEntry, GetWriteEntry, Lawful;
    Primitives(); WriteEntryLaws();
    var n := GetU32(s);
    PutOfGetVec(WriteEntryFits, PutWriteEntry, GetWriteEntry, n.value, n.rest);
  }

  lemma LifecycleRoundTrip(l: LifecycleBatch, t: seq<byte>)
    requires ValidLifecycle(l)
    ensures GetLifecycle(PutLifecycle(l, t)) == Got(l, t)
  {
    hide PutU32, GetU32, PutU64, GetU64, PutRaw, GetRaw, PutVec, GetVec, PutLifecycleEntry, GetLifecycleEntry, Lawful;
    Primitives(); LifecycleEntryLaws();
    GetOfPutVec(Always<LifecycleEntry>, PutLifecycleEntry, GetLifecycleEntry, l.entries, PutRaw(l.priorVerifier, t));
  }

  lemma LifecycleCanonical(s: seq<byte>)
    requires GetLifecycle(s).Got?
    ensures var p := GetLifecycle(s); CountOk(|p.value.entries|) && PutLifecycle(p.value, p.rest) == s
  {
    hide PutU32, GetU32, PutU64, GetU64, PutRaw, GetRaw, PutVec, GetVec, PutLifecycleEntry, GetLifecycleEntry, Lawful;
    Primitives(); LifecycleEntryLaws();
    var n := GetU32(GetU64(GetU64(s).rest).rest);
    PutOfGetVec(Always<LifecycleEntry>, PutLifecycleEntry, GetLifecycleEntry, n.value, n.rest);
  }

  lemma RollbackRoundTrip(r: RollbackBatch, t: seq<byte>)
    requires ValidRollback(r)
    ensures GetRollback(PutRollback(r, t)) == Got(r, t)
  {
    hide PutU32, GetU32, PutU64, GetU64, PutVec, GetVec, PutRollbackEntry, GetRollbackEntry, Lawful;
    Primitives(); RollbackEntryLaws();
    GetOfPutVec(Always<RollbackEntry>, PutRollbackEntry, GetRollbackEntry, r.entries, t);
  }

  lemma RollbackCanonical(s: seq<byte>)
    requires GetRollback(s).Got?
    ensures var p := GetRollback(s); CountOk(|p.value.entries|) && PutRollback(p.value, p.rest) == s
  {
    hide PutU32, GetU32, PutU64, GetU64, PutVec, GetVec, PutRollbackEntry, GetRollbackEntry, Lawful;
    Primitives(); RollbackEntryLaws();
    var n := GetU32(GetU64(GetU64(s).rest).rest);
    PutOfGetVec(Always<RollbackEntry>, PutRollbackEntry, GetRollbackEntry, n.value, n.rest);
  }

  lemma ControlRoundTrip(op: u32, k: ControlBatch, t: seq<byte>)
    requires ValidControl(op, k)
    ensures GetControl(PutControl(k, t)) == Got(k, t)
  {
    hide PutU32, GetU32, PutU64, GetU64, PutOptU64, GetOptU64, PutVec, GetVec, Lawful;
    Primitives(); Options(); HandleLaws();
    GetOfPutVec(Always<u64>, PutU64, GetU64, k.txns, PutU64(k.oldAdmission, PutOptU64(k.newAdmission, PutOptU64(k.readEpoch, t))));
  }

  lemma ControlCanonical(s: seq<byte>)
    requires GetControl(s).Got?
    ensures var p := GetControl(s); CountOk(|p.value.txns|) && PutControl(p.value, p.rest) == s
  {
    hide PutU32, GetU32, PutU64, GetU64, PutOptU64, GetOptU64, PutVec, GetVec, Lawful;
    Primitives(); Options(); HandleLaws();
    var n := GetU32(s);
    PutOfGetVec(Always<u64>, PutU64, GetU64, n.value, n.rest);
  }

  lemma RepairTailLaws(r: RepairBatch, t: seq<byte>, lo: u64, hi: u64, es: seq<RepairEntry>, s: seq<byte>)
    ensures GetRepairTail(r.rangeBegin, r.rangeEnd, r.entries, PutRepairTail(r, t)) == Got(r, t)
    ensures var p := GetRepairTail(lo, hi, es, s);
            p.Got? ==> && p.value.rangeBegin == lo && p.value.rangeEnd == hi && p.value.entries == es
                       && PutRepairTail(p.value, p.rest) == s
  {
    hide PutOptU64, GetOptU64, PutOptU32, GetOptU32, PutOptVerifier, GetOptVerifier, PutOptCertificate, GetOptCertificate;
    Options();
  }

  lemma RepairRoundTrip(limit: nat, op: u32, r: RepairBatch, t: seq<byte>)
    requires ValidRepair(op, r) && RepairPayload(r.entries) <= limit
    ensures GetRepair(limit, PutRepair(r, t)) == Got(r, t)
  {
    hide PutU32, GetU32, PutU64, GetU64, PutVec, GetVec, PutRepairEntry, GetRepairEntry, PutRepairTail, GetRepairTail, Lawful;
    Primitives(); RepairEntryLaws();
    GetOfPutVec(RepairEntryFits, PutRepairEntry, GetRepairEntry, r.entries, PutRepairTail(r, t));
    RepairTailLaws(r, t, 0, 0, [], []);
  }

  lemma RepairCanonical(limit: nat, s: seq<byte>)
    requires GetRepair(limit, s).Got?
    ensures var p := GetRepair(limit, s);
            CountOk(|p.value.entries|) && RepairPayload(p.value.entries) <= limit && PutRepair(p.value, p.rest) == s
  {
    hide PutU32, GetU32, PutU64, GetU64, PutVec, GetVec, PutRepairEntry, GetRepairEntry, PutRepairTail, GetRepairTail, Lawful;
    Primitives(); RepairEntryLaws();
    var lo := GetU64(s);
    var hi := GetU64(lo.rest);
    var n := GetU32(hi.rest);
    PutOfGetVec(RepairEntryFits, PutRepairEntry, GetRepairEntry, n.value, n.rest);
    var es := GetVec(GetRepairEntry, n.value, n.rest);
    RepairTailLaws(GetRepair(limit, s).value, [], lo.value, hi.value, es.value, es.rest);
  }

  // ----- the envelope

  function PutBody(body: Body, t: seq<byte>): seq<byte>
    requires CountOk(Count(body))
  {
    match body
    case Write(w) => PutWrite(w, t)
    case Lifecycle(l) => PutLifecycle(l, t)
    case Rollback(r) => PutRollback(r, t)
    case Control(k) => PutControl(k, t)
    case Repair(r) => PutRepair(r, t)
  }

  function Count(body: Body): nat {
    match body
    case Write(w) => |w.entries|
    case Lifecycle(l) => |l.entries|
    case Rollback(r) => |r.entries|
    case Control(k) => |k.txns|
    case Repair(r) => |r.entries|
  }

  lemma ValidCount(env: Envelope)
    requires Valid(env)
    ensures CountOk(Count(env.body))
  {
  }

  /** The payload bytes an envelope carries. */
  function Payload(env: Envelope): nat {
    match env.body
    case Write(w) => WritePayload(w.entries)
    case Repair(r) => RepairPayload(r.entries)
    case _ => 0
  }

  function PutHead(env: Envelope, t: seq<byte>): seq<byte> {
    PutObjKey(env.objKey, PutU64(env.admission, PutU64(env.incarnation, PutOpKey(env.key, PutU32(env.op, t)))))
  }

  /** The canonical encoding of a valid envelope. */
  function Encoding(env: Envelope): seq<byte>
    requires Valid(env)
  {
    PutHead(env, PutBody(env.body, []))
  }

  function GetBody(limit: nat, op: u32, s: seq<byte>): Parse<Body>
    requires OpKnown(op)
  {
    if op == OP_WRITE_BATCH then
      var w :- GetWrite(s);
      Got(Write(w.value), w.rest)
    else if op == OP_FINALIZE_BATCH || op == OP_COMMIT_BATCH then
      var l :- GetLifecycle(s);
      Got(Lifecycle(l.value), l.rest)
    else if op == OP_ROLLBACK_BATCH then
      var r :- GetRollback(s);
      Got(Rollback(r.value), r.rest)
    else if op == OP_RECOVERY_ADMIT || op == OP_LEASE_REAP then
      var k :- GetControl(s);
      Got(Control(k.value), k.rest)
    else
      var r :- GetRepair(limit, s);
      Got(Repair(r.value), r.rest)
  }

  function GetEnvelope(limit: nat, s: seq<byte>): Parse<Envelope> {
    var objKey :- GetObjKey(s);
    var admission :- GetU64(objKey.rest);
    var incarnation :- GetU64(admission.rest);
    var key :- GetOpKey(incarnation.rest);
    var op :- GetU32(key.rest);
    if !OpKnown(op.value) then Fail
    else
      var body :- GetBody(limit, op.value, op.rest);
      Got(Envelope(objKey.value, admission.value, incarnation.value, key.value, op.value, body.value), body.rest)
  }

  /** Decoding with a given bound on repair payloads: one envelope, no trailing byte, a valid shape. */
  function DecodeWithin(limit: nat, s: seq<byte>): Option<Envelope> {
    var p := GetEnvelope(limit, s);
    if p.Fail? || p.rest != [] || !Valid(p.value) then None else Some(p.value)
  }

  function Decoded(s: seq<byte>): Option<Envelope> {
    DecodeWithin(BATCH_PAYLOAD_MAX, s)
  }

  lemma BodyRoundTrip(limit: nat, env: Envelope, t: seq<byte>)
    requires Valid(env) && (env.body.Repair? ==> Payload(env) <= limit)
    ensures GetBody(limit, env.op, PutBody(env.body, t)) == Got(env.body, t)
  {
    hide PutWrite, GetWrite, PutLifecycle, GetLifecycle, PutRollback, GetRollback, PutControl, GetControl, PutRepair, GetRepair;
    match env.body
    case Write(w) => WriteRoundTrip(w, t);
    case Lifecycle(l) => LifecycleRoundTrip(l, t);
    case Rollback(r) => RollbackRoundTrip(r, t);
    case Control(k) => ControlRoundTrip(env.op, k, t);
    case Repair(r) => RepairRoundTrip(limit, env.op, r, t);
  }

  lemma BodyCanonical(limit: nat, op: u32, s: seq<byte>)
    requires OpKnown(op) && GetBody(limit, op, s).Got?
    ensures var p := GetBody(limit, op, s);
            && CountOk(Count(p.value)) && PutBody(p.value, p.rest) == s
            && (p.value.Repair? ==> RepairPayload(p.value.repair.entries) <= limit)
  {
    hide PutWrite, GetWrite, PutLifecycle, GetLifecycle, PutRollback, GetRollback, PutControl, GetControl, PutRepair, GetRepair;
    if op == OP_WRITE_BATCH {
      WriteCanonical(s);
    } else if op == OP_FINALIZE_BATCH || op == OP_COMMIT_BATCH {
      LifecycleCanonical(s);
    } else if op == OP_ROLLBACK_BATCH {
      RollbackCanonical(s);
    } else if op == OP_RECOVERY_ADMIT || op == OP_LEASE_REAP {
      ControlCanonical(s);
    } else {
      RepairCanonical(limit, s);
    }
  }

  lemma EnvelopeRoundTrip(limit: nat, env: Envelope)
    requires Valid(env) && (env.body.Repair? ==> Payload(env) <= limit)
    ensures DecodeWithin(limit, Encoding(env)) == Some(env)
  {
    hide PutU32, GetU32, PutU64, GetU64, PutObjKey, GetObjKey, PutOpKey, GetOpKey, PutBody, GetBody, Payload;
    Primitives(); Records();
    BodyRoundTrip(limit, env, []);
  }

  lemma EnvelopeCanonical(limit: nat, s: seq<byte>)
    requires DecodeWithin(limit, s).Some?
    ensures var env := DecodeWithin(limit, s).value;
            Valid(env) && Encoding(env) == s && (env.body.Repair? ==> Payload(env) <= limit)
  {
    hide PutU32, GetU32, PutU64, GetU64, PutObjKey, GetObjKey, PutOpKey, GetOpKey, PutBody, GetBody, Valid;
    Primitives(); Records();
    var op := GetU32(GetOpKey(GetU64(GetU64(GetObjKey(s).rest).rest).rest).rest);
    BodyCanonical(limit, op.value, op.rest);
  }

  /** The decoder accepts exactly the encodings of the valid envelopes whose
      payloads come to at most 4 MiB, and reads each back as what was encoded. */
  lemma DecodesExactly(s: seq<byte>, env: Envelope)
    ensures Decoded(s) == Some(env) <==> Valid(env) && Payload(env) <= BATCH_PAYLOAD_MAX && Encoding(env) == s
  {
    hide Encoding, DecodeWithin;
    if Decoded(s) == Some(env) {
      EnvelopeCanonical(BATCH_PAYLOAD_MAX, s);
    }
    if Valid(env) && Payload(env) <= BATCH_PAYLOAD_MAX && Encoding(env) == s {
      EnvelopeRoundTrip(BATCH_PAYLOAD_MAX, env);
    }
  }

  /** Two valid envelopes with one encoding are one envelope, whatever they carry. */
  lemma EncodingIsInjective(a: Envelope, b: Envelope)
    requires Valid(a) && Valid(b) && Encoding(a) == Encoding(b)
    ensures a == b
  {
    hide Encoding, DecodeWithin, Valid, Payload;
    var limit := Payload(a) + Payload(b);
    EnvelopeRoundTrip(limit, a);
    EnvelopeRoundTrip(limit, b);
  }

  /** A valid envelope survives the trip exactly when its payloads come to at most
      4 MiB; past that, what the encoder wrote is refused. */
  lemma RoundTripsExactlyWithinLimit(env: Envelope)
    requires Valid(env)
    ensures Decoded(Encoding(env)) == if Payload(env) <= BATCH_PAYLOAD_MAX then Some(env) else None
  {
    hide Encoding, DecodeWithin, Valid, Payload;
    var s := Encoding(env);
    DecodesExactly(s, env);
    if Decoded(s).Some? {
      DecodesExactly(s, Decoded(s).value);
      EncodingIsInjective(env, Decoded(s).value);
    }
  }

  /** Only a repair body can be valid and past the limit. */
  lemma OnlyRepairsExceed(env: Envelope)
    requires Valid(env) && Payload(env) > BATCH_PAYLOAD_MAX
    ensures env.op == OP_PREPARE_REPAIR
  {
    var r := env.body.repair;
    if env.op != OP_PREPARE_REPAIR {
      NoReplacements(env.op, r, r.entries);
    }
  }

  lemma {:induction false} NoReplacements(op: u32, r: RepairBatch, es: seq<RepairEntry>)
    requires op != OP_PREPARE_REPAIR && forall i :: 0 <= i < |es| ==> ValidRepairEntry(op, r, es[i])
    ensures RepairPayload(es) == 0
  {
    if es != [] {
      assert ValidRepairEntry(op, r, es[0]);
      NoReplacements(op, r, es[1..]);
    }
  }

  /** Five whole-chunk replacements pass the shape test, encode, and do not decode. */
  lemma ValidRepairThatDoesNotDecode() returns (env: Envelope)
    ensures Valid(env) && Decoded(Encoding(env)).None?
  {
    hide Encoding, DecodeWithin;
    var chunk: Blob := seq(CHUNK_BYTES_MAX, _ => 0);
    var replacement := Some(Replacement(chunk, Checksum(CKSUM_CRC32, [0, 0, 0, 0])));
    var owner := Owner(1, 1, 0);
    var e := RepairEntry(0, 0, owner, Some(1), None, None, None, None, replacement);
    var es := [e, e.(index := 1), e.(index := 2), e.(index := 3), e.(index := 4)];
    var r := RepairBatch(0, 5, es, Some(1), None, None, None, None);
    var zero: Uuid := seq(16, _ => 0);
    env := Envelope(ObjKey(zero, zero), 1, 1, OpKey(zero, 0, 0), OP_PREPARE_REPAIR, Repair(r));
    assert RepairPayload(es[4..]) == CHUNK_BYTES_MAX;
    assert es[3..][1..] == es[4..] && RepairPayload(es[3..]) == 2 * CHUNK_BYTES_MAX;
    assert es[2..][1..] == es[3..] && RepairPayload(es[2..]) == 3 * CHUNK_BYTES_MAX;
    assert es[1..][1..] == es[2..] && RepairPayload(es[1..]) == 4 * CHUNK_BYTES_MAX;
    RoundTripsExactlyWithinLimit(env);
  }

  // ----- how long an encoding can be

  lemma {:induction false} WriteTotal(es: seq<WriteEntry>)
    requires forall i :: 0 <= i < |es| ==> |es[i].checksum.digest| <= 4
    ensures Total(WriteEntrySize, es) <= WritePayload(es) + 54 * |es|
  {
    if es != [] {
      WriteTotal(es[1..]);
    }
  }

  lemma {:induction false} LifecycleTotal(es: seq<LifecycleEntry>)
    ensures Total(LifecycleEntrySize, es) <= 41 * |es|
  {
    if es != [] {
      LifecycleTotal(es[1..]);
    }
  }

  lemma {:induction false} RollbackTotal(es: seq<RollbackEntry>)
    ensures Total(RollbackEntrySize, es) <= 59 * |es|
  {
    if es != [] {
      RollbackTotal(es[1..]);
    }
  }

  lemma {:induction false} RepairTotal(es: seq<RepairEntry>)
    requires forall i :: 0 <= i < |es| ==> ReplacementFits(es[i].replacement)
    ensures Total(RepairEntrySize, es) <= RepairPayload(es) + 90 * |es|
  {
    if es != [] {
      RepairTotal(es[1..]);
    }
  }

  function RepairTailSize(r: RepairBatch): nat {
    OptSize(r.cohort) + OptSize(r.episode) + (if r.phase.None? then 1 else 5)
    + (if r.verifier.None? then 1 else 9) + (if r.certificate.None? then 1 else 33)
  }

  /** The length of a body's encoding. */
  function BodySize(body: Body): nat {
    match body
    case Write(w) => 9 + Total(WriteEntrySize, w.entries)
    case Lifecycle(l) => 28 + Total(LifecycleEntrySize, l.entries)
    case Rollback(r) => 20 + Total(RollbackEntrySize, r.entries)
    case Control(k) => 12 + Total(HandleSize, k.txns) + OptSize(k.newAdmission) + OptSize(k.readEpoch)
    case Repair(r) => 20 + Total(RepairEntrySize, r.entries) + RepairTailSize(r)
  }

  lemma WriteLength(w: WriteBatch)
    requires CountOk(|w.entries|)
    ensures |PutWrite(w, [])| == 9 + Total(WriteEntrySize, w.entries)
  {
    hide PutU32, PutBool, PutVec, PutWriteEntry, Total, Lawful;
    Primitives(); WriteEntryLaws();
    VecSize(WriteEntrySize, PutWriteEntry, w.entries, PutU32(w.stability, PutBool(w.activate, [])));
  }

  lemma LifecycleLength(l: LifecycleBatch)
    requires CountOk(|l.entries|)
    ensures |PutLifecycle(l, [])| == 28 + Total(LifecycleEntrySize, l.entries)
  {
    hide PutU32, PutU64, PutRaw, PutVec, PutLifecycleEntry, Total, Lawful;
    Primitives(); LifecycleEntryLaws();
    VecSize(LifecycleEntrySize, PutLifecycleEntry, l.entries, PutRaw(l.priorVerifier, []));
  }

  lemma RollbackLength(r: RollbackBatch)
    requires CountOk(|r.entries|)
    ensures |PutRollback(r, [])| == 20 + Total(RollbackEntrySize, r.entries)
  {
    hide PutU32, PutU64, PutVec, PutRollbackEntry, Total, Lawful;
    Primitives(); RollbackEntryLaws();
    VecSize(RollbackEntrySize, PutRollbackEntry, r.entries, []);
  }

  lemma ControlLength(k: ControlBatch)
    requires CountOk(|k.txns|)
    ensures |PutControl(k, [])| == 12 + Total(HandleSize, k.txns) + OptSize(k.newAdmission) + OptSize(k.readEpoch)
  {
    hide PutU32, PutU64, PutOptU64, PutVec, Total;
    Primitives(); Options();
    VecSize(HandleSize, PutU64, k.txns, PutU64(k.oldAdmission, PutOptU64(k.newAdmission, PutOptU64(k.readEpoch, []))));
  }

  lemma RepairLength(r: RepairBatch)
    requires CountOk(|r.entries|)
    ensures |PutRepair(r, [])| == 20 + Total(RepairEntrySize, r.entries) + RepairTailSize(r)
  {
    hide PutU32, PutU64, PutVec, PutRepairEntry, Total, Lawful, PutOptU64, PutOptU32, PutOptVerifier, PutOptCertificate;
    Primitives(); RepairEntryLaws(); Options();
    VecSize(RepairEntrySize, PutRepairEntry, r.entries, PutRepairTail(r, []));
  }

  lemma BodyLength(body: Body)
    requires CountOk(Count(body))
    ensures |PutBody(body, [])| == BodySize(body)
  {
    hide PutWrite, PutLifecycle, PutRollback, PutControl, PutRepair, RepairTailSize, Total;
    match body
    case Write(w) => WriteLength(w);
    case Lifecycle(l) => LifecycleLength(l);
    case Rollback(r) => RollbackLength(r);
    case Control(k) => ControlLength(k);
    case Repair(r) => RepairLength(r);
  }

  const FRAMING := 1525

  lemma BodyFraming(env: Envelope)
    requires Valid(env)
    ensures BodySize(env.body) <= Payload(env) + FRAMING
  {
    hide Total;
    match env.body
    case Write(w) => WriteTotal(w.entries);
    case Lifecycle(l) => LifecycleTotal(l.entries);
    case Rollback(r) => RollbackTotal(r.entries);
    case Control(k) => HandleTotal(k.txns);
    case Repair(r) => RepairTotal(r.entries);
  }

  /** An encoding is never empty, and the declared buffer holds every one that decodes. */
  lemma EncodingFits(env: Envelope)
    requires Valid(env)
    ensures 80 <= |Encoding(env)| <= Payload(env) + 80 + FRAMING
    ensures Payload(env) <= BATCH_PAYLOAD_MAX ==> |Encoding(env)| <= ENVELOPE_MAX
  {
    hide PutU32, PutU64, PutObjKey, PutOpKey, PutBody, Payload;
    Primitives(); Records();
    BodyLength(env.body);
    BodyFraming(env);
  }
}
