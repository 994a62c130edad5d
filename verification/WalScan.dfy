/** The recovery scan of the D2 write-ahead log: decode records from the start,
    check the chain of LSNs and incarnations, and classify what is left over.

    START records are modelled to the byte.  Checksums, the body decoders of the
    other families, payload lookups and the caller's callback are parameters
    that see exactly the bytes of one record and those before it. */
module WalScan {
  import Basics
  import opened Bytes
  import opened Codec
  import opened Wrappers

  const WAL_MAGIC := 0x4432574c     // "D2WL"
  const FORMAT_VERSION := 2
  const HEADER_BYTES := 72
  const MAX_RECORD := 4236
  const MAX_WAL_RECORD := 1024 * 1024
  const MAX_INCARNATION := 0x00ffffff
  const PAYLOAD_ALIGN := 4096
  const FAMILY_START := 1
  const START_BODY_BYTES := 121
  const START_BYTES := 197
  const FAMILY_COHORT := 4
  const U32_MAX := 0xffff_ffff

  datatype Header = Header(family: int, total: nat, lsn: nat, incarnation: nat)

  datatype Env = Env(
    crc: seq<byte> -> u32,
    bodyOk: seq<byte> -> bool,
    payloadsMatch: seq<byte> -> bool,
    accept: (seq<byte>, seq<byte>) -> bool,
    payloadEnd: seq<byte> -> nat,
    store: Uuid,
    wal: Uuid,
    exportUuid: Uuid,
    capacityWal: nat,
    capacityPayload: nat)

  // ----- record headers

  datatype RawHeader = RawHeader(magic: u32, version: u16, family: u16, header: u32, total: u32, complement: u32,
                                 store: Uuid, wal: Uuid, lsn: u64, incarnation: u64, reserved: u32)

  function PutHeader(h: RawHeader, t: seq<byte>): seq<byte> {
    PutU32(h.magic, PutU16(h.version, PutU16(h.family, PutU32(h.header, PutU32(h.total, PutU32(h.complement,
      PutRaw(h.store, PutRaw(h.wal, PutU64(h.lsn, PutU64(h.incarnation, PutU32(h.reserved, t)))))))))))
  }

  function GetHeader(s: seq<byte>): Parse<RawHeader> {
    var magic :- GetU32(s);
    var version :- GetU16(magic.rest);
    var family :- GetU16(version.rest);
    var header :- GetU32(family.rest);
    var total :- GetU32(header.rest);
    var complement :- GetU32(total.rest);
    var store :- GetRaw(16, complement.rest);
    var wal :- GetRaw(16, store.rest);
    var lsn :- GetU64(wal.rest);
    var incarnation :- GetU64(lsn.rest);
    var reserved :- GetU32(incarnation.rest);
    Got(RawHeader(magic.value, version.value, family.value, header.value, total.value, complement.value,
                  store.value, wal.value, lsn.value, incarnation.value, reserved.value), reserved.rest)
  }

  lemma HeaderLaws()
    ensures forall h: RawHeader, t: seq<byte> {:trigger PutHeader(h, t)} :: GetHeader(PutHeader(h, t)) == Got(h, t)
    ensures forall h: RawHeader, t: seq<byte> {:trigger PutHeader(h, t)} :: |PutHeader(h, t)| == HEADER_BYTES + |t|
    ensures forall s: seq<byte> {:trigger GetHeader(s)} :: GetHeader(s).Got? ==> PutHeader(GetHeader(s).value, GetHeader(s).rest) == s
  {
    hide PutU16, GetU16, PutU32, GetU32, PutU64, GetU64, PutRaw, GetRaw;
    Primitives(); U16Laws();
  }

  /** Every test on the header fields that needs no other bytes. */
  predicate HeaderOk(env: Env, h: RawHeader) {
    && h.magic == WAL_MAGIC && h.version == FORMAT_VERSION && FAMILY_START <= h.family <= FAMILY_COHORT
    && h.header == HEADER_BYTES && HEADER_BYTES + 4 <= h.total <= MAX_RECORD
    && h.complement == U32_MAX - h.total && h.reserved == 0 && h.store == env.store && h.wal == env.wal
    && h.lsn != 0 && 0 < h.incarnation <= MAX_INCARNATION
  }

  predicate CrcOk(env: Env, rec: seq<byte>)
    requires |rec| >= HEADER_BYTES + 4
  {
    DecU32(rec[|rec| - 4..]) == env.crc(rec[..|rec| - 4])
  }

  /** The header at the front of `s`, when the bytes there are one record with a good checksum. */
  function DecodeHeader(env: Env, s: seq<byte>): (r: Option<Header>)
    ensures r.Some? ==> HEADER_BYTES + 4 <= r.value.total <= |s| && r.value.total <= MAX_RECORD
  {
    if |s| < HEADER_BYTES then None
    else
      var p := GetHeader(s[..HEADER_BYTES]);
      if p.Fail? || !HeaderOk(env, p.value) || p.value.total > |s| || !CrcOk(env, s[..p.value.total]) then None
      else Some(Header(p.value.family, p.value.total, p.value.lsn, p.value.incarnation))
  }

  // ----- START bodies

  datatype StartBody = StartBody(
    format: u32, incarnation: u64, prevIncarnation: u64, verifierEpoch: u64, verifierChanged: bool, decision: u32,
    truncatedBytes: u64, lastValidLsnBefore: u64, walAppendCursor: u64, payloadAppendCursor: u64,
    capacityWal: u64, capacityPayload: u64, exportUuid: Uuid, liveWalReserved: u64, livePayloadOutstanding: u64, livePayloadStaged: u64)

  function PutStart(s: StartBody, t: seq<byte>): seq<byte> {
    PutU32(s.format, PutU64(s.incarnation, PutU64(s.prevIncarnation, PutU64(s.verifierEpoch, PutBool(s.verifierChanged,
      PutU32(s.decision, PutU64(s.truncatedBytes, PutStartCursors(s, t))))))))
  }

  function PutStartCursors(s: StartBody, t: seq<byte>): seq<byte> {
    PutU64(s.lastValidLsnBefore, PutU64(s.walAppendCursor, PutU64(s.payloadAppendCursor, PutU64(s.capacityWal,
      PutU64(s.capacityPayload, PutRaw(s.exportUuid,
        PutU64(s.liveWalReserved, PutU64(s.livePayloadOutstanding, PutU64(s.livePayloadStaged, t)))))))))
  }

  function GetStart(s: seq<byte>): Parse<StartBody> {
    var format :- GetU32(s);
    var incarnation :- GetU64(format.rest);
    var prev :- GetU64(incarnation.rest);
    var epoch :- GetU64(prev.rest);
    var changed :- GetBool(epoch.rest);
    var decision :- GetU32(changed.rest);
    var truncated :- GetU64(decision.rest);
    var lastValid :- GetU64(truncated.rest);
    var walCursor :- GetU64(lastValid.rest);
    var payloadCursor :- GetU64(walCursor.rest);
    var capacityWal :- GetU64(payloadCursor.rest);
    var capacityPayload :- GetU64(capacityWal.rest);
    var exportUuid :- GetRaw(16, capacityPayload.rest);
    var reserved :- GetU64(exportUuid.rest);
    var outstanding :- GetU64(reserved.rest);
    var staged :- GetU64(outstanding.rest);
    Got(StartBody(format.value, incarnation.value, prev.value, epoch.value, changed.value, decision.value, truncated.value,
                  lastValid.value, walCursor.value, payloadCursor.value, capacityWal.value, capacityPayload.value,
                  exportUuid.value, reserved.value, outstanding.value, staged.value), staged.rest)
  }

  lemma StartRoundTrip(s: StartBody, t: seq<byte>)
    ensures GetStart(PutStart(s, t)) == Got(s, t) && |PutStart(s, t)| == START_BODY_BYTES + |t|
  {
    hide PutU32, GetU32, PutU64, GetU64, PutBool, GetBool, PutRaw, GetRaw;
    Primitives();
  }

  predicate Bit(d: u32, weight: int)
    requires weight > 0
  {
    d / weight % 2 == 1
  }

  const FIRST_PROVISION := 1
  const CLEAN_SCAN := 2
  const TRUNCATED_TAIL := 4
  const DISCARDED_UNSTABLE := 8
  const ADMIN_CLEARED_FENCE := 16
  const TRUNCATED_NONZERO_TAIL := 32

  /** The recovery decisions a START may record. */
  predicate DecisionOk(s: StartBody) {
    var d := s.decision;
    && d < 64
    && if Bit(d, FIRST_PROVISION) then
         d == FIRST_PROVISION && s.prevIncarnation == 0 && s.lastValidLsnBefore == 0 && s.truncatedBytes == 0
       else
         && (Bit(d, CLEAN_SCAN) || Bit(d, TRUNCATED_TAIL) || Bit(d, DISCARDED_UNSTABLE))
         && !(Bit(d, CLEAN_SCAN) && (Bit(d, TRUNCATED_TAIL) || Bit(d, DISCARDED_UNSTABLE)))
         && (Bit(d, TRUNCATED_NONZERO_TAIL) ==> Bit(d, TRUNCATED_TAIL))
         && (s.truncatedBytes != 0 <==> Bit(d, TRUNCATED_TAIL))
         && (s.verifierChanged <==> Bit(d, DISCARDED_UNSTABLE) || Bit(d, TRUNCATED_NONZERO_TAIL))
  }

  /** The decisions, written out. */
  lemma Decisions(s: StartBody)
    ensures DecisionOk(s) <==>
            || (s.decision == 1 && s.prevIncarnation == 0 && s.lastValidLsnBefore == 0 && s.truncatedBytes == 0)
            || (&& s.decision in {2, 4, 8, 12, 18, 20, 24, 28, 36, 44, 52, 60}
                && (s.truncatedBytes == 0 <==> s.decision in {2, 8, 18, 24})
                && (s.verifierChanged <==> s.decision in {8, 12, 24, 28, 36, 44, 52, 60}))
  {
    hide Bit;
    if s.decision < 64 {
      BitsMakeIt(s.decision);
    }
  }

  lemma BitsMakeIt(d: u32)
    requires d < 64
    ensures d == (if Bit(d, 1) then 1 else 0) + (if Bit(d, 2) then 2 else 0) + (if Bit(d, 4) then 4 else 0)
                 + (if Bit(d, 8) then 8 else 0) + (if Bit(d, 16) then 16 else 0) + (if Bit(d, 32) then 32 else 0)
  {
    hide Bit, Over;
    Ends(d);
    Halve(d, 1); Halve(d, 2); Halve(d, 4); Halve(d, 8); Halve(d, 16); Halve(d, 32);
  }

  function Over(d: nat, w: nat): nat
    requires w > 0
  {
    d / w
  }

  lemma Ends(d: nat)
    requires d < 64
    ensures Over(d, 1) == d && Over(d, 64) == 0
  {}

  lemma Halve(d: u32, w: nat)
    requires w > 0
    ensures Over(d, w) == 2 * Over(d, 2 * w) + if Bit(d, w) then 1 else 0
  {
    var q, r := d / (2 * w), d % (2 * w);
    assert d == (2 * w) * q + r;
    if r < w {
      Basics.QuotientIs(d, w, 2 * q, r);
    } else {
      Basics.QuotientIs(d, w, 2 * q + 1, r - w);
    }
  }

  /** The START body of a record, when it has one. */
  function StartOf(h: Header, rec: seq<byte>): Option<StartBody> {
    if h.family != FAMILY_START || h.total != START_BYTES || |rec| < START_BYTES then None
    else
      var p := GetStart(rec[HEADER_BYTES..HEADER_BYTES + START_BODY_BYTES]);
      if p.Fail? || p.rest != [] || p.value.format != FORMAT_VERSION || p.value.incarnation != h.incarnation || !DecisionOk(p.value)
      then None
      else Some(p.value)
  }

  /** A whole valid record at the front of `s`: header and body. */
  function Decode(env: Env, s: seq<byte>): (r: Option<Header>)
    ensures r.Some? ==> HEADER_BYTES + 4 <= r.value.total <= |s| && r.value.total <= MAX_RECORD
  {
    var h := DecodeHeader(env, s);
    if h.None? then None
    else
      var rec := s[..h.value.total];
      if (if h.value.family == FAMILY_START then StartOf(h.value, rec).Some? else env.bodyOk(rec)) then h else None
  }

  /** Decoding looks at the record's own bytes and nothing after them. */
  lemma DecodeLocal(env: Env, s: seq<byte>, t: seq<byte>, h: Header)
    requires Decode(env, s) == Some(h) && |t| >= h.total && t[..h.total] == s[..h.total]
    ensures Decode(env, t) == Some(h)
  {
    hide GetHeader, HeaderOk, CrcOk, StartOf;
    assert s[..HEADER_BYTES] == s[..h.total][..HEADER_BYTES] == t[..HEADER_BYTES];
  }

  // ----- what the writers write

  function RawOf(env: Env, family: u16, lsn: u64, incarnation: u64, total: u32): RawHeader
    requires total <= U32_MAX
  {
    RawHeader(WAL_MAGIC, FORMAT_VERSION, family, HEADER_BYTES, total, U32_MAX - total, env.store, env.wal, lsn, incarnation, 0)
  }

  /** A record with its header in front and its checksum behind. */
  function Encoded(env: Env, family: u16, lsn: u64, incarnation: u64, body: seq<byte>): (rec: seq<byte>)
    requires HEADER_BYTES + |body| + 4 <= MAX_RECORD
  {
    var covered := PutHeader(RawOf(env, family, lsn, incarnation, HEADER_BYTES + |body| + 4), body);
    covered + EncU32(env.crc(covered))
  }

  lemma EncodedHeader(env: Env, family: u16, lsn: u64, incarnation: u64, body: seq<byte>)
    requires HEADER_BYTES + |body| + 4 <= MAX_RECORD
    requires FAMILY_START <= family <= FAMILY_COHORT && lsn >= 1 && 0 < incarnation <= MAX_INCARNATION
    ensures var rec := Encoded(env, family, lsn, incarnation, body);
            var total := HEADER_BYTES + |body| + 4;
            && |rec| == total && rec[HEADER_BYTES..HEADER_BYTES + |body|] == body
            && DecodeHeader(env, rec) == Some(Header(family, total, lsn, incarnation))
  {
    hide GetHeader, PutHeader, EncU32, DecU32;
    var rec := Encoded(env, family, lsn, incarnation, body);
    var raw := RawOf(env, family, lsn, incarnation, HEADER_BYTES + |body| + 4);
    HeaderLaws();
    HeaderFirst(raw, body);
    var covered := PutHeader(raw, body);
    assert rec[..HEADER_BYTES] == covered[..HEADER_BYTES] && rec[..|rec| - 4] == covered;
    assert rec[|rec| - 4..] == EncU32(env.crc(covered)) && rec[..|rec|] == rec;
    assert rec[HEADER_BYTES..HEADER_BYTES + |body|] == covered[HEADER_BYTES..];
    U32RoundTrip(env.crc(covered), EncU32(0));
    assert GetHeader(PutHeader(raw, [])) == Got(raw, []);
  }

  /** The header's bytes do not depend on what follows. */
  lemma HeaderFirst(h: RawHeader, t: seq<byte>)
    ensures PutHeader(h, t) == PutHeader(h, []) + t
    ensures |PutHeader(h, [])| == HEADER_BYTES
  {
    hide GetHeader, PutHeader;
    HeaderLaws();
    PutHeaderAppends(h, t);
  }

  lemma PutHeaderAppends(h: RawHeader, t: seq<byte>)
    ensures PutHeader(h, t) == PutHeader(h, []) + t
  {
    hide EncU16, EncU32, EncU64;
  }

  /** A START record. */
  function StartRecord(env: Env, s: StartBody, lsn: u64): seq<byte> {
    StartRoundTrip(s, []);
    Encoded(env, FAMILY_START, lsn, s.incarnation, PutStart(s, []))
  }

  lemma StartDecodes(env: Env, s: StartBody, lsn: u64)
    requires lsn >= 1 && 0 < s.incarnation <= MAX_INCARNATION && s.format == FORMAT_VERSION && DecisionOk(s)
    ensures var rec := StartRecord(env, s, lsn);
            var h := Header(FAMILY_START, START_BYTES, lsn, s.incarnation);
            |rec| == START_BYTES && Decode(env, rec) == Some(h) && StartOf(h, rec) == Some(s)
  {
    hide Encoded, PutStart, GetStart, DecisionOk, DecodeHeader;
    StartRoundTrip(s, []);
    EncodedHeader(env, FAMILY_START, lsn, s.incarnation, PutStart(s, []));
    var rec := StartRecord(env, s, lsn);
    assert rec[..START_BYTES] == rec;
  }

  lemma BodyDecodes(env: Env, family: u16, lsn: u64, incarnation: u64, body: seq<byte>)
    requires HEADER_BYTES + |body| + 4 <= MAX_RECORD
    requires FAMILY_START < family <= FAMILY_COHORT && lsn >= 1 && 0 < incarnation <= MAX_INCARNATION
    requires env.bodyOk(Encoded(env, family, lsn, incarnation, body))
    ensures var rec := Encoded(env, family, lsn, incarnation, body);
            |rec| == HEADER_BYTES + |body| + 4 && Decode(env, rec) == Some(Header(family, |rec|, lsn, incarnation))
  {
    hide Encoded, DecodeHeader;
    EncodedHeader(env, family, lsn, incarnation, body);
    var rec := Encoded(env, family, lsn, incarnation, body);
    assert rec[..|rec|] == rec;
  }

  /** Nothing else decodes: the bytes of a header that was accepted are a record as the
      writers make it, with the expected UUIDs, its complement and its checksum. */
  lemma DecodedIsEncoded(env: Env, s: seq<byte>, h: Header)
    requires DecodeHeader(env, s) == Some(h)
    ensures HEADER_BYTES + 4 <= h.total <= |s| && h.total <= MAX_RECORD
    ensures FAMILY_START <= h.family <= FAMILY_COHORT && 1 <= h.lsn < 0x1_0000_0000_0000_0000 && 0 < h.incarnation <= MAX_INCARNATION
    ensures s[..h.total] == Encoded(env, h.family, h.lsn, h.incarnation, s[HEADER_BYTES..h.total - 4])
  {
    hide GetHeader, PutHeader, EncU32, DecU32;
    var front, body := s[..HEADER_BYTES], s[HEADER_BYTES..h.total - 4];
    var p := GetHeader(front);
    HeaderLaws();
    assert p.rest == [];
    var raw := RawOf(env, h.family, h.lsn, h.incarnation, h.total);
    assert p.value == raw;
    HeaderFirst(raw, body);
    var rec := s[..h.total];
    assert rec[..|rec| - 4] == front + body;
    U32RoundTrip(0, rec[|rec| - 4..]);
    assert rec == rec[..|rec| - 4] + rec[|rec| - 4..];
  }

  lemma StartCanonical(s: seq<byte>)
    requires GetStart(s).Got?
    ensures PutStart(GetStart(s).value, GetStart(s).rest) == s
  {
    hide PutU32, GetU32, PutU64, GetU64, PutBool, GetBool, PutRaw, GetRaw;
    Primitives();
  }

  /** A START that decodes is, to the byte, the record of its body. */
  lemma StartIsRecord(env: Env, rec: seq<byte>, h: Header)
    requires Decode(env, rec) == Some(h) && h.total == |rec| && h.family == FAMILY_START
    ensures StartOf(h, rec).Some? && rec == StartRecord(env, StartOf(h, rec).value, h.lsn)
  {
    hide Encoded, PutStart, GetStart, DecisionOk, DecodeHeader;
    assert rec[..|rec|] == rec;
    DecodedIsEncoded(env, rec, h);
    StartCanonical(rec[HEADER_BYTES..HEADER_BYTES + START_BODY_BYTES]);
  }

  // ----- the scan

  datatype Tail = Clean | Zero | Incomplete | Overlong | Unparseable | BadComplete

  datatype Cur = Cur(at: nat, lsn: nat, incarnation: nat, payloadEnd: nat, sawStart: bool, count: nat)

  datatype Result =
    | Fenced(tail: Tail)
    | Scanned(tail: Tail, valid: nat, truncated: nat, lastLsn: nat, lastIncarnation: nat, payloadCursor: nat, count: nat)

  /** A START has to name the incarnation, LSN and cursors that the scan has reached. */
  predicate StartContinues(env: Env, start: Option<StartBody>, h: Header, c: Cur) {
    && start.Some?
    && var s := start.value;
    && s.prevIncarnation == c.incarnation && s.lastValidLsnBefore == c.lsn - 1
    && s.walAppendCursor == c.at + h.total && s.payloadAppendCursor == c.payloadEnd
    && s.capacityWal == env.capacityWal && s.capacityPayload == env.capacityPayload && s.exportUuid == env.exportUuid
    && (c.sawStart ==> h.incarnation == c.incarnation + 1)
  }

  /** The checks on a decoded record; None fences the store. */
  function Take(env: Env, before: seq<byte>, rec: seq<byte>, h: Header, c: Cur): (r: Option<Cur>)
    ensures r.Some? ==> r.value.at == c.at + h.total && r.value.lsn == c.lsn + 1 && r.value.count == c.count + 1
    ensures r.Some? ==> r.value.sawStart && r.value.incarnation == h.incarnation
  {
    var isStart := h.family == FAMILY_START;
    if h.lsn != c.lsn || (c.sawStart && !isStart && h.incarnation != c.incarnation) || (!c.sawStart && !isStart) then None
    else
      if isStart && !StartContinues(env, StartOf(h, rec), h, c) then None
      else if !env.payloadsMatch(rec) || !env.accept(before, rec) then None
      else
        var end := env.payloadEnd(rec);
        if end > env.capacityPayload || (end > 0 && end < PAYLOAD_ALIGN) then None
        else Some(Cur(c.at + h.total, c.lsn + 1, if isStart then h.incarnation else c.incarnation,
                      if c.payloadEnd < end then end else c.payloadEnd, true, c.count + 1))
  }

  predicate AllZero(s: seq<byte>) {
    forall i :: 0 <= i < |s| ==> s[i] == 0
  }

  /** The prologue test applied to a tail.  It asks for format version 1. */
  predicate TailPrologue(env: Env, s: seq<byte>)
    requires |s| >= HEADER_BYTES
  {
    var total := DecU32(s[12..16]);
    && DecU32(s[..4]) == WAL_MAGIC && s[4] == 0 && s[5] == 1 && DecU32(s[8..12]) == HEADER_BYTES
    && DecU32(s[16..20]) == U32_MAX - total && HEADER_BYTES + 4 <= total <= MAX_WAL_RECORD
    && s[20..36] == env.store && s[36..52] == env.wal
  }

  /** What to make of bytes that are not a valid record: the class, and whether the store is fenced. */
  function Classify(env: Env, s: seq<byte>): (r: (Tail, bool))
    ensures r.0 != Clean
  {
    if |s| > MAX_WAL_RECORD then (Overlong, true)
    else if AllZero(s) then (Zero, false)
    else if |s| < HEADER_BYTES then (Incomplete, false)
    else if !TailPrologue(env, s) then (Unparseable, true)
    else
      var total := DecU32(s[12..16]);
      if total > |s| then (Incomplete, false)
      else if DecodeHeader(env, s).Some? then (Unparseable, true)
      else (BadComplete, true)
  }

  function Finish(c: Cur, tail: Tail, size: nat): Result
    requires c.at <= size && c.lsn >= 1
  {
    if !c.sawStart then Fenced(if tail == Clean then BadComplete else tail)
    else Scanned(tail, c.at, size - c.at, c.lsn - 1, c.incarnation, c.payloadEnd, c.count)
  }

  function ScanFrom(env: Env, s: seq<byte>, c: Cur): Result
    requires c.at <= |s| && c.lsn >= 1
    decreases |s| - c.at
  {
    if c.at == |s| then Finish(c, Clean, |s|)
    else
      var h := Decode(env, s[c.at..]);
      if h.None? then
        var (tail, fenced) := Classify(env, s[c.at..]);
        if fenced then Fenced(tail) else Finish(c, tail, |s|)
      else
        var next := Take(env, s[..c.at], s[c.at..c.at + h.value.total], h.value, c);
        if next.None? then Fenced(BadComplete) else ScanFrom(env, s, next.value)
  }

  const START := Cur(0, 1, 0, PAYLOAD_ALIGN, false, 0)

  function ScanAll(env: Env, s: seq<byte>): Result {
    ScanFrom(env, s, START)
  }

  // ----- what a successful scan has established

  function Join(recs: seq<seq<byte>>): seq<byte> {
    if recs == [] then [] else recs[0] + Join(recs[1..])
  }

  /** Records with consecutive LSNs from `lsn`; incarnations step at STARTs and only there. */
  ghost predicate Chain(env: Env, recs: seq<seq<byte>>, hs: seq<Header>, lsn: nat, incarnation: nat, sawStart: bool) {
    && |recs| == |hs|
    && (forall i :: 0 <= i < |recs| ==> Decode(env, recs[i]) == Some(hs[i]) && hs[i].total == |recs[i]|)
    && (forall i :: 0 <= i < |recs| ==> hs[i].lsn == lsn + i)
    && (hs != [] && !sawStart ==> hs[0].family == FAMILY_START)
    && (hs != [] && sawStart ==> hs[0].incarnation == incarnation + if hs[0].family == FAMILY_START then 1 else 0)
    && forall i :: 1 <= i < |hs| ==> hs[i].incarnation == hs[i - 1].incarnation + if hs[i].family == FAMILY_START then 1 else 0
  }

  lemma {:induction false} ScanChain(env: Env, s: seq<byte>, c: Cur) returns (recs: seq<seq<byte>>, hs: seq<Header>)
    requires c.at <= |s| && c.lsn >= 1 && ScanFrom(env, s, c).Scanned?
    ensures var r := ScanFrom(env, s, c);
            && c.at <= r.valid <= |s| && r.truncated == |s| - r.valid
            && Join(recs) == s[c.at..r.valid] && Chain(env, recs, hs, c.lsn, c.incarnation, c.sawStart)
            && r.lastLsn == c.lsn - 1 + |recs| && r.count == c.count + |recs| && (hs == [] ==> c.sawStart)
            && r.lastIncarnation == if hs == [] then c.incarnation else hs[|hs| - 1].incarnation
    decreases |s| - c.at
  {
    hide Classify, Decode, Take, Chain;
    recs, hs := [], [];
    ChainOfNone(env, c);
    var h := if c.at == |s| then None else Decode(env, s[c.at..]);
    if h.Some? {
      var rec := s[c.at..c.at + h.value.total];
      var next := Take(env, s[..c.at], rec, h.value, c).value;
      var restRecs, restHs := ScanChain(env, s, next);
      recs, hs := [rec] + restRecs, [h.value] + restHs;
      assert rec == s[c.at..][..h.value.total];
      DecodeLocal(env, s[c.at..], rec, h.value);
      ChainGrows(env, s[..c.at], rec, h.value, restRecs, restHs, c, next);
      assert recs[1..] == restRecs;
    }
  }

  lemma ChainOfNone(env: Env, c: Cur)
    ensures Chain(env, [], [], c.lsn, c.incarnation, c.sawStart)
  {
  }

  lemma TakeChecks(env: Env, before: seq<byte>, rec: seq<byte>, h: Header, c: Cur)
    requires Take(env, before, rec, h, c).Some?
    ensures h.lsn == c.lsn && (!c.sawStart ==> h.family == FAMILY_START)
    ensures c.sawStart ==> h.incarnation == c.incarnation + if h.family == FAMILY_START then 1 else 0
  {
    hide StartOf;
  }

  lemma ChainGrows(env: Env, before: seq<byte>, rec: seq<byte>, h: Header, recs: seq<seq<byte>>, hs: seq<Header>, c: Cur, next: Cur)
    requires Decode(env, rec) == Some(h) && h.total == |rec| && Take(env, before, rec, h, c) == Some(next)
    requires Chain(env, recs, hs, next.lsn, next.incarnation, true)
    ensures Chain(env, [rec] + recs, [h] + hs, c.lsn, c.incarnation, c.sawStart)
  {
    hide Decode, Take;
    TakeChecks(env, before, rec, h, c);
    var rs, ks := [rec] + recs, [h] + hs;
    forall i | 1 <= i < |ks| ensures ks[i].incarnation == ks[i - 1].incarnation + if ks[i].family == FAMILY_START then 1 else 0 {
      assert ks[i] == hs[i - 1];
      assert i > 1 ==> ks[i - 1] == hs[i - 2];
    }
  }

  /** A successful scan's valid prefix is exactly a run of intact records: LSNs
      1, 2, ..., last; a START first; every later START one incarnation above
      its predecessor and every other record in its predecessor's incarnation. */
  lemma ScannedPrefixIsAChain(env: Env, s: seq<byte>) returns (recs: seq<seq<byte>>, hs: seq<Header>)
    requires ScanAll(env, s).Scanned?
    ensures var r := ScanAll(env, s);
            && r.valid <= |s| && r.truncated == |s| - r.valid && Join(recs) == s[..r.valid]
            && |recs| == |hs| == r.lastLsn == r.count >= 1
            && (forall i :: 0 <= i < |recs| ==> Decode(env, recs[i]) == Some(hs[i]) && hs[i].total == |recs[i]|)
            && (forall i :: 0 <= i < |hs| ==> hs[i].lsn == i + 1)
            && hs[0].family == FAMILY_START && r.lastIncarnation == hs[|hs| - 1].incarnation
            && forall i :: 1 <= i < |hs| ==> hs[i].incarnation == hs[i - 1].incarnation + if hs[i].family == FAMILY_START then 1 else 0
  {
    hide Decode, ScanFrom;
    recs, hs := ScanChain(env, s, START);
    assert s[0..ScanAll(env, s).valid] == s[..ScanAll(env, s).valid];
  }

  // ----- which sequences of records scan

  /** The highest payload end the records name, and at least the end of the payload file's header. */
  function PayloadHigh(env: Env, recs: seq<seq<byte>>): nat {
    if recs == [] then PAYLOAD_ALIGN
    else
      var before, end := PayloadHigh(env, recs[..|recs| - 1]), env.payloadEnd(recs[|recs| - 1]);
      if before < end then end else before
  }

  /** What a START has to say in place i: the log as it stands before it. */
  ghost predicate StartFits(env: Env, recs: seq<seq<byte>>, hs: seq<Header>, i: nat)
    requires |recs| == |hs| && i < |recs|
  {
    && StartOf(hs[i], recs[i]).Some?
    && var b := StartOf(hs[i], recs[i]).value;
    && b.prevIncarnation == (if i == 0 then 0 else hs[i - 1].incarnation) && b.lastValidLsnBefore == i
    && b.walAppendCursor == |Join(recs[..i + 1])| && b.payloadAppendCursor == PayloadHigh(env, recs[..i])
    && b.capacityWal == env.capacityWal && b.capacityPayload == env.capacityPayload && b.exportUuid == env.exportUuid
  }

  /** What record i has to satisfy, given those before it. */
  ghost predicate Fits(env: Env, recs: seq<seq<byte>>, hs: seq<Header>, i: nat)
    requires |recs| == |hs| && i < |recs|
  {
    && hs[i].lsn == i + 1
    && (i > 0 ==> hs[i].incarnation == hs[i - 1].incarnation + if hs[i].family == FAMILY_START then 1 else 0)
    && (if hs[i].family == FAMILY_START then StartFits(env, recs, hs, i) else i > 0)
    && env.payloadsMatch(recs[i]) && env.accept(Join(recs[..i]), recs[i])
    && env.payloadEnd(recs[i]) <= env.capacityPayload && (env.payloadEnd(recs[i]) == 0 || env.payloadEnd(recs[i]) >= PAYLOAD_ALIGN)
  }

  /** Where the scan stands after the first i records. */
  ghost function CursorAfter(env: Env, recs: seq<seq<byte>>, hs: seq<Header>, i: nat): Cur
    requires |recs| == |hs| && i <= |recs|
  {
    Cur(|Join(recs[..i])|, i + 1, if i == 0 then 0 else hs[i - 1].incarnation, PayloadHigh(env, recs[..i]), i > 0, i)
  }

  lemma {:induction false} JoinSplit(a: seq<seq<byte>>, b: seq<seq<byte>>)
    ensures Join(a + b) == Join(a) + Join(b)
  {
    if a == [] {
      assert a + b == b;
    } else {
      assert (a + b)[1..] == a[1..] + b;
      JoinSplit(a[1..], b);
    }
  }

  lemma JoinOne(recs: seq<seq<byte>>, i: nat)
    requires i < |recs|
    ensures Join(recs[..i + 1]) == Join(recs[..i]) + recs[i] && Join(recs) == Join(recs[..i + 1]) + Join(recs[i + 1..])
  {
    assert recs[..i + 1] == recs[..i] + [recs[i]] && recs == recs[..i + 1] + recs[i + 1..];
    JoinSplit(recs[..i], [recs[i]]);
    JoinSplit(recs[..i + 1], recs[i + 1..]);
    assert Join([recs[i]]) == recs[i] + Join([]) == recs[i];
  }

  /** The scan takes record i exactly when it fits. */
  lemma TakesWhatFits(env: Env, recs: seq<seq<byte>>, hs: seq<Header>, i: nat)
    requires |recs| == |hs| && i < |recs| && hs[i].total == |recs[i]|
    ensures Take(env, Join(recs[..i]), recs[i], hs[i], CursorAfter(env, recs, hs, i))
            == if Fits(env, recs, hs, i) then Some(CursorAfter(env, recs, hs, i + 1)) else None
  {
    hide Join, StartOf;
    JoinOne(recs, i);
    assert recs[..i + 1][..i] == recs[..i];
  }

  lemma {:induction false} ScanRecords(env: Env, recs: seq<seq<byte>>, hs: seq<Header>, i: nat)
    requires |recs| == |hs| && i <= |recs|
    requires forall j :: 0 <= j < |recs| ==> Decode(env, recs[j]) == Some(hs[j]) && hs[j].total == |recs[j]|
    ensures var s, c := Join(recs), CursorAfter(env, recs, hs, i);
            && c.at <= |s| == |Join(recs[..|recs|])|
            && ScanFrom(env, s, c) == if forall j :: i <= j < |recs| ==> Fits(env, recs, hs, j)
                                      then Finish(CursorAfter(env, recs, hs, |recs|), Clean, |s|) else Fenced(BadComplete)
    decreases |recs| - i
  {
    hide Decode, Take, Classify, Fits, Join, PayloadHigh;
    var s, c := Join(recs), CursorAfter(env, recs, hs, i);
    if i == |recs| {
      assert recs[..i] == recs;
    } else {
      JoinOne(recs, i);
      var h, rest := hs[i], Join(recs[i + 1..]);
      assert s[c.at..] == recs[i] + rest && s[..c.at] == Join(recs[..i]) && s[c.at..c.at + h.total] == recs[i];
      assert (recs[i] + rest)[..h.total] == recs[i][..h.total];
      DecodeLocal(env, recs[i], recs[i] + rest, h);
      DecodedIsLong(env, recs[i], h);
      TakesWhatFits(env, recs, hs, i);
      ScanRecords(env, recs, hs, i + 1);
    }
  }

  lemma DecodedIsLong(env: Env, s: seq<byte>, h: Header)
    requires Decode(env, s) == Some(h)
    ensures h.total > 0
  {}

  /** A sequence of intact records scans if and only if each fits its place, and then
      the scan reports exactly what they say; otherwise it fences. */
  lemma ScansExactly(env: Env, recs: seq<seq<byte>>, hs: seq<Header>)
    requires |recs| == |hs| >= 1
    requires forall j :: 0 <= j < |recs| ==> Decode(env, recs[j]) == Some(hs[j]) && hs[j].total == |recs[j]|
    ensures var n := |recs|;
            ScanAll(env, Join(recs)) == if forall i :: 0 <= i < n ==> Fits(env, recs, hs, i)
                                        then Scanned(Clean, |Join(recs)|, 0, n, hs[n - 1].incarnation, PayloadHigh(env, recs), n)
                                        else Fenced(BadComplete)
  {
    hide Decode, ScanFrom, Fits;
    ScanRecords(env, recs, hs, 0);
    assert recs[..0] == [] && recs[..|recs|] == recs;
  }

  // ----- scanning again after the tail has been cut off

  lemma {:induction false} RescanFrom(env: Env, s: seq<byte>, c: Cur)
    requires c.at <= |s| && c.lsn >= 1 && ScanFrom(env, s, c).Scanned?
    ensures var r := ScanFrom(env, s, c);
            && c.at <= r.valid <= |s|
            && ScanFrom(env, s[..r.valid], c) == r.(tail := Clean, truncated := 0)
    decreases |s| - c.at
  {
    hide Classify, Decode, Take;
    var r := ScanFrom(env, s, c);
    if c.at < |s| {
      var h := Decode(env, s[c.at..]);
      if h.Some? {
        var end := c.at + h.value.total;
        var next := Take(env, s[..c.at], s[c.at..end], h.value, c).value;
        RescanFrom(env, s, next);
        var t := s[..r.valid];
        assert t[c.at..][..h.value.total] == s[c.at..][..h.value.total];
        DecodeLocal(env, s[c.at..], t[c.at..], h.value);
        assert t[c.at..end] == s[c.at..end] && t[..c.at] == s[..c.at];
      }
    } else {
      assert s[..r.valid] == s;
    }
  }

  /** Truncating the tail and scanning again gives the same result, classed clean. */
  lemma RescanIsClean(env: Env, s: seq<byte>)
    requires ScanAll(env, s).Scanned?
    ensures var r := ScanAll(env, s);
            r.valid <= |s| && ScanAll(env, s[..r.valid]) == r.(tail := Clean, truncated := 0)
  {
    RescanFrom(env, s, START);
  }

  // ----- a torn append

  /** Where a scan that ends clean leaves its cursor. */
  ghost function EndOf(env: Env, s: seq<byte>, c: Cur): Cur
    requires c.at <= |s| && c.lsn >= 1
    decreases |s| - c.at
  {
    if c.at == |s| then c
    else
      var h := Decode(env, s[c.at..]);
      if h.None? then c
      else
        var next := Take(env, s[..c.at], s[c.at..c.at + h.value.total], h.value, c);
        if next.None? then c else EndOf(env, s, next.value)
  }

  /** Bytes added after a clean log do not change how its records are read. */
  lemma {:induction false} ScanExtends(env: Env, s: seq<byte>, t: seq<byte>, c: Cur)
    requires c.at <= |s| && c.lsn >= 1 && ScanFrom(env, s, c).Scanned? && ScanFrom(env, s, c).tail == Clean
    ensures var e := EndOf(env, s, c);
            && e.at == |s| && e.lsn >= 1 && ScanFrom(env, s, c) == Finish(e, Clean, |s|)
            && ScanFrom(env, s + t, c) == ScanFrom(env, s + t, e) && EndOf(env, s + t, c) == EndOf(env, s + t, e)
    decreases |s| - c.at
  {
    hide Classify, Decode, Take;
    if c.at < |s| {
      var h := Decode(env, s[c.at..]);
      if h.Some? {
        var end := c.at + h.value.total;
        var next := Take(env, s[..c.at], s[c.at..end], h.value, c).value;
        ScanExtends(env, s, t, next);
        var u := s + t;
        assert u[c.at..][..h.value.total] == s[c.at..][..h.value.total];
        DecodeLocal(env, s[c.at..], u[c.at..], h.value);
        assert u[c.at..end] == s[c.at..end] && u[..c.at] == s[..c.at];
      }
    }
  }

  /** A whole record appended to a clean log is read next: the log stays clean
      if the record passes the chain checks and is fenced if it does not. */
  lemma WholeAppend(env: Env, s: seq<byte>, rec: seq<byte>, h: Header)
    requires ScanAll(env, s).Scanned? && ScanAll(env, s).tail == Clean
    requires Decode(env, rec) == Some(h) && h.total == |rec|
    ensures var r := ScanAll(env, s);
            var next := Take(env, s, rec, h, EndOf(env, s, START));
            ScanAll(env, s + rec)
            == if next.None? then Fenced(BadComplete)
               else Scanned(Clean, |s| + |rec|, 0, r.lastLsn + 1, h.incarnation, next.value.payloadEnd, r.count + 1)
    ensures var next := Take(env, s, rec, h, EndOf(env, s, START));
            next.Some? ==> EndOf(env, s + rec, START) == next.value
  {
    hide Classify, Decode, Take, ScanFrom, EndOf;
    var t := s + rec;
    ScanExtends(env, s, rec, START);
    var e := EndOf(env, s, START);
    assert t[e.at..] == rec && t[..e.at] == s && t[e.at..e.at + h.total] == rec;
    OneMore(env, t, e, h);
  }

  /** The scan of a log whose last record is the next one. */
  lemma OneMore(env: Env, t: seq<byte>, e: Cur, h: Header)
    requires e.at < |t| && e.lsn >= 1 && Decode(env, t[e.at..]) == Some(h) && e.at + h.total == |t|
    ensures var next := Take(env, t[..e.at], t[e.at..e.at + h.total], h, e);
            && ScanFrom(env, t, e) == (if next.None? then Fenced(BadComplete) else Finish(next.value, Clean, |t|))
            && (next.Some? ==> EndOf(env, t, e) == next.value)
  {
    hide Classify, Decode, Take;
  }

  /** The scan of a log that holds one record. */
  lemma FirstRecord(env: Env, rec: seq<byte>, h: Header, next: Cur)
    requires Decode(env, rec) == Some(h) && h.total == |rec| && Take(env, [], rec, h, START) == Some(next)
    ensures ScanAll(env, rec) == Finish(next, Clean, |rec|) && EndOf(env, rec, START) == next
  {
    hide Decode, Take, ScanFrom, EndOf;
    assert rec[0..] == rec && rec[..0] == [] && rec[0..0 + h.total] == rec;
    OneMore(env, rec, START, h);
  }

  /** The first bytes of any intact record. */
  lemma RecordPrologue(env: Env, rec: seq<byte>, h: Header)
    requires Decode(env, rec) == Some(h)
    ensures rec[0] == 0x44 && rec[5] == 2
  {
    hide GetHeader, PutRaw, EncU32, EncU16, CrcOk, StartOf;
    HeaderLaws();
    var raw := GetHeader(rec[..HEADER_BYTES]).value;
    assert rec[..HEADER_BYTES] == PutHeader(raw, GetHeader(rec[..HEADER_BYTES]).rest);
    MagicBytes();
  }

  lemma MagicBytes()
    ensures EncU32(WAL_MAGIC)[0] == 0x44 && EncU16(FORMAT_VERSION)[1] == 2
  {
    var v := WAL_MAGIC;
    assert BigEndian(v / 256 / 256 / 256, 1) == [0x44];
    assert BigEndian(v / 256 / 256, 2)[0] == 0x44;
    assert BigEndian(v / 256, 3)[0] == 0x44;
  }

  /** A cut record no longer decodes. */
  lemma CutDoesNotDecode(env: Env, rec: seq<byte>, h: Header, r: nat)
    requires Decode(env, rec) == Some(h) && h.total == |rec| && r < |rec|
    ensures Decode(env, rec[..r]).None? && DecodeHeader(env, rec[..r]).None?
  {
    hide GetHeader, HeaderOk, CrcOk, StartOf;
    if r >= HEADER_BYTES {
      assert rec[..r][..HEADER_BYTES] == rec[..HEADER_BYTES];
    }
  }

  lemma CutIsClassified(env: Env, rec: seq<byte>, h: Header, r: nat)
    requires Decode(env, rec) == Some(h) && h.total == |rec| && 0 < r < |rec|
    ensures Classify(env, rec[..r]) == if r < HEADER_BYTES then (Incomplete, false) else (Unparseable, true)
  {
    hide Decode, DecodeHeader;
    RecordPrologue(env, rec, h);
    var s := rec[..r];
    assert s[0] == 0x44;
    assert r >= HEADER_BYTES ==> s[5] == 2;
  }

  /** An append that stopped after r bytes of a further valid record: the scan
      recovers the log as it was exactly when the header itself was cut.  With
      a whole header on disk the prologue test, which wants version 1 where
      every record carries 2, fences the store instead of truncating. */
  lemma TornAppend(env: Env, s: seq<byte>, rec: seq<byte>, h: Header, r: nat)
    requires ScanAll(env, s).Scanned? && ScanAll(env, s).tail == Clean
    requires Decode(env, rec) == Some(h) && h.total == |rec| && 0 < r < |rec|
    ensures ScanAll(env, s + rec[..r])
            == if r < HEADER_BYTES then ScanAll(env, s).(tail := Incomplete, truncated := r) else Fenced(Unparseable)
  {
    hide Classify, Decode, ScanAll;
    CutDoesNotDecode(env, rec, h, r);
    CutIsClassified(env, rec, h, r);
    ScanWithTail(env, s, rec[..r]);
  }

  /** Bytes that are no record after a clean log: their class decides. */
  lemma ScanWithTail(env: Env, s: seq<byte>, t: seq<byte>)
    requires ScanAll(env, s).Scanned? && ScanAll(env, s).tail == Clean && t != [] && Decode(env, t).None?
    ensures var (tail, fenced) := Classify(env, t);
            ScanAll(env, s + t) == if fenced then Fenced(tail) else ScanAll(env, s).(tail := tail, truncated := |t|)
  {
    hide Classify, Decode, Take, ScanFrom, EndOf;
    ScanExtends(env, s, t, START);
    var e := EndOf(env, s, START);
    assert (s + t)[e.at..] == t;
    ScanTail(env, s + t, e);
  }

  /** The prologue test reads at fixed offsets what the header decoder reads in order:
      all fields of a record of version 1 but family, LSN, incarnation and reserved. */
  lemma PrologueIsHeader(env: Env, s: seq<byte>)
    requires |s| >= HEADER_BYTES
    ensures GetHeader(s[..HEADER_BYTES]).Got?
    ensures var h := GetHeader(s[..HEADER_BYTES]).value;
            && h.total == DecU32(s[12..16])
            && (TailPrologue(env, s) <==>
                && h.magic == WAL_MAGIC && h.version == 1 && h.header == HEADER_BYTES && h.complement == U32_MAX - h.total
                && HEADER_BYTES + 4 <= h.total <= MAX_WAL_RECORD && h.store == env.store && h.wal == env.wal)
  {
    hide DecU32, DecU64, DecU16;
    var t := s[..HEADER_BYTES];
    assert t[..4] == s[..4] && t[4..][..2] == s[4..6] && t[4..][2..] == t[6..] && t[6..][2..] == t[8..];
    assert t[8..][..4] == s[8..12] && t[8..][4..] == t[12..] && t[12..][..4] == s[12..16] && t[12..][4..] == t[16..];
    assert t[16..][..4] == s[16..20] && t[16..][4..] == t[20..] && t[20..][..16] == s[20..36] && t[20..][16..] == t[36..];
    assert t[36..][..16] == s[36..52] && t[36..][16..] == t[52..] && t[52..][8..] == t[60..] && t[60..][8..] == t[68..];
    VersionOne(s[4..6]);
  }

  lemma VersionOne(s: seq<byte>)
    requires |s| == 2
    ensures DecU16(s) == 1 <==> s[0] == 0 && s[1] == 1
  {
    assert s[..1][..0] == [] && s == [s[0], s[1]];
    assert FromBigEndian(s[..1]) == s[0];
  }

  /** A tail with the header of a version 1 record: cut off when the record is not all
      there, and fencing otherwise; with any other header it fences. */
  lemma OldVersionTail(env: Env, s: seq<byte>, t: seq<byte>)
    requires ScanAll(env, s).Scanned? && ScanAll(env, s).tail == Clean && Decode(env, t).None?
    requires HEADER_BYTES <= |t| <= MAX_WAL_RECORD && t[5] == 1
    ensures GetHeader(t[..HEADER_BYTES]).Got?
    ensures var h := GetHeader(t[..HEADER_BYTES]).value;
            var old_ := && h.magic == WAL_MAGIC && h.version == 1 && h.header == HEADER_BYTES && h.complement == U32_MAX - h.total
                        && HEADER_BYTES + 4 <= h.total <= MAX_WAL_RECORD && h.store == env.store && h.wal == env.wal;
            ScanAll(env, s + t) == if !old_ then Fenced(Unparseable)
                                   else if h.total > |t| then ScanAll(env, s).(tail := Incomplete, truncated := |t|)
                                   else Fenced(BadComplete)
  {
    hide Classify, Decode, ScanAll, GetHeader, TailPrologue, DecU32;
    PrologueIsHeader(env, t);
    OldVersionClass(env, t);
    ScanWithTail(env, s, t);
  }

  lemma OldVersionClass(env: Env, t: seq<byte>)
    requires HEADER_BYTES <= |t| <= MAX_WAL_RECORD && t[5] == 1
    ensures Classify(env, t) == if !TailPrologue(env, t) then (Unparseable, true)
                                else if DecU32(t[12..16]) > |t| then (Incomplete, false) else (BadComplete, true)
  {
    PrologueIsHeader(env, t);
    hide GetHeader, CrcOk;
  }

  /** Whatever follows a clean log and is no record, by what it looks like: zeros are cut
      off, and so is anything shorter than a header; anything longer whose version is
      not the 1 the prologue test asks for fences the store. */
  lemma ForeignTail(env: Env, s: seq<byte>, t: seq<byte>)
    requires ScanAll(env, s).Scanned? && ScanAll(env, s).tail == Clean && t != [] && Decode(env, t).None?
    ensures AllZero(t) && |t| <= MAX_WAL_RECORD ==> ScanAll(env, s + t) == ScanAll(env, s).(tail := Zero, truncated := |t|)
    ensures !AllZero(t) && |t| < HEADER_BYTES ==> ScanAll(env, s + t) == ScanAll(env, s).(tail := Incomplete, truncated := |t|)
    ensures |t| > MAX_WAL_RECORD ==> ScanAll(env, s + t) == Fenced(Overlong)
    ensures !AllZero(t) && HEADER_BYTES <= |t| <= MAX_WAL_RECORD && t[5] != 1 ==> ScanAll(env, s + t) == Fenced(Unparseable)
  {
    hide Classify, Decode, ScanAll, AllZero;
    ForeignClass(env, t);
    ScanWithTail(env, s, t);
  }

  lemma ForeignClass(env: Env, t: seq<byte>)
    ensures var c := Classify(env, t);
            && (AllZero(t) && |t| <= MAX_WAL_RECORD ==> c == (Zero, false))
            && (!AllZero(t) && |t| < HEADER_BYTES ==> c == (Incomplete, false))
            && (|t| > MAX_WAL_RECORD ==> c == (Overlong, true))
            && (!AllZero(t) && HEADER_BYTES <= |t| <= MAX_WAL_RECORD && t[5] != 1 ==> c == (Unparseable, true))
  {
    hide DecodeHeader;
  }

  /** Preallocated zeros are no record. */
  lemma ZerosAreNoRecord(env: Env, t: seq<byte>)
    requires AllZero(t)
    ensures Decode(env, t).None?
  {
    hide GetHeader, HeaderOk, CrcOk, StartOf;
    var h := Decode(env, t);
    if h.Some? {
      RecordPrologue(env, t, h.value);
    }
  }

  lemma ScanTail(env: Env, s: seq<byte>, c: Cur)
    requires c.at < |s| && c.lsn >= 1 && Decode(env, s[c.at..]).None?
    ensures var (tail, fenced) := Classify(env, s[c.at..]);
            ScanFrom(env, s, c) == if fenced then Fenced(tail) else Finish(c, tail, |s|)
  {
    hide Classify, Decode, Take;
  }

  // ----- the method

  const OK := 1
  const EFENCED := 11

  /** How the truncation ends. */
  datatype Cut = CutSynced | NotCut | CutUnsynced

  class WalFile {
    var bytes: seq<byte>

    /** Scan the file, and on request cut off whatever follows the last valid record.
        A file that is too long or cannot be read is refused, and so is a cut that
        fails or cannot be synced; a clean log is never cut. */
    method Scan(env: Env, truncateTail: bool, readOk: bool, cut: Cut) returns (status: int, result: Result)
      modifies this
      ensures var was := old(bytes);
              var readable := |was| <= env.capacityWal && (was == [] || readOk);
              var r := ScanAll(env, was);
              var cuts := readable && r.Scanned? && r.tail != Clean && truncateTail;
              && (readable ==> result == r)
              && (status == OK <==> readable && r.Scanned? && (cuts ==> cut == CutSynced))
              && (status == OK || status == EFENCED)
              && (r.Scanned? ==> r.valid <= |was| && ScanAll(env, was[..r.valid]) == r.(tail := Clean, truncated := 0))
              && bytes == if cuts && cut != NotCut then was[..r.valid] else was
    {
      hide Classify, Decode, Take;
      result := Fenced(BadComplete);
      status := EFENCED;
      var size := |bytes|;
      if ScanAll(env, bytes).Scanned? {
        RescanIsClean(env, bytes);
      }
      if size > env.capacityWal || (size > 0 && !readOk) { return; }
      var c := START;
      var tail := Clean;
      while c.at < size
        invariant c.at <= size && c.lsn >= 1
        invariant ScanFrom(env, bytes, c) == ScanAll(env, bytes)
        decreases size - c.at
      {
        var h := Decode(env, bytes[c.at..]);
        if h.None? {
          var (class_, fenced) := Classify(env, bytes[c.at..]);
          tail := class_;
          if fenced {
            result := Fenced(tail);
            return;
          }
          break;
        }
        var next := Take(env, bytes[..c.at], bytes[c.at..c.at + h.value.total], h.value, c);
        if next.None? { return; }
        c := next.value;
      }
      result := Finish(c, tail, size);
      if result.Fenced? { return; }
      if tail != Clean && truncateTail {
        if cut == NotCut { return; }
        bytes := bytes[..c.at];
        if cut == CutUnsynced { return; }
      }
      status := OK;
    }
  }
}
