/** The D1 journal: framed records in an append vector with a separate durable
    length.  The checksum is a parameter, so the results hold for any CRC. */
module Journal {
  import opened Bytes
  import Codec
  import Cursors

  const MAGIC: u32 := 0x44314a31
  const FORMAT: u16 := 2
  const HEADER_BYTES := 56
  const TRAILER_BYTES := 4
  const RECORD_MAX := 8 * 1024 * 1024
  const U32_MAX := 0xffff_ffff
  const U64_MAX := 0xffff_ffff_ffff_ffff

  type Checksum = seq<byte> -> u32

  /** What a record says; its LSN is its position in the log. */
  datatype Rec = Rec(kind: u32, incarnation: u64, body: seq<byte>)

  // ----- framing

  datatype Header = Header(magic: u32, format: u16, kind: u16, headerBytes: u32, total: u32, complement: u32,
                           uuid: Uuid, lsn: u64, incarnation: u64, reserved: u32)

  function EncHeader(h: Header): (s: seq<byte>)
    ensures |s| == HEADER_BYTES
  {
    EncU32(h.magic) + (EncU16(h.format) + (EncU16(h.kind) + (EncU32(h.headerBytes) + (EncU32(h.total)
      + (EncU32(h.complement) + (h.uuid + (EncU64(h.lsn) + (EncU64(h.incarnation) + EncU32(h.reserved)))))))))
  }

  function DecHeader(s: seq<byte>): Header
    requires |s| >= HEADER_BYTES
  {
    Header(DecU32(s[..4]), DecU16(s[4..6]), DecU16(s[6..8]), DecU32(s[8..12]), DecU32(s[12..16]), DecU32(s[16..20]),
           s[20..36], DecU64(s[36..44]), DecU64(s[44..52]), DecU32(s[52..56]))
  }

  lemma HeaderSlices(h: Header, rest: seq<byte>)
    ensures var s := EncHeader(h) + rest;
            && s[..4] == EncU32(h.magic) && s[4..6] == EncU16(h.format) && s[6..8] == EncU16(h.kind)
            && s[8..12] == EncU32(h.headerBytes) && s[12..16] == EncU32(h.total) && s[16..20] == EncU32(h.complement)
            && s[20..36] == h.uuid && s[36..44] == EncU64(h.lsn) && s[44..52] == EncU64(h.incarnation)
            && s[52..56] == EncU32(h.reserved)
  {
    hide EncU16, EncU32, EncU64;
  }

  lemma HeaderRoundTrip(h: Header, rest: seq<byte>)
    ensures DecHeader(EncHeader(h) + rest) == h
  {
    hide EncU16, EncU32, EncU64, DecU16, DecU32, DecU64;
    HeaderSlices(h, rest);
    U32RoundTrip(h.magic, EncU32(0));
    U16RoundTrip(h.format, EncU16(0));
    U16RoundTrip(h.kind, EncU16(0));
    U32RoundTrip(h.headerBytes, EncU32(0));
    U32RoundTrip(h.total, EncU32(0));
    U32RoundTrip(h.complement, EncU32(0));
    U64RoundTrip(h.lsn, EncU64(0));
    U64RoundTrip(h.incarnation, EncU64(0));
    U32RoundTrip(h.reserved, EncU32(0));
  }

  /** Decoding loses nothing: the header bytes are those the fields encode to. */
  lemma HeaderCanonical(s: seq<byte>)
    requires |s| >= HEADER_BYTES
    ensures EncHeader(DecHeader(s)) == s[..HEADER_BYTES]
  {
    hide EncU16, EncU32, EncU64, DecU16, DecU32, DecU64;
    U32RoundTrip(0, s[..4]);
    U16RoundTrip(0, s[4..6]);
    U16RoundTrip(0, s[6..8]);
    U32RoundTrip(0, s[8..12]);
    U32RoundTrip(0, s[12..16]);
    U32RoundTrip(0, s[16..20]);
    U64RoundTrip(0, s[36..44]);
    U64RoundTrip(0, s[44..52]);
    U32RoundTrip(0, s[52..56]);
    Rejoin(s[..HEADER_BYTES]);
    assert s[..HEADER_BYTES][..4] == s[..4];
  }

  lemma Rejoin(s: seq<byte>)
    requires |s| == HEADER_BYTES
    ensures s[..4] + (s[4..6] + (s[6..8] + (s[8..12] + (s[12..16] + (s[16..20] + (s[20..36] + (s[36..44] + (s[44..52] + s[52..56])))))))) == s
  {
    assert s[44..52] + s[52..56] == s[44..];
    assert s[36..44] + s[44..] == s[36..];
    assert s[20..36] + s[36..] == s[20..];
    assert s[16..20] + s[20..] == s[16..];
    assert s[12..16] + s[16..] == s[12..];
    assert s[8..12] + s[12..] == s[8..];
    assert s[6..8] + s[8..] == s[6..];
    assert s[4..6] + s[6..] == s[4..];
  }

  /** Reading field by field arrives at the same header. */
  lemma HeaderFields(s: seq<byte>)
    requires |s| >= HEADER_BYTES
    ensures var h := DecHeader(s);
            && Codec.GetU32(s) == Codec.Got(h.magic, s[4..]) && Codec.GetU16(s[4..]) == Codec.Got(h.format, s[6..])
            && Codec.GetU16(s[6..]) == Codec.Got(h.kind, s[8..]) && Codec.GetU32(s[8..]) == Codec.Got(h.headerBytes, s[12..])
            && Codec.GetU32(s[12..]) == Codec.Got(h.total, s[16..]) && Codec.GetU32(s[16..]) == Codec.Got(h.complement, s[20..])
            && Codec.GetRaw(16, s[20..]) == Codec.Got(h.uuid, s[36..]) && Codec.GetU64(s[36..]) == Codec.Got(h.lsn, s[44..])
            && Codec.GetU64(s[44..]) == Codec.Got(h.incarnation, s[52..]) && Codec.GetU32(s[52..]) == Codec.Got(h.reserved, s[56..])
  {
    hide DecU16, DecU32, DecU64;
    assert s[4..][..2] == s[4..6] && s[4..][2..] == s[6..] && s[6..][..2] == s[6..8] && s[6..][2..] == s[8..];
    assert s[8..][..4] == s[8..12] && s[8..][4..] == s[12..] && s[12..][..4] == s[12..16] && s[12..][4..] == s[16..];
    assert s[16..][..4] == s[16..20] && s[16..][4..] == s[20..] && s[20..][..16] == s[20..36] && s[20..][16..] == s[36..];
    assert s[36..][..8] == s[36..44] && s[36..][8..] == s[44..] && s[44..][..8] == s[44..52] && s[44..][8..] == s[52..];
    assert s[52..][..4] == s[52..56] && s[52..][4..] == s[56..];
  }

  predicate KindOk(kind: int) {
    1 <= kind <= 4
  }

  /** Records the append path accepts. */
  predicate Storable(r: Rec) {
    KindOk(r.kind) && HEADER_BYTES + |r.body| + TRAILER_BYTES <= RECORD_MAX
  }

  function Size(r: Rec): nat {
    HEADER_BYTES + |r.body| + TRAILER_BYTES
  }

  function HeaderOf(r: Rec, uuid: Uuid, lsn: u64): Header
    requires Storable(r)
  {
    Header(MAGIC, FORMAT, r.kind, HEADER_BYTES, Size(r), U32_MAX - Size(r), uuid, lsn, r.incarnation, 0)
  }

  function Framed(crc: Checksum, r: Rec, uuid: Uuid, lsn: u64): (s: seq<byte>)
    requires Storable(r)
    ensures |s| == Size(r)
  {
    var covered := EncHeader(HeaderOf(r, uuid, lsn)) + r.body;
    covered + EncU32(crc(covered))
  }

  // ----- reading

  datatype Read = CleanEnd | Corrupt | Record(kind: u32, lsn: u64, incarnation: u64, body: seq<byte>, next: nat)

  /** One more, in 64 bits. */
  function FollowingLsn(lsn: u64): u64 {
    (lsn + 1) % 0x1_0000_0000_0000_0000
  }

  /** One read of the durable prefix `log` at offset `at`. */
  function ReadAt(crc: Checksum, uuid: Uuid, log: seq<byte>, at: nat, lastLsn: u64): (r: Read)
    requires at <= |log|
    ensures r.Record? ==> at < r.next <= |log| && r.lsn == FollowingLsn(lastLsn)
  {
    if at == |log| then CleanEnd
    else if |log| - at < HEADER_BYTES + TRAILER_BYTES then Corrupt
    else
      var h := DecHeader(log[at..]);
      if h.magic != MAGIC || h.format != FORMAT || !KindOk(h.kind) || h.headerBytes != HEADER_BYTES then Corrupt
      else if h.complement != U32_MAX - h.total then Corrupt
      else if h.total < HEADER_BYTES + TRAILER_BYTES || h.total > RECORD_MAX || h.total > |log| - at then Corrupt
      else if h.uuid != uuid || h.reserved != 0 || h.lsn != FollowingLsn(lastLsn) then Corrupt
      else
        var end := at + h.total;
        if crc(log[at..end - TRAILER_BYTES]) != DecU32(log[end - TRAILER_BYTES..end]) then Corrupt
        else Record(h.kind, h.lsn, h.incarnation, log[at + HEADER_BYTES..end - TRAILER_BYTES], end)
  }

  datatype Entry = Entry(kind: u32, lsn: u64, incarnation: u64, body: seq<byte>)

  datatype Outcome = Outcome(entries: seq<Entry>, clean: bool)

  /** Read until the end or the first corruption. */
  function ReadAll(crc: Checksum, uuid: Uuid, log: seq<byte>, at: nat, lastLsn: u64): Outcome
    requires at <= |log|
    decreases |log| - at
  {
    match ReadAt(crc, uuid, log, at, lastLsn)
    case CleanEnd => Outcome([], true)
    case Corrupt => Outcome([], false)
    case Record(kind, lsn, inc, body, next) =>
      var rest := ReadAll(crc, uuid, log, next, lsn);
      Outcome([Entry(kind, lsn, inc, body)] + rest.entries, rest.clean)
  }

  // ----- whole logs

  predicate AllStorable(recs: seq<Rec>) {
    forall i :: 0 <= i < |recs| ==> Storable(recs[i])
  }

  /** The bytes of the records, the first carrying LSN `first`. */
  function Flatten(crc: Checksum, uuid: Uuid, recs: seq<Rec>, first: nat): seq<byte>
    requires AllStorable(recs) && first + |recs| <= U64_MAX + 1
  {
    if recs == [] then [] else Framed(crc, recs[0], uuid, first) + Flatten(crc, uuid, recs[1..], first + 1)
  }

  function Entries(recs: seq<Rec>, first: nat): seq<Entry>
    requires first + |recs| <= U64_MAX + 1
  {
    if recs == [] then []
    else [Entry(recs[0].kind, first, recs[0].incarnation, recs[0].body)] + Entries(recs[1..], first + 1)
  }

  /** A record that is whole is read back exactly. */
  lemma FramedIsRead(crc: Checksum, uuid: Uuid, log: seq<byte>, at: nat, r: Rec, lastLsn: u64)
    requires Storable(r) && at + Size(r) <= |log|
    requires log[at..at + Size(r)] == Framed(crc, r, uuid, FollowingLsn(lastLsn))
    ensures ReadAt(crc, uuid, log, at, lastLsn) == Record(r.kind, FollowingLsn(lastLsn), r.incarnation, r.body, at + Size(r))
  {
    hide EncHeader, DecHeader, EncU32, DecU32, FollowingLsn;
    var h := HeaderOf(r, uuid, FollowingLsn(lastLsn));
    var covered := EncHeader(h) + r.body;
    var end := at + Size(r);
    var frame := log[at..end];
    assert log[at..] == frame + log[end..];
    assert log[at..] == EncHeader(h) + (r.body + EncU32(crc(covered)) + log[end..]);
    HeaderRoundTrip(h, r.body + EncU32(crc(covered)) + log[end..]);
    assert log[at..end - TRAILER_BYTES] == frame[..Size(r) - TRAILER_BYTES] == covered;
    assert log[end - TRAILER_BYTES..end] == frame[Size(r) - TRAILER_BYTES..] == EncU32(crc(covered));
    U32RoundTrip(crc(covered), EncU32(0));
    assert log[at + HEADER_BYTES..end - TRAILER_BYTES] == covered[HEADER_BYTES..] == r.body;
  }

  lemma ReadFramed(crc: Checksum, uuid: Uuid, pre: seq<byte>, r: Rec, post: seq<byte>, lsn: u64)
    requires Storable(r) && lsn >= 1
    ensures var log := pre + Framed(crc, r, uuid, lsn) + post;
            ReadAt(crc, uuid, log, |pre|, lsn - 1) == Record(r.kind, lsn, r.incarnation, r.body, |pre| + Size(r))
  {
    hide Framed, ReadAt;
    var log := pre + Framed(crc, r, uuid, lsn) + post;
    assert log[|pre|..|pre| + Size(r)] == Framed(crc, r, uuid, lsn);
    FramedIsRead(crc, uuid, log, |pre|, r, lsn - 1);
  }

  /** Nothing else is ever returned: the bytes a record was read from are exactly the
      frame of that record, with the expected UUID, the next LSN and its checksum. */
  lemma ReadIsFramed(crc: Checksum, uuid: Uuid, log: seq<byte>, at: nat, lastLsn: u64)
    requires at <= |log| && ReadAt(crc, uuid, log, at, lastLsn).Record?
    ensures var r := ReadAt(crc, uuid, log, at, lastLsn);
            var rec := Rec(r.kind, r.incarnation, r.body);
            && Storable(rec) && r.next == at + Size(rec) <= |log|
            && r.lsn == FollowingLsn(lastLsn) && log[at..r.next] == Framed(crc, rec, uuid, r.lsn)
  {
    hide EncHeader, DecHeader, EncU32, DecU32, FollowingLsn;
    var r := ReadAt(crc, uuid, log, at, lastLsn);
    var rec := Rec(r.kind, r.incarnation, r.body);
    var s := log[at..];
    var h := DecHeader(s);
    HeaderCanonical(s);
    assert h == HeaderOf(rec, uuid, r.lsn);
    var covered := log[at..r.next - TRAILER_BYTES];
    assert covered == s[..HEADER_BYTES] + r.body;
    var trailer := log[r.next - TRAILER_BYTES..r.next];
    U32RoundTrip(0, trailer);
    assert log[at..r.next] == covered + trailer;
  }

  /** One read, exactly: a record if and only if its frame stands there, the end if and
      only if nothing is left, and corruption otherwise. */
  lemma ReadExactly(crc: Checksum, uuid: Uuid, log: seq<byte>, at: nat, lastLsn: u64, rec: Rec)
    requires at <= |log|
    ensures var r := ReadAt(crc, uuid, log, at, lastLsn);
            var lsn := FollowingLsn(lastLsn);
            && (r.CleanEnd? <==> at == |log|)
            && (r == Record(rec.kind, lsn, rec.incarnation, rec.body, at + Size(rec)) <==>
                Storable(rec) && at + Size(rec) <= |log| && log[at..at + Size(rec)] == Framed(crc, rec, uuid, lsn))
  {
    ReadEndOnly(crc, uuid, log, at, lastLsn);
    hide ReadAt, Framed, FollowingLsn;
    if ReadAt(crc, uuid, log, at, lastLsn).Record? {
      ReadIsFramed(crc, uuid, log, at, lastLsn);
    }
    if Storable(rec) && at + Size(rec) <= |log| && log[at..at + Size(rec)] == Framed(crc, rec, uuid, FollowingLsn(lastLsn)) {
      FramedIsRead(crc, uuid, log, at, rec, lastLsn);
    }
  }

  lemma ReadEndOnly(crc: Checksum, uuid: Uuid, log: seq<byte>, at: nat, lastLsn: u64)
    requires at <= |log|
    ensures ReadAt(crc, uuid, log, at, lastLsn).CleanEnd? <==> at == |log|
  {
    hide DecHeader, DecU32;
  }

  /** A record cut short is never reported as an end, nor as a record. */
  lemma ReadTorn(crc: Checksum, uuid: Uuid, pre: seq<byte>, r: Rec, lsn: u64, k: nat)
    requires Storable(r) && lsn >= 1 && 0 < k < Size(r)
    ensures ReadAt(crc, uuid, pre + Framed(crc, r, uuid, lsn)[..k], |pre|, lsn - 1) == Corrupt
  {
    hide EncHeader, DecHeader, EncU32, DecU32;
    var h := HeaderOf(r, uuid, lsn);
    var log := pre + Framed(crc, r, uuid, lsn)[..k];
    if k >= HEADER_BYTES + TRAILER_BYTES {
      var rest := Framed(crc, r, uuid, lsn)[HEADER_BYTES..k];
      assert log[|pre|..] == EncHeader(h) + rest;
      HeaderRoundTrip(h, rest);
    }
  }

  /** Whole records before `cut`. */
  function WholeBefore(recs: seq<Rec>, cut: nat): (n: nat)
    ensures n <= |recs|
  {
    if recs == [] || cut < Size(recs[0]) then 0 else 1 + WholeBefore(recs[1..], cut - Size(recs[0]))
  }

  function TotalSize(recs: seq<Rec>): nat {
    if recs == [] then 0 else Size(recs[0]) + TotalSize(recs[1..])
  }

  lemma {:induction false} FlattenSize(crc: Checksum, uuid: Uuid, recs: seq<Rec>, first: nat)
    requires AllStorable(recs) && first + |recs| <= U64_MAX + 1
    ensures |Flatten(crc, uuid, recs, first)| == TotalSize(recs)
  {
    hide Framed;
    if recs != [] {
      FlattenSize(crc, uuid, recs[1..], first + 1);
    }
  }

  /** Cut a log anywhere: the whole records before the cut are read back exactly,
      then a clean end if the cut is a record boundary and corruption otherwise. */
  lemma {:induction false} ReadCut(crc: Checksum, uuid: Uuid, pre: seq<byte>, recs: seq<Rec>, first: nat, cut: nat)
    requires AllStorable(recs) && 1 <= first && first + |recs| <= U64_MAX + 1
    requires cut <= TotalSize(recs)
    ensures |Flatten(crc, uuid, recs, first)| == TotalSize(recs)
    ensures var n := WholeBefore(recs, cut);
            ReadAll(crc, uuid, pre + Flatten(crc, uuid, recs, first)[..cut], |pre|, first - 1)
            == Outcome(Entries(recs[..n], first), cut == TotalSize(recs[..n]))
    decreases |recs|
  {
    hide Framed, ReadAt;
    FlattenSize(crc, uuid, recs, first);
    var log := pre + Flatten(crc, uuid, recs, first)[..cut];
    if cut == 0 {
      ReadEnd(crc, uuid, log, first - 1);
    } else {
      var frame, tail := Framed(crc, recs[0], uuid, first), Flatten(crc, uuid, recs[1..], first + 1);
      if cut < Size(recs[0]) {
        assert Flatten(crc, uuid, recs, first)[..cut] == frame[..cut];
        ReadTorn(crc, uuid, pre, recs[0], first, cut);
      } else {
        var cut' := cut - Size(recs[0]);
        assert Flatten(crc, uuid, recs, first)[..cut] == frame + tail[..cut'] by { FlattenSize(crc, uuid, recs[1..], first + 1); }
        assert log == pre + frame + tail[..cut'];
        ReadFramed(crc, uuid, pre, recs[0], tail[..cut'], first);
        ReadCut(crc, uuid, pre + frame, recs[1..], first + 1, cut');
        var n := WholeBefore(recs, cut);
        assert recs[..n][1..] == recs[1..][..n - 1];
      }
    }
  }

  lemma ReadEnd(crc: Checksum, uuid: Uuid, log: seq<byte>, last: u64)
    ensures ReadAt(crc, uuid, log, |log|, last) == CleanEnd
  {}

  lemma {:induction false} AllWhole(recs: seq<Rec>)
    ensures WholeBefore(recs, TotalSize(recs)) == |recs|
  {
    if recs != [] {
      AllWhole(recs[1..]);
    }
  }

  /** An uncut log reads back completely and cleanly. */
  lemma ReadWhole(crc: Checksum, uuid: Uuid, recs: seq<Rec>)
    requires AllStorable(recs) && |recs| <= U64_MAX
    ensures ReadAll(crc, uuid, Flatten(crc, uuid, recs, 1), 0, 0) == Outcome(Entries(recs, 1), true)
  {
    hide ReadAll, Flatten, Entries;
    AllWhole(recs);
    ReadCut(crc, uuid, [], recs, 1, TotalSize(recs));
    var log := Flatten(crc, uuid, recs, 1);
    assert [] + log[..TotalSize(recs)] == log;
    assert recs[..|recs|] == recs;
  }

  /** The converse, for any bytes at all: what a drain returns is what stands there, frame
      after frame; it is clean exactly when nothing else does. */
  lemma {:induction false} ReadBack(crc: Checksum, uuid: Uuid, log: seq<byte>, at: nat, lastLsn: u64) returns (recs: seq<Rec>)
    requires at <= |log| && lastLsn + |ReadAll(crc, uuid, log, at, lastLsn).entries| <= U64_MAX
    ensures AllStorable(recs) && lastLsn + |recs| <= U64_MAX
    ensures var out, flat := ReadAll(crc, uuid, log, at, lastLsn), Flatten(crc, uuid, recs, lastLsn + 1);
            out.entries == Entries(recs, lastLsn + 1) && flat <= log[at..] && (out.clean <==> flat == log[at..])
    decreases |log| - at
  {
    hide ReadAt, Framed;
    ReadEndOnly(crc, uuid, log, at, lastLsn);
    var r := ReadAt(crc, uuid, log, at, lastLsn);
    if r.Record? {
      ReadIsFramed(crc, uuid, log, at, lastLsn);
      var rec := Rec(r.kind, r.incarnation, r.body);
      var rest := ReadBack(crc, uuid, log, r.next, r.lsn);
      recs := [rec] + rest;
      assert recs[1..] == rest;
      assert log[at..] == log[at..r.next] + log[r.next..];
    } else {
      recs := [];
    }
  }

  lemma {:induction false} EntriesInjective(a: seq<Rec>, b: seq<Rec>, first: nat)
    requires first + |a| <= U64_MAX + 1 && first + |b| <= U64_MAX + 1 && Entries(a, first) == Entries(b, first)
    ensures a == b
  {
    if a != [] && b != [] {
      assert Entries(a, first)[0] == Entries(b, first)[0];
      assert Entries(a, first)[1..] == Entries(a[1..], first + 1) && Entries(b, first)[1..] == Entries(b[1..], first + 1);
      EntriesInjective(a[1..], b[1..], first + 1);
      assert a == [a[0]] + a[1..] && b == [b[0]] + b[1..];
    }
  }

  lemma {:induction false} EntriesSize(recs: seq<Rec>, first: nat)
    requires first + |recs| <= U64_MAX + 1
    ensures |Entries(recs, first)| == |recs|
  {
    if recs != [] {
      EntriesSize(recs[1..], first + 1);
    }
  }

  /** A log reads back cleanly as given records if and only if it is, byte for byte, their frames. */
  lemma ReadsExactly(crc: Checksum, uuid: Uuid, log: seq<byte>, recs: seq<Rec>)
    requires AllStorable(recs) && |recs| <= U64_MAX
    ensures ReadAll(crc, uuid, log, 0, 0) == Outcome(Entries(recs, 1), true) <==> log == Flatten(crc, uuid, recs, 1)
  {
    hide ReadAll, Flatten, Entries;
    ReadWhole(crc, uuid, recs);
    if ReadAll(crc, uuid, log, 0, 0) == Outcome(Entries(recs, 1), true) {
      EntriesSize(recs, 1);
      var found := ReadBack(crc, uuid, log, 0, 0);
      EntriesInjective(found, recs, 1);
      assert log[0..] == log;
    }
  }

  lemma {:induction false} FlattenAppend(crc: Checksum, uuid: Uuid, recs: seq<Rec>, more: seq<Rec>, first: nat)
    requires AllStorable(recs) && AllStorable(more) && AllStorable(recs + more) && first + |recs| + |more| <= U64_MAX + 1
    ensures Flatten(crc, uuid, recs + more, first)
         == Flatten(crc, uuid, recs, first) + Flatten(crc, uuid, more, first + |recs|)
  {
    hide Framed;
    if recs == [] {
      assert recs + more == more;
    } else {
      assert (recs + more)[1..] == recs[1..] + more;
      FlattenAppend(crc, uuid, recs[1..], more, first + 1);
    }
  }

  // ----- the abstract journal: a list of records and a durable mark

  datatype Abstract = Abstract(recs: seq<Rec>, durable: nat, incarnation: u64, failAppendIn: u32, failNextFlush: bool)

  datatype Op =
    | Append(kind: u32, body: seq<byte>)
    | Flush
    | Rollback
    | ArmAppend(n: u32)
    | ArmFlush
    | SetIncarnation(inc: u64)

  /** Whether the operation succeeds. */
  predicate Accepts(a: Abstract, op: Op) {
    match op
    case Append(kind, body) =>
      a.failAppendIn != 1 && Storable(Rec(kind, a.incarnation, body)) && |a.recs| + 1 < U64_MAX
    case Flush => !a.failNextFlush
    case _ => true
  }

  function Next(a: Abstract, op: Op): Abstract {
    match op
    case Append(kind, body) =>
      var b := if a.failAppendIn > 0 then a.(failAppendIn := a.failAppendIn - 1) else a;
      if Accepts(a, op) then b.(recs := a.recs + [Rec(kind, a.incarnation, body)]) else b
    case Flush => if a.failNextFlush then a.(failNextFlush := false) else a.(durable := |a.recs|)
    case Rollback => if a.durable <= |a.recs| then a.(recs := a.recs[..a.durable]) else a
    case ArmAppend(n) => a.(failAppendIn := n)
    case ArmFlush => a.(failNextFlush := true)
    case SetIncarnation(inc) => a.(incarnation := inc)
  }

  predicate Sound(a: Abstract) {
    a.durable <= |a.recs| && |a.recs| < U64_MAX && AllStorable(a.recs)
  }

  function Run(a: Abstract, ops: seq<Op>): Abstract
    decreases |ops|
  {
    if ops == [] then a else Run(Next(a, ops[0]), ops[1..])
  }

  const EMPTY := Abstract([], 0, 0, 0, false)

  lemma {:induction false} RunSound(a: Abstract, ops: seq<Op>)
    requires Sound(a)
    ensures Sound(Run(a, ops))
    decreases |ops|
  {
    if ops != [] {
      RunSound(Next(a, ops[0]), ops[1..]);
    }
  }

  /** A record once claimed durable is never discarded or changed, whatever happens later. */
  lemma {:induction false} DurableForever(a: Abstract, ops: seq<Op>)
    requires Sound(a)
    ensures var b := Run(a, ops); a.durable <= b.durable <= |b.recs| && b.recs[..a.durable] == a.recs[..a.durable]
    decreases |ops|
  {
    if ops != [] {
      var next := Next(a, ops[0]);
      RunSound(a, [ops[0]]);
      DurableForever(next, ops[1..]);
      RunSound(next, ops[1..]);
      var b := Run(a, ops);
      assert next.recs[..a.durable] == a.recs[..a.durable];
      assert b.recs[..a.durable] == b.recs[..next.durable][..a.durable];
      assert next.recs[..next.durable][..a.durable] == next.recs[..a.durable];
    }
  }

  lemma {:induction false} RunSplit(a: Abstract, first: seq<Op>, rest: seq<Op>)
    ensures Run(a, first + rest) == Run(Run(a, first), rest)
    decreases |first|
  {
    hide Next;
    if first == [] {
      assert first + rest == rest;
    } else {
      assert (first + rest)[1..] == first[1..] + rest;
      RunSplit(Next(a, first[0]), first[1..], rest);
    }
  }

  /** Operation i of the run is a flush that succeeds. */
  predicate FlushedAt(a: Abstract, ops: seq<Op>, i: nat) {
    i < |ops| && ops[i].Flush? && !Run(a, ops[..i]).failNextFlush
  }

  lemma FlushedLater(a: Abstract, ops: seq<Op>, n: nat, i: nat)
    requires n <= |ops|
    ensures FlushedAt(Run(a, ops[..n]), ops[n..], i) <==> FlushedAt(a, ops, n + i)
  {
    if n + i < |ops| {
      assert ops[..n + i] == ops[..n] + ops[n..][..i];
      RunSplit(a, ops[..n], ops[n..][..i]);
    }
  }

  lemma {:induction false} NothingFlushed(a: Abstract, ops: seq<Op>)
    requires Sound(a) && forall i :: 0 <= i < |ops| ==> !FlushedAt(a, ops, i)
    ensures var b := Run(a, ops); Sound(b) && b.recs[..b.durable] == a.recs[..a.durable]
    decreases |ops|
  {
    if ops != [] {
      var next := Next(a, ops[0]);
      RunSound(a, [ops[0]]);
      assert ops[..0] == [] && !FlushedAt(a, ops, 0);
      assert Run(a, ops[..1]) == next by { assert ops[..1] == [ops[0]]; }
      forall i | 0 <= i < |ops[1..]| ensures !FlushedAt(next, ops[1..], i) {
        FlushedLater(a, ops, 1, i);
        assert !FlushedAt(a, ops, 1 + i);
      }
      NothingFlushed(next, ops[1..]);
    }
  }

  /** What is durable after a run: exactly the records the log held at the last flush
      that succeeded.  Appends since then, and rollbacks, make no difference. */
  lemma DurableIsLastFlush(a: Abstract, ops: seq<Op>, i: nat)
    requires Sound(a) && FlushedAt(a, ops, i) && forall j :: i < j < |ops| ==> !FlushedAt(a, ops, j)
    ensures var b := Run(a, ops); Sound(b) && b.recs[..b.durable] == Run(a, ops[..i]).recs
  {
    hide Next;
    var held := Run(a, ops[..i]);
    RunSound(a, ops[..i]);
    assert ops[..i + 1] == ops[..i] + [Flush];
    RunSplit(a, ops[..i], [Flush]);
    var flushed := Run(a, ops[..i + 1]);
    FlushStep(held);
    var rest := ops[i + 1..];
    forall j | 0 <= j < |rest| ensures !FlushedAt(flushed, rest, j) {
      FlushedLater(a, ops, i + 1, j);
      assert !FlushedAt(a, ops, i + 1 + j);
    }
    NothingFlushed(flushed, rest);
    assert ops == ops[..i + 1] + rest;
    RunSplit(a, ops[..i + 1], rest);
  }

  lemma FlushStep(a: Abstract)
    requires Sound(a) && !a.failNextFlush
    ensures var b := Run(a, [Flush]); Sound(b) && b.recs == a.recs && b.recs[..b.durable] == a.recs
  {
    assert [Flush][1..] == [];
  }

  /** A rollback goes back to the last successful flush, no further and no less. */
  lemma RollbackIsLastFlush(a: Abstract, ops: seq<Op>, i: nat)
    requires Sound(a) && FlushedAt(a, ops, i) && forall j :: i < j < |ops| ==> !FlushedAt(a, ops, j)
    ensures Run(a, ops + [Rollback]).recs == Run(a, ops[..i]).recs
  {
    DurableIsLastFlush(a, ops, i);
    RunSplit(a, ops, [Rollback]);
    assert [Rollback][1..] == [];
  }

  function Appends(ops: seq<Op>): nat {
    if ops == [] then 0 else Appends(ops[..|ops| - 1]) + if ops[|ops| - 1].Append? then 1 else 0
  }

  /** An armed append fault counts down by appends alone, successful or not, and the
      append that brings it to zero is refused. */
  lemma {:induction false} ArmedCountsDown(a: Abstract, ops: seq<Op>)
    requires forall i :: 0 <= i < |ops| ==> !ops[i].ArmAppend?
    ensures Run(a, ops).failAppendIn == if a.failAppendIn > Appends(ops) then a.failAppendIn - Appends(ops) else 0
    decreases |ops|
  {
    if ops != [] {
      var n := |ops| - 1;
      ArmedCountsDown(a, ops[..n]);
      assert ops == ops[..n] + [ops[n]];
      RunSplit(a, ops[..n], [ops[n]]);
      assert [ops[n]][1..] == [];
    }
  }

  /** The n-th append after arming is refused, whatever lies between. */
  lemma ArmedAppendIsRefused(a: Abstract, n: u32, ops: seq<Op>, kind: u32, body: seq<byte>)
    requires n >= 1 && Appends(ops) == n - 1 && forall i :: 0 <= i < |ops| ==> !ops[i].ArmAppend?
    ensures var b := Run(a, [ArmAppend(n)] + ops);
            Next(b, Append(kind, body)) == b.(failAppendIn := 0)
  {
    RunSplit(a, [ArmAppend(n)], ops);
    assert [ArmAppend(n)][1..] == [];
    ArmedCountsDown(a.(failAppendIn := n), ops);
  }

  /** Nothing held at a successful flush is lost by anything that follows. */
  lemma FlushedStays(a: Abstract, ops: seq<Op>)
    requires Sound(a) && !a.failNextFlush
    ensures a.recs <= Run(a, [Flush] + ops).recs
  {
    hide Next;
    FlushStep(a);
    RunSplit(a, [Flush], ops);
    var b := Run(a, [Flush]);
    DurableForever(b, ops);
    assert Run(b, ops).recs[..|a.recs|] == a.recs;
  }

  // ----- the journal as it is kept in memory

  class Log {
    const crc: Checksum
    const uuid: Uuid
    var buf: seq<byte>
    var len: nat
    var durable: nat
    var durableLsn: u64
    var nextLsn: u64
    var incarnation: u64
    var failAppendIn: u32
    var failNextFlush: bool
    /** The records the bytes up to `len` frame. */
    ghost var recs: seq<Rec>
    ghost var claimed: nat

    /** The in-memory journal is the byte image of the abstract one: lengths lie
        on record boundaries and LSNs count records. */
    ghost predicate Valid()
      reads this
    {
      && Sound(View()) && len <= |buf|
      && buf[..len] == Flatten(crc, uuid, recs, 1)
      && durable == TotalSize(recs[..claimed])
      && nextLsn == |recs| + 1 && durableLsn == claimed + 1
    }

    ghost function View(): Abstract
      reads this
    {
      Abstract(recs, claimed, incarnation, failAppendIn, failNextFlush)
    }

    constructor (crc: Checksum, uuid: Uuid)
      ensures Valid() && View() == EMPTY && this.crc == crc && this.uuid == uuid
    {
      this.crc, this.uuid := crc, uuid;
      buf, len, durable := [], 0, 0;
      nextLsn, durableLsn, incarnation := 1, 1, 0;
      failAppendIn, failNextFlush := 0, false;
      recs, claimed := [], 0;
    }

    method SetIncarnation(inc: u64)
      requires Valid()
      modifies this`incarnation
      ensures Valid() && View() == Next(old(View()), Op.SetIncarnation(inc))
      ensures incarnation == inc
    {
      incarnation := inc;
    }

    method ArmAppend(n: u32)
      requires Valid()
      modifies this`failAppendIn
      ensures Valid() && View() == Next(old(View()), Op.ArmAppend(n))
      ensures failAppendIn == n
    {
      failAppendIn := n;
    }

    method ArmFlush()
      requires Valid()
      modifies this`failNextFlush
      ensures Valid() && View() == Next(old(View()), Op.ArmFlush)
      ensures failNextFlush
    {
      failNextFlush := true;
    }

    /** Append one record, or leave the log untouched. */
    method Append(kind: u32, body: seq<byte>) returns (ok: bool)
      requires Valid()
      modifies this`buf, this`len, this`nextLsn, this`failAppendIn, this`recs
      ensures Valid() && View() == Next(old(View()), Op.Append(kind, body))
      ensures ok <==> old(failAppendIn) != 1 && 1 <= kind <= 4 && |body| <= RECORD_MAX - 60 && old(nextLsn) < U64_MAX
      ensures ok ==> var r := Rec(kind, old(incarnation), body);
                     && recs == old(recs) + [r] && nextLsn == old(nextLsn) + 1
                     && len <= |buf| && buf[..len] == old(buf[..len]) + Framed(crc, r, uuid, old(nextLsn))
      ensures !ok ==> buf == old(buf) && len == old(len) && nextLsn == old(nextLsn) && recs == old(recs)
    {
      hide Framed, Flatten;
      if failAppendIn > 0 {
        failAppendIn := failAppendIn - 1;
        if failAppendIn == 0 {
          return false;
        }
      }
      if kind < 1 || kind > 4 {
        return false;
      }
      var total := HEADER_BYTES + |body| + TRAILER_BYTES;
      if total > RECORD_MAX || total > U32_MAX {
        return false;
      }
      if nextLsn == U64_MAX {
        return false;
      }
      var r := Rec(kind, incarnation, body);
      AppendBytes(crc, uuid, recs, r);
      buf := buf[..len] + Framed(crc, r, uuid, nextLsn);
      len := len + total;
      nextLsn := nextLsn + 1;
      assert (recs + [r])[..claimed] == recs[..claimed];
      recs := recs + [r];
      return true;
    }

    method Flush() returns (ok: bool)
      requires Valid()
      modifies this`durable, this`durableLsn, this`failNextFlush, this`claimed
      ensures Valid() && View() == Next(old(View()), Op.Flush)
      ensures ok <==> !old(failNextFlush)
      ensures ok ==> durable == len && durableLsn == nextLsn && claimed == |recs|
      ensures !ok ==> durable == old(durable) && durableLsn == old(durableLsn) && claimed == old(claimed) && !failNextFlush
    {
      hide Framed, Flatten, TotalSize;
      if failNextFlush {
        failNextFlush := false;
        return false;
      }
      FlattenSize(crc, uuid, recs, 1);
      assert recs[..|recs|] == recs;
      durable := len;
      durableLsn := nextLsn;
      claimed := |recs|;
      return true;
    }

    method Rollback()
      requires Valid()
      modifies this`len, this`nextLsn, this`recs
      ensures Valid() && View() == Next(old(View()), Op.Rollback)
      ensures len == durable && nextLsn == durableLsn && recs == old(recs[..claimed])
    {
      hide Framed, Flatten, TotalSize;
      PrefixBytes(crc, uuid, recs, claimed);
      assert recs[..claimed][..claimed] == recs[..claimed];
      len := durable;
      nextLsn := durableLsn;
      recs := recs[..claimed];
      assert buf[..len] == old(buf[..len])[..len];
    }

    /** Continue a durable prefix that an earlier run left behind.  The bytes are taken
        as they are; when they frame records, the journal is the one that wrote them. */
    method Adopt(log: seq<byte>, next: u64, ghost rs: seq<Rec>) returns (ok: bool)
      requires Valid()
      modifies this`buf, this`len, this`durable, this`nextLsn, this`durableLsn, this`recs, this`claimed
      ensures ok <==> old(len) == 0
      ensures ok ==> buf == log && len == durable == |log| && nextLsn == durableLsn == next
      ensures ok && AllStorable(rs) && |rs| < U64_MAX && log == Flatten(crc, uuid, rs, 1) && next == |rs| + 1
              ==> Valid() && recs == rs && claimed == |rs|
      ensures !ok ==> Valid() && View() == old(View())
    {
      hide Framed, Flatten, TotalSize;
      if len != 0 {
        return false;
      }
      buf, len, durable := log, |log|, |log|;
      nextLsn, durableLsn := next, next;
      recs, claimed := rs, |rs|;
      if AllStorable(rs) && |rs| < U64_MAX && log == Flatten(crc, uuid, rs, 1) {
        FlattenSize(crc, uuid, rs, 1);
        assert rs[..|rs|] == rs;
      }
      return true;
    }

    /** Replay an arbitrary sequence of operations. */
    method Perform(ops: seq<Op>)
      requires Valid()
      modifies this
      ensures Valid() && View() == Run(old(View()), ops)
    {
      for i := 0 to |ops|
        invariant Valid() && Run(View(), ops[i..]) == Run(old(View()), ops)
      {
        assert ops[i..][0] == ops[i] && ops[i..][1..] == ops[i + 1..];
        match ops[i] {
          case Append(kind, body) => var _ := Append(kind, body);
          case Flush => var _ := Flush();
          case Rollback => Rollback();
          case ArmAppend(n) => ArmAppend(n);
          case ArmFlush => ArmFlush();
          case SetIncarnation(inc) => SetIncarnation(inc);
        }
      }
      assert ops[|ops|..] == [];
    }

    /** Whatever was done, the durable prefix reads back as exactly the records
        claimed durable, in order, with LSNs 1, 2, ..., and then a clean end. */
    lemma DurablePrefixReadsBack()
      requires Valid()
      ensures durable <= len
      ensures ReadAll(crc, uuid, buf[..durable], 0, 0) == Outcome(Entries(recs[..claimed], 1), true)
    {
      hide ReadAll, Flatten, Entries;
      PrefixBytes(crc, uuid, recs, claimed);
      ReadWhole(crc, uuid, recs[..claimed]);
      assert buf[..durable] == buf[..len][..durable];
    }
  }

  lemma AppendBytes(crc: Checksum, uuid: Uuid, recs: seq<Rec>, r: Rec)
    requires AllStorable(recs) && Storable(r) && |recs| + 1 <= U64_MAX
    ensures AllStorable(recs + [r])
    ensures Flatten(crc, uuid, recs + [r], 1) == Flatten(crc, uuid, recs, 1) + Framed(crc, r, uuid, |recs| + 1)
  {
    hide Framed;
    FlattenAppend(crc, uuid, recs, [r], 1);
  }

  lemma PrefixBytes(crc: Checksum, uuid: Uuid, recs: seq<Rec>, n: nat)
    requires AllStorable(recs) && |recs| <= U64_MAX && n <= |recs|
    ensures var size := TotalSize(recs[..n]);
            size <= |Flatten(crc, uuid, recs, 1)| && Flatten(crc, uuid, recs, 1)[..size] == Flatten(crc, uuid, recs[..n], 1)
  {
    hide Framed, Flatten;
    assert recs == recs[..n] + recs[n..];
    FlattenAppend(crc, uuid, recs[..n], recs[n..], 1);
    FlattenSize(crc, uuid, recs[..n], 1);
  }

  /** The reader, as the recovery path drives it, over a buffer of `durable` bytes. */
  class Cursor {
    const crc: Checksum
    const expectUuid: Uuid
    const log: array<byte>
    var at: nat
    var lastLsn: u64

    ghost predicate Valid()
      reads this
    {
      at <= log.Length
    }

    constructor (crc: Checksum, log: array<byte>, uuid: Uuid)
      ensures Valid() && this.crc == crc && this.log == log && expectUuid == uuid && at == 0 && lastLsn == 0
    {
      this.crc, this.log, expectUuid, at, lastLsn := crc, log, uuid, 0, 0;
    }

    /** The fields up to the total length, in the order they stand. */
    method ReadLengths(cur: Cursors.Cursor, ghost s: seq<byte>) returns (kind: u16, total: u32, ok: bool)
      requires cur.Valid() && !cur.bad && cur.Rest() == s && |s| >= HEADER_BYTES
      modifies cur
      ensures cur.Valid()
      ensures var h := DecHeader(s);
              && (ok <==> && h.magic == MAGIC && h.format == FORMAT && KindOk(h.kind) && h.headerBytes == HEADER_BYTES
                          && h.complement == U32_MAX - h.total)
              && (ok ==> !cur.bad && cur.Rest() == s[20..] && kind == h.kind && total == h.total)
    {
      hide DecHeader, Codec.GetU16, Codec.GetU32;
      kind, total, ok := 0, 0, false;
      HeaderFields(s);
      var magic := cur.ReadU32();
      if magic.None? || magic.value != MAGIC { return; }
      var format := cur.ReadU16();
      if format.None? || format.value != FORMAT { return; }
      var rtype := cur.ReadU16();
      if rtype.None? || rtype.value < 1 || rtype.value > 4 { return; }
      var headerBytes := cur.ReadU32();
      if headerBytes.None? || headerBytes.value != HEADER_BYTES { return; }
      var length := cur.ReadU32();
      if length.None? { return; }
      var complement := cur.ReadU32();
      if complement.None? { return; }
      if complement.value != U32_MAX - length.value { return; }
      kind, total, ok := rtype.value, length.value, true;
    }

    /** The rest of the header. */
    method ReadIdentity(cur: Cursors.Cursor, ghost s: seq<byte>) returns (lsn: u64, incarnation: u64, ok: bool)
      requires cur.Valid() && !cur.bad && |s| >= HEADER_BYTES && cur.Rest() == s[20..]
      modifies cur
      ensures cur.Valid()
      ensures var h := DecHeader(s);
              && (ok <==> h.uuid == expectUuid && h.reserved == 0 && h.lsn == FollowingLsn(lastLsn))
              && (ok ==> lsn == h.lsn && incarnation == h.incarnation)
    {
      hide DecHeader, Codec.GetU32, Codec.GetU64, Codec.GetRaw;
      lsn, incarnation, ok := 0, 0, false;
      HeaderFields(s);
      var uuid := cur.ReadRaw(16);
      if uuid.None? || uuid.value != expectUuid { return; }
      var rlsn := cur.ReadU64();
      if rlsn.None? { return; }
      var rinc := cur.ReadU64();
      if rinc.None? { return; }
      var reserved := cur.ReadU32();
      if reserved.None? || reserved.value != 0 { return; }
      if rlsn.value != FollowingLsn(lastLsn) { return; }
      lsn, incarnation, ok := rlsn.value, rinc.value, true;
    }

    /** The checksum in the trailer covers the record up to it. */
    method CheckTrailer(end: nat) returns (ok: bool)
      requires at + TRAILER_BYTES <= end <= log.Length
      ensures ok <==> crc(log[..][at..end - TRAILER_BYTES]) == DecU32(log[..][end - TRAILER_BYTES..end])
    {
      hide DecU32;
      var trailer := log[end - TRAILER_BYTES..end];
      Cursors.ValueOfFour(trailer);
      var stored := trailer[0] as int * 0x100_0000 + trailer[1] as int * 0x1_0000 + trailer[2] as int * 0x100 + trailer[3];
      assert log[..][end - TRAILER_BYTES..end] == trailer && log[..][at..end - TRAILER_BYTES] == log[at..end - TRAILER_BYTES];
      ok := crc(log[at..end - TRAILER_BYTES]) == stored;
    }

    /** Hand back the next record, or say why there is none: a walk over the header's
        fields, each tested as it is read, then the trailer.  Only a record moves the
        cursor.  By ReadFramed and ReadTorn a whole record is returned exactly and a
        cut one is corruption. */
    method Next() returns (r: Read)
      requires Valid()
      modifies this
      ensures Valid() && r == ReadAt(crc, expectUuid, log[..], old(at), old(lastLsn))
      ensures if r.Record? then at == r.next && lastLsn == r.lsn else at == old(at) && lastLsn == old(lastLsn)
      ensures r.CleanEnd? <==> old(at) == log.Length
      ensures r.Record? ==> var rec := Rec(r.kind, r.incarnation, r.body);
                            && Storable(rec) && at == old(at) + Size(rec)
                            && log[old(at)..at] == Framed(crc, rec, expectUuid, FollowingLsn(old(lastLsn)))
    {
      hide DecHeader, DecU32, Framed;
      var remaining := log.Length - at;
      if at == log.Length { return CleanEnd; }
      if remaining < HEADER_BYTES + TRAILER_BYTES { return Corrupt; }
      ghost var s := log[..][at..];
      var cur := new Cursors.Cursor.At(log, at);
      assert cur.Rest() == s;
      var kind, total, lengthsOk := ReadLengths(cur, s);
      if !lengthsOk { return Corrupt; }
      if total < HEADER_BYTES + TRAILER_BYTES || total > RECORD_MAX || total > remaining { return Corrupt; }
      var lsn, incarnation, identityOk := ReadIdentity(cur, s);
      if !identityOk { return Corrupt; }
      var end := at + total;
      var trailerOk := CheckTrailer(end);
      if !trailerOk { return Corrupt; }
      r := Record(kind, lsn, incarnation, log[at + HEADER_BYTES..end - TRAILER_BYTES], end);
      assert log[..][at + HEADER_BYTES..end - TRAILER_BYTES] == r.body;
      ReadIsFramed(crc, expectUuid, log[..], at, lastLsn);
      assert log[..][at..end] == log[at..end];
      lastLsn, at := lsn, end;
    }

    /** Drain the cursor. */
    method Drain() returns (entries: seq<Entry>, clean: bool)
      requires Valid()
      modifies this
      ensures Outcome(entries, clean) == ReadAll(crc, expectUuid, log[..], old(at), old(lastLsn))
    {
      hide ReadAt, ReadAll;
      entries, clean := [], false;
      ghost var whole := ReadAll(crc, expectUuid, log[..], at, lastLsn);
      while true
        invariant Valid()
        invariant whole == Before(entries, ReadAll(crc, expectUuid, log[..], at, lastLsn))
        decreases log.Length - at
      {
        ReadAllStep(crc, expectUuid, log[..], at, lastLsn);
        var r := Next();
        if r.Record? {
          var entry := Entry(r.kind, r.lsn, r.incarnation, r.body);
          BeforeStep(entries, entry, ReadAll(crc, expectUuid, log[..], at, lastLsn));
          entries := entries + [entry];
        } else {
          clean := r.CleanEnd?;
          return;
        }
      }
    }
  }

  ghost function Before(entries: seq<Entry>, rest: Outcome): Outcome {
    Outcome(entries + rest.entries, rest.clean)
  }

  lemma BeforeStep(entries: seq<Entry>, e: Entry, rest: Outcome)
    ensures Before(entries, Before([e], rest)) == Before(entries + [e], rest)
  {
    assert entries + ([e] + rest.entries) == entries + [e] + rest.entries;
  }

  lemma ReadAllStep(crc: Checksum, uuid: Uuid, log: seq<byte>, at: nat, lastLsn: u64)
    requires at <= |log|
    ensures var r := ReadAt(crc, uuid, log, at, lastLsn);
            ReadAll(crc, uuid, log, at, lastLsn) ==
            if r.Record? then Before([Entry(r.kind, r.lsn, r.incarnation, r.body)], ReadAll(crc, uuid, log, r.next, r.lsn))
            else Outcome([], r.CleanEnd?)
  {
    hide ReadAt;
  }
}
