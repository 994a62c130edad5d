/** Complete results as the journal logs them.  The in-memory record keeps a
    presence flag beside each optional handle and a fixed array beside the
    member count, so it holds values no encoding carries; the comparison that
    replay makes must see past them. */
module CompleteResults {
  import opened Wrappers
  import opened Bytes
  import opened Codec
  import opened Cursors

  type Members = s: seq<u64> | |s| == 16 witness seq(16, _ => 0)

  /** An optional field: `raw` means nothing unless `present`. */
  datatype Slot = Slot(present: bool, raw: u64)
  datatype Slot32 = Slot32(present: bool, raw: u32)

  datatype CompleteResult = CompleteResult(
    key: OpKey, indexEpoch: u64, eof: u64, disposition: u32, status: u32,
    version: Slot, txn: Slot, cohort: Slot, memberTxnCount: u32, memberTxn: Members,
    postcond: Slot, episode: Slot, member: Slot32, guard: Guard, owner: Owner,
    stability: u32, activated: bool, phase: u32, verifier: Verifier)

  /** What a result says, with nothing that is not logged. */
  datatype Logged = Logged(
    key: OpKey, indexEpoch: u64, eof: u64, disposition: u32, status: u32,
    version: Option<u64>, txn: Option<u64>, cohort: Option<u64>, members: seq<u64>,
    postcond: Option<u64>, episode: Option<u64>, member: Option<u32>, guard: Guard, owner: Owner,
    stability: u32, activated: bool, phase: u32, verifier: Verifier)

  function Seen(s: Slot): Option<u64> { if s.present then Some(s.raw) else None }

  function Seen32(s: Slot32): Option<u32> { if s.present then Some(s.raw) else None }

  function Issued(r: CompleteResult): seq<u64> {
    r.memberTxn[..if r.memberTxnCount <= BATCH_ENTRIES_MAX then r.memberTxnCount else BATCH_ENTRIES_MAX]
  }

  function View(r: CompleteResult): Logged {
    Logged(r.key, r.indexEpoch, r.eof, r.disposition, r.status, Seen(r.version), Seen(r.txn), Seen(r.cohort), Issued(r),
           Seen(r.postcond), Seen(r.episode), Seen32(r.member), r.guard, r.owner, r.stability, r.activated, r.phase, r.verifier)
  }

  // ----- the canonical form, in three runs around the member vector

  function PutFront(l: Logged, t: seq<byte>): seq<byte> {
    PutOpKey(l.key, PutU64(l.indexEpoch, PutU64(l.eof, PutU32(l.disposition, PutU32(l.status,
      PutOptU64(l.version, PutOptU64(l.txn, PutOptU64(l.cohort, t))))))))
  }

  function PutBack(l: Logged, t: seq<byte>): seq<byte> {
    PutOptU64(l.postcond, PutOptU64(l.episode, PutOptU32(l.member, PutGuard(l.guard, PutOwner(l.owner,
      PutU32(l.stability, PutBool(l.activated, PutU32(l.phase, PutRaw(l.verifier, t)))))))))
  }

  /** The bytes of a result that declares `count` members. */
  function PutLogged(l: Logged, count: u32, t: seq<byte>): seq<byte> {
    PutFront(l, PutU32(count, PutVec(PutU64, l.members, PutBack(l, t))))
  }

  /** What the encoder writes.  It declares the count as it is and stops at the array's end. */
  function Encoding(r: CompleteResult): seq<byte> {
    PutLogged(View(r), r.memberTxnCount, [])
  }

  function GetFront(s: seq<byte>): Parse<(OpKey, u64, u64, u32, u32, Option<u64>, Option<u64>, Option<u64>)> {
    var key :- GetOpKey(s);
    var indexEpoch :- GetU64(key.rest);
    var eof :- GetU64(indexEpoch.rest);
    var disposition :- GetU32(eof.rest);
    var status :- GetU32(disposition.rest);
    var version :- GetOptU64(status.rest);
    var txn :- GetOptU64(version.rest);
    var cohort :- GetOptU64(txn.rest);
    Got((key.value, indexEpoch.value, eof.value, disposition.value, status.value, version.value, txn.value, cohort.value), cohort.rest)
  }

  function GetBack(s: seq<byte>): Parse<(Option<u64>, Option<u64>, Option<u32>, Guard, Owner, u32, bool, u32, Verifier)> {
    var postcond :- GetOptU64(s);
    var episode :- GetOptU64(postcond.rest);
    var member :- GetOptU32(episode.rest);
    var guard :- GetGuard(member.rest);
    var owner :- GetOwner(guard.rest);
    var stability :- GetU32(owner.rest);
    var activated :- GetBool(stability.rest);
    var phase :- GetU32(activated.rest);
    var verifier :- GetRaw(8, phase.rest);
    Got((postcond.value, episode.value, member.value, guard.value, owner.value, stability.value, activated.value, phase.value, verifier.value), verifier.rest)
  }

  function GetLogged(s: seq<byte>): Parse<Logged> {
    var f :- GetFront(s);
    var n :- GetU32(f.rest);
    if n.value > BATCH_ENTRIES_MAX then Fail
    else
      var members :- GetVec(GetU64, n.value, n.rest);
      var b :- GetBack(members.rest);
      Got(Logged(f.value.0, f.value.1, f.value.2, f.value.3, f.value.4, f.value.5, f.value.6, f.value.7, members.value,
                 b.value.0, b.value.1, b.value.2, b.value.3, b.value.4, b.value.5, b.value.6, b.value.7, b.value.8), b.rest)
  }

  function ToSlot(v: Option<u64>): Slot { if v.None? then Slot(false, 0) else Slot(true, v.value) }

  function ToSlot32(v: Option<u32>): Slot32 { if v.None? then Slot32(false, 0) else Slot32(true, v.value) }

  /** The record a decoder fills in: everything that was not logged is zero. */
  function Filled(l: Logged): CompleteResult
    requires |l.members| <= BATCH_ENTRIES_MAX
  {
    CompleteResult(l.key, l.indexEpoch, l.eof, l.disposition, l.status, ToSlot(l.version), ToSlot(l.txn), ToSlot(l.cohort),
                   |l.members|, l.members + seq(BATCH_ENTRIES_MAX - |l.members|, _ => 0),
                   ToSlot(l.postcond), ToSlot(l.episode), ToSlot32(l.member), l.guard, l.owner, l.stability, l.activated, l.phase, l.verifier)
  }

  lemma FrontRoundTrip(l: Logged, t: seq<byte>)
    ensures GetFront(PutFront(l, t)) == Got((l.key, l.indexEpoch, l.eof, l.disposition, l.status, l.version, l.txn, l.cohort), t)
  {
    hide PutU32, GetU32, PutU64, GetU64, PutOpKey, GetOpKey, PutOptU64, GetOptU64;
    Primitives(); Records(); Options();
  }

  lemma FrontCanonical(s: seq<byte>, l: Logged)
    requires GetFront(s).Got?
    requires GetFront(s).value == (l.key, l.indexEpoch, l.eof, l.disposition, l.status, l.version, l.txn, l.cohort)
    ensures PutFront(l, GetFront(s).rest) == s
  {
    hide PutU32, GetU32, PutU64, GetU64, PutOpKey, GetOpKey, PutOptU64, GetOptU64;
    Primitives(); Records(); Options();
  }

  lemma BackRoundTrip(l: Logged, t: seq<byte>)
    ensures GetBack(PutBack(l, t))
            == Got((l.postcond, l.episode, l.member, l.guard, l.owner, l.stability, l.activated, l.phase, l.verifier), t)
  {
    hide PutU32, GetU32, PutBool, GetBool, PutRaw, GetRaw, PutGuard, GetGuard, PutOwner, GetOwner, PutOptU64, GetOptU64, PutOptU32, GetOptU32;
    Primitives(); Records(); Options();
  }

  lemma BackCanonical(s: seq<byte>, l: Logged)
    requires GetBack(s).Got?
    requires GetBack(s).value == (l.postcond, l.episode, l.member, l.guard, l.owner, l.stability, l.activated, l.phase, l.verifier)
    ensures PutBack(l, GetBack(s).rest) == s
  {
    hide PutU32, GetU32, PutBool, GetBool, PutRaw, GetRaw, PutGuard, GetGuard, PutOwner, GetOwner, PutOptU64, GetOptU64, PutOptU32, GetOptU32;
    Primitives(); Records(); Options();
  }

  lemma LoggedRoundTrip(l: Logged, t: seq<byte>)
    requires |l.members| <= BATCH_ENTRIES_MAX
    ensures GetLogged(PutLogged(l, |l.members|, t)) == Got(l, t)
  {
    hide PutU32, GetU32, PutU64, GetU64, PutVec, GetVec, PutFront, GetFront, PutBack, GetBack, Lawful;
    Primitives(); HandleLaws();
    FrontRoundTrip(l, PutU32(|l.members|, PutVec(PutU64, l.members, PutBack(l, t))));
    GetOfPutVec(Always<u64>, PutU64, GetU64, l.members, PutBack(l, t));
    BackRoundTrip(l, t);
  }

  lemma LoggedCanonical(s: seq<byte>)
    requires GetLogged(s).Got?
    ensures var p := GetLogged(s);
            |p.value.members| <= BATCH_ENTRIES_MAX && PutLogged(p.value, |p.value.members|, p.rest) == s
  {
    hide PutU32, GetU32, PutU64, GetU64, PutVec, GetVec, PutFront, GetFront, PutBack, GetBack, Lawful;
    Primitives(); HandleLaws();
    var l := GetLogged(s).value;
    var n := GetU32(GetFront(s).rest);
    FrontCanonical(s, l);
    PutOfGetVec(Always<u64>, PutU64, GetU64, n.value, n.rest);
    BackCanonical(GetVec(GetU64, n.value, n.rest).rest, l);
  }

  // ----- decoding and comparing

  function Decoded(s: seq<byte>): Option<CompleteResult> {
    var p := GetLogged(s);
    if p.Fail? || p.rest != [] then None
    else
      LoggedCanonical(s);
      Some(Filled(p.value))
  }

  lemma FilledIsFaithful(l: Logged)
    requires |l.members| <= BATCH_ENTRIES_MAX
    ensures View(Filled(l)) == l && Encoding(Filled(l)) == PutLogged(l, |l.members|, [])
  {
    hide PutLogged;
    assert Issued(Filled(l)) == l.members;
  }

  /** A result with at most 16 members comes back saying the same, the unlogged
      parts zeroed; one that declares more is written but cannot be read. */
  lemma RoundTrip(r: CompleteResult)
    ensures Decoded(Encoding(r)) == if r.memberTxnCount <= BATCH_ENTRIES_MAX then Some(Filled(View(r))) else None
    ensures r.memberTxnCount <= BATCH_ENTRIES_MAX ==> View(Filled(View(r))) == View(r)
  {
    hide PutFront, GetFront, PutBack, GetBack, PutU32, GetU32, PutVec, GetVec;
    var l := View(r);
    if r.memberTxnCount <= BATCH_ENTRIES_MAX {
      LoggedRoundTrip(l, []);
      FilledIsFaithful(l);
    } else {
      U32Laws();
      FrontRoundTrip(l, PutU32(r.memberTxnCount, PutVec(PutU64, l.members, PutBack(l, []))));
    }
  }

  /** Whatever decodes is the encoding of what it decoded to. */
  lemma Canonical(s: seq<byte>)
    requires Decoded(s).Some?
    ensures Decoded(s).value.memberTxnCount <= BATCH_ENTRIES_MAX && Encoding(Decoded(s).value) == s
  {
    hide GetLogged, PutLogged;
    LoggedCanonical(s);
    FilledIsFaithful(GetLogged(s).value);
  }

  /** The comparison replay makes: field by field, an absent field's value ignored.
      Its answer is whether the two results have the same logged bytes. */
  method Equal(a: CompleteResult, b: CompleteResult) returns (same: bool)
    requires a.memberTxnCount == b.memberTxnCount ==> a.memberTxnCount <= BATCH_ENTRIES_MAX
    ensures same <==> Encoding(a) == Encoding(b)
  {
    hide Encoding;
    if a.memberTxnCount == b.memberTxnCount {
      SameBytes(a, b);
    } else {
      assert Encoding(a) != Encoding(b) by {
        if Encoding(a) == Encoding(b) {
          CountIsLogged(a, b);
        }
      }
    }
    if a.key.origin != b.key.origin { return false; }
    if a.key.sequence != b.key.sequence || a.key.ordinal != b.key.ordinal { return false; }
    if a.indexEpoch != b.indexEpoch || a.eof != b.eof { return false; }
    if a.disposition != b.disposition { return false; }
    if a.status != b.status { return false; }
    if a.version.present != b.version.present || (a.version.present && a.version.raw != b.version.raw) { return false; }
    if a.txn.present != b.txn.present || (a.txn.present && a.txn.raw != b.txn.raw) { return false; }
    if a.cohort.present != b.cohort.present || (a.cohort.present && a.cohort.raw != b.cohort.raw) { return false; }
    if a.memberTxnCount != b.memberTxnCount { return false; }
    var i := 0;
    while i < a.memberTxnCount
      invariant 0 <= i <= a.memberTxnCount
      invariant a.memberTxn[..i] == b.memberTxn[..i]
    {
      if a.memberTxn[i] != b.memberTxn[i] {
        assert Issued(a)[i] != Issued(b)[i];
        return false;
      }
      i := i + 1;
    }
    if a.postcond.present != b.postcond.present || (a.postcond.present && a.postcond.raw != b.postcond.raw) { return false; }
    if a.episode.present != b.episode.present || (a.episode.present && a.episode.raw != b.episode.raw) { return false; }
    if a.member.present != b.member.present || (a.member.present && a.member.raw != b.member.raw) { return false; }
    if a.guard.generation != b.guard.generation || a.guard.writer != b.guard.writer || a.guard.neverWritten != b.guard.neverWritten { return false; }
    if a.owner.cohort != b.owner.cohort || a.owner.writer != b.owner.writer || a.owner.coId != b.owner.coId { return false; }
    if a.stability != b.stability || a.activated != b.activated || a.phase != b.phase { return false; }
    same := a.verifier == b.verifier;
  }

  /** The declared count is in the bytes even where it exceeds what can be read. */
  lemma CountIsLogged(a: CompleteResult, b: CompleteResult)
    requires Encoding(a) == Encoding(b)
    ensures a.memberTxnCount == b.memberTxnCount
  {
    hide PutFront, GetFront, PutBack, PutU32, GetU32, PutVec;
    U32Laws();
    FrontRoundTrip(View(a), PutU32(a.memberTxnCount, PutVec(PutU64, View(a).members, PutBack(View(a), []))));
    FrontRoundTrip(View(b), PutU32(b.memberTxnCount, PutVec(PutU64, View(b).members, PutBack(View(b), []))));
  }

  lemma SameBytes(a: CompleteResult, b: CompleteResult)
    requires a.memberTxnCount <= BATCH_ENTRIES_MAX && b.memberTxnCount <= BATCH_ENTRIES_MAX
    ensures Encoding(a) == Encoding(b) <==> View(a) == View(b)
  {
    hide PutLogged, GetLogged;
    LoggedRoundTrip(View(a), []);
    LoggedRoundTrip(View(b), []);
    assert |Issued(a)| == a.memberTxnCount && |Issued(b)| == b.memberTxnCount;
  }

  // ----- the encoder and decoder as they run

  function FrontSize(l: Logged): nat { 52 + OptSize(l.version) + OptSize(l.txn) + OptSize(l.cohort) }

  function BackSize(l: Logged): nat {
    OptSize(l.postcond) + OptSize(l.episode) + (if l.member.None? then 1 else 5) + 42
  }

  lemma Sizes(l: Logged, t: seq<byte>)
    ensures |PutFront(l, t)| == FrontSize(l) + |t| && |PutBack(l, t)| == BackSize(l) + |t|
  {
    hide PutU32, PutU64, PutBool, PutRaw, PutOpKey, PutGuard, PutOwner, PutOptU64, PutOptU32;
    Primitives(); Records(); Options();
  }

  method WriteFront(c: Cursor, r: CompleteResult)
    requires c.Valid()
    modifies c, c.buf
    ensures c.Valid()
    ensures c.bad <==> old(c.bad) || FrontSize(View(r)) > c.buf.Length - old(c.len)
    ensures !c.bad ==> c.len == old(c.len) + FrontSize(View(r))
    ensures !c.bad ==> forall t: seq<byte> {:trigger PutFront(View(r), t)} :: c.Written() + t == old(c.Written()) + PutFront(View(r), t)
  {
    hide PutU32, PutU64, PutOpKey, PutOptU64;
    c.WriteOpKey(r.key);
    c.PutInt64(r.indexEpoch);
    c.PutInt64(r.eof);
    c.PutInt32(r.disposition);
    c.PutInt32(r.status);
    c.WriteOptU64(Seen(r.version));
    c.WriteOptU64(Seen(r.txn));
    c.WriteOptU64(Seen(r.cohort));
  }

  method WriteBack(c: Cursor, r: CompleteResult)
    requires c.Valid()
    modifies c, c.buf
    ensures c.Valid()
    ensures c.bad <==> old(c.bad) || BackSize(View(r)) > c.buf.Length - old(c.len)
    ensures !c.bad ==> c.len == old(c.len) + BackSize(View(r))
    ensures !c.bad ==> forall t: seq<byte> {:trigger PutBack(View(r), t)} :: c.Written() + t == old(c.Written()) + PutBack(View(r), t)
  {
    hide PutU32, PutBool, PutRaw, PutGuard, PutOwner, PutOptU64, PutOptU32;
    c.WriteOptU64(Seen(r.postcond));
    c.WriteOptU64(Seen(r.episode));
    c.WriteOptU32(Seen32(r.member));
    c.WriteGuard(r.guard);
    c.WriteOwner(r.owner);
    c.PutInt32(r.stability);
    c.PutFlag(r.activated);
    c.PutInt32(r.phase);
    c.PutBlock(r.verifier);
  }

  /** The length written, or zero when the encoding does not fit. */
  method Encode(r: CompleteResult, buf: array<byte>) returns (n: nat)
    modifies buf
    ensures n != 0 <==> |Encoding(r)| <= buf.Length
    ensures n != 0 ==> n <= buf.Length && buf[..n] == Encoding(r)
  {
    hide PutU32, PutU64, PutVec, PutFront, PutBack, FrontSize, BackSize, View, Total;
    var c := new Cursor(buf);
    Lengths(r);
    WriteFront(c, r);
    c.PutInt32(r.memberTxnCount);
    WriteHandles(c, Issued(r));
    WriteBack(c, r);
    if c.bad { return 0; }
    assert c.Written() + [] == c.Written();
    n := c.len;
  }

  lemma Lengths(r: CompleteResult)
    ensures var l := View(r);
            && l.members == Issued(r)
            && |Encoding(r)| == FrontSize(l) + 4 + Total(HandleSize, l.members) + BackSize(l) && FrontSize(l) > 0
  {
    hide PutU32, PutU64, PutVec, PutFront, PutBack, Total, BackSize;
    var l := View(r);
    U32Laws(); U64Laws();
    Sizes(l, []);
    VecSize(HandleSize, PutU64, l.members, PutBack(l, []));
    Sizes(l, PutU32(r.memberTxnCount, PutVec(PutU64, l.members, PutBack(l, []))));
  }

  method ReadFront(c: Cursor) returns (r: Option<(OpKey, u64, u64, u32, u32, Option<u64>, Option<u64>, Option<u64>)>)
    requires c.Valid()
    modifies c
    ensures c.Valid()
    ensures r.Some? <==> !old(c.bad) && GetFront(old(c.Rest())).Got?
    ensures r.Some? ==> !c.bad && GetFront(old(c.Rest())) == Got(r.value, c.Rest())
  {
    hide GetU32, GetU64, GetOpKey, GetOptU64;
    var key :- c.ReadOpKey();
    var indexEpoch :- c.ReadU64();
    var eof :- c.ReadU64();
    var disposition :- c.ReadU32();
    var status :- c.ReadU32();
    var version :- c.ReadOptU64();
    var txn :- c.ReadOptU64();
    var cohort :- c.ReadOptU64();
    r := Some((key, indexEpoch, eof, disposition, status, version, txn, cohort));
  }

  method ReadBack(c: Cursor) returns (r: Option<(Option<u64>, Option<u64>, Option<u32>, Guard, Owner, u32, bool, u32, Verifier)>)
    requires c.Valid()
    modifies c
    ensures c.Valid()
    ensures r.Some? <==> !old(c.bad) && GetBack(old(c.Rest())).Got?
    ensures r.Some? ==> !c.bad && GetBack(old(c.Rest())) == Got(r.value, c.Rest())
  {
    hide GetU32, GetBool, GetRaw, GetGuard, GetOwner, GetOptU64, GetOptU32;
    RawLaws();
    var postcond :- c.ReadOptU64();
    var episode :- c.ReadOptU64();
    var member :- c.ReadOptU32();
    var guard :- c.ReadGuard();
    var owner :- c.ReadOwner();
    var stability :- c.ReadU32();
    var activated :- c.ReadBool();
    var phase :- c.ReadU32();
    var verifier :- c.ReadRaw(8);
    r := Some((postcond, episode, member, guard, owner, stability, activated, phase, verifier));
  }

  method Decode(buf: array<byte>) returns (r: Option<CompleteResult>)
    ensures r == Decoded(buf[..])
  {
    hide GetU32, GetFront, GetBack, GetVec;
    var c := new Cursor(buf);
    assert c.Rest() == buf[..];
    var f :- ReadFront(c);
    var n :- c.ReadU32();
    if n > BATCH_ENTRIES_MAX { return None; }
    var members :- ReadHandles(c, n);
    var b :- ReadBack(c);
    var done := c.Finished();
    if !done { return None; }
    var l := Logged(f.0, f.1, f.2, f.3, f.4, f.5, f.6, f.7, members, b.0, b.1, b.2, b.3, b.4, b.5, b.6, b.7, b.8);
    LoggedCanonical(buf[..]);
    r := Some(Filled(l));
  }
}
