/** The envelope encoder and decoder as they run: moving a cursor field by field
    and entry by entry, against the canonical forms. */
module EnvelopeCodec {
  import opened Wrappers
  import opened Bytes
  import opened Codec
  import opened Cursors
  import opened Envelopes

  // ----- entries

  method WriteWriteEntry(c: Cursor, e: WriteEntry)
    requires c.Valid() && |e.checksum.digest| <= 4
    modifies c, c.buf
    ensures c.Valid()
    ensures c.bad <==> old(c.bad) || WriteEntrySize(e) > c.buf.Length - old(c.len)
    ensures !c.bad ==> c.len == old(c.len) + WriteEntrySize(e)
    ensures !c.bad ==> forall t: seq<byte> {:trigger PutWriteEntry(e, t)} :: c.Written() + t == old(c.Written()) + PutWriteEntry(e, t)
  {
    hide PutU32, PutU64, PutBool, PutRaw, PutBytes, PutOwner, PutChecksum, PutOptGuard, PutOptU64;
    c.PutInt64(e.index);
    c.PutInt32(e.payloadId);
    c.WriteOwner(e.owner);
    c.WriteOptGuard(e.expected);
    c.PutString(e.payload);
    c.WriteChecksum(e.checksum);
  }

  method ReadWriteEntry(c: Cursor) returns (r: Option<WriteEntry>)
    requires c.Valid()
    modifies c
    ensures c.Valid()
    ensures r.Some? <==> !old(c.bad) && GetWriteEntry(old(c.Rest())).Got?
    ensures r.Some? ==> !c.bad && GetWriteEntry(old(c.Rest())) == Got(r.value, c.Rest())
  {
    hide GetU32, GetU64, GetBool, GetRaw, GetBytes, GetOwner, GetChecksum, GetOptGuard, GetOptU64;
    var index :- c.ReadU64();
    var payloadId :- c.ReadU32();
    var owner :- c.ReadOwner();
    var expected :- c.ReadOptGuard();
    var payload :- c.ReadBytes(CHUNK_BYTES_MAX);
    var checksum :- c.ReadChecksum();
    r := Some(WriteEntry(index, payloadId, owner, expected, payload, checksum));
  }

  method WriteLifecycleEntry(c: Cursor, e: LifecycleEntry)
    requires c.Valid()
    modifies c, c.buf
    ensures c.Valid()
    ensures c.bad <==> old(c.bad) || LifecycleEntrySize(e) > c.buf.Length - old(c.len)
    ensures !c.bad ==> c.len == old(c.len) + LifecycleEntrySize(e)
    ensures !c.bad ==> forall t: seq<byte> {:trigger PutLifecycleEntry(e, t)} :: c.Written() + t == old(c.Written()) + PutLifecycleEntry(e, t)
  {
    hide PutU32, PutU64, PutBool, PutRaw, PutBytes, PutOwner, PutChecksum, PutOptGuard, PutOptU64;
    c.PutInt64(e.index);
    c.WriteOwner(e.owner);
    c.PutInt64(e.txn);
    c.WriteOptU64(e.predecessor);
  }

  method ReadLifecycleEntry(c: Cursor) returns (r: Option<LifecycleEntry>)
    requires c.Valid()
    modifies c
    ensures c.Valid()
    ensures r.Some? <==> !old(c.bad) && GetLifecycleEntry(old(c.Rest())).Got?
    ensures r.Some? ==> !c.bad && GetLifecycleEntry(old(c.Rest())) == Got(r.value, c.Rest())
  {
    hide GetU32, GetU64, GetBool, GetRaw, GetBytes, GetOwner, GetChecksum, GetOptGuard, GetOptU64;
    var index :- c.ReadU64();
    var owner :- c.ReadOwner();
    var txn :- c.ReadU64();
    var predecessor :- c.ReadOptU64();
    r := Some(LifecycleEntry(index, owner, txn, predecessor));
  }

  method WriteRollbackEntry(c: Cursor, e: RollbackEntry)
    requires c.Valid()
    modifies c, c.buf
    ensures c.Valid()
    ensures c.bad <==> old(c.bad) || RollbackEntrySize(e) > c.buf.Length - old(c.len)
    ensures !c.bad ==> c.len == old(c.len) + RollbackEntrySize(e)
    ensures !c.bad ==> forall t: seq<byte> {:trigger PutRollbackEntry(e, t)} :: c.Written() + t == old(c.Written()) + PutRollbackEntry(e, t)
  {
    hide PutU32, PutU64, PutBool, PutRaw, PutBytes, PutOwner, PutChecksum, PutOptGuard, PutOptU64;
    c.PutInt64(e.index);
    c.WriteOwner(e.owner);
    c.PutInt64(e.txn);
    c.WriteOptU64(e.visible);
    c.WriteOptU64(e.predecessor);
    c.WriteOptU64(e.custody);
  }

  method ReadRollbackEntry(c: Cursor) returns (r: Option<RollbackEntry>)
    requires c.Valid()
    modifies c
    ensures c.Valid()
    ensures r.Some? <==> !old(c.bad) && GetRollbackEntry(old(c.Rest())).Got?
    ensures r.Some? ==> !c.bad && GetRollbackEntry(old(c.Rest())) == Got(r.value, c.Rest())
  {
    hide GetU32, GetU64, GetBool, GetRaw, GetBytes, GetOwner, GetChecksum, GetOptGuard, GetOptU64;
    var index :- c.ReadU64();
    var owner :- c.ReadOwner();
    var txn :- c.ReadU64();
    var visible :- c.ReadOptU64();
    var predecessor :- c.ReadOptU64();
    var custody :- c.ReadOptU64();
    r := Some(RollbackEntry(index, owner, txn, visible, predecessor, custody));
  }

  method WriteReplacement(c: Cursor, v: Option<Replacement>)
    requires c.Valid() && ReplacementFits(v)
    modifies c, c.buf
    ensures c.Valid()
    ensures c.bad <==> old(c.bad) || ReplacementSize(v) > c.buf.Length - old(c.len)
    ensures !c.bad ==> c.len == old(c.len) + ReplacementSize(v)
    ensures !c.bad ==> forall t: seq<byte> {:trigger PutReplacement(v, t)} :: c.Written() + t == old(c.Written()) + PutReplacement(v, t)
  {
    hide PutU32, PutU64, PutBool, PutRaw, PutBytes, PutOwner, PutChecksum, PutOptGuard, PutOptU64;
    c.PutFlag(v.Some?);
    if v.Some? {
      c.PutString(v.value.payload);
      c.WriteChecksum(v.value.checksum);
    }
  }

  method ReadReplacement(c: Cursor) returns (r: Option<Option<Replacement>>)
    requires c.Valid()
    modifies c
    ensures c.Valid()
    ensures r.Some? <==> !old(c.bad) && GetReplacement(old(c.Rest())).Got?
    ensures r.Some? ==> !c.bad && GetReplacement(old(c.Rest())) == Got(r.value, c.Rest())
  {
    hide GetU32, GetU64, GetBool, GetRaw, GetBytes, GetOwner, GetChecksum, GetOptGuard, GetOptU64;
    var present :- c.ReadBool();
    if !present { return Some(None); }
    var payload :- c.ReadBytes(CHUNK_BYTES_MAX);
    var checksum :- c.ReadChecksum();
    r := Some(Some(Replacement(payload, checksum)));
  }

  method WriteRepairEntry(c: Cursor, e: RepairEntry)
    requires c.Valid() && RepairEntryFits(e)
    modifies c, c.buf
    ensures c.Valid()
    ensures c.bad <==> old(c.bad) || RepairEntrySize(e) > c.buf.Length - old(c.len)
    ensures !c.bad ==> c.len == old(c.len) + RepairEntrySize(e)
    ensures !c.bad ==> forall t: seq<byte> {:trigger PutRepairEntry(e, t)} :: c.Written() + t == old(c.Written()) + PutRepairEntry(e, t)
  {
    hide PutU32, PutU64, PutBool, PutRaw, PutBytes, PutOwner, PutChecksum, PutOptGuard, PutOptU64, PutReplacement;
    c.PutInt64(e.index);
    c.PutInt32(e.mode);
    c.WriteOwner(e.owner);
    c.WriteOptU64(e.txn);
    c.WriteOptU64(e.custody);
    c.WriteOptU64(e.postcond);
    c.WriteOptU64(e.successor);
    c.WriteOptU64(e.predecessor);
    WriteReplacement(c, e.replacement);
  }

  method ReadRepairEntry(c: Cursor) returns (r: Option<RepairEntry>)
    requires c.Valid()
    modifies c
    ensures c.Valid()
    ensures r.Some? <==> !old(c.bad) && GetRepairEntry(old(c.Rest())).Got?
    ensures r.Some? ==> !c.bad && GetRepairEntry(old(c.Rest())) == Got(r.value, c.Rest())
  {
    hide GetU32, GetU64, GetBool, GetRaw, GetBytes, GetOwner, GetChecksum, GetOptGuard, GetOptU64, GetReplacement;
    var index :- c.ReadU64();
    var mode :- c.ReadU32();
    var owner :- c.ReadOwner();
    var txn :- c.ReadOptU64();
    var custody :- c.ReadOptU64();
    var postcond :- c.ReadOptU64();
    var successor :- c.ReadOptU64();
    var predecessor :- c.ReadOptU64();
    var replacement :- ReadReplacement(c);
    r := Some(RepairEntry(index, mode, owner, txn, custody, postcond, successor, predecessor, replacement));
  }

  // ----- vectors

  method WriteWriteEntries(c: Cursor, es: seq<WriteEntry>)
    requires c.Valid() && forall i :: 0 <= i < |es| ==> |es[i].checksum.digest| <= 4
    modifies c, c.buf
    ensures c.Valid()
    ensures c.bad <==> old(c.bad) || Total(WriteEntrySize, es) > c.buf.Length - old(c.len)
    ensures !c.bad ==> c.len == old(c.len) + Total(WriteEntrySize, es)
    ensures !c.bad ==> forall t: seq<byte> {:trigger PutVec(PutWriteEntry, es, t)} :: c.Written() + t == old(c.Written()) + PutVec(PutWriteEntry, es, t)
  {
    hide PutWriteEntry, WriteEntrySize;
    var i := 0;
    while i < |es|
      invariant 0 <= i <= |es| && c.Valid()
      invariant c.bad ==> old(c.bad) || Total(WriteEntrySize, es) > c.buf.Length - old(c.len)
      invariant !c.bad ==> !old(c.bad) && c.len + Total(WriteEntrySize, es[i..]) == old(c.len) + Total(WriteEntrySize, es)
      invariant !c.bad ==> forall t: seq<byte> {:trigger PutVec(PutWriteEntry, es, t)} ::
                  c.Written() + PutVec(PutWriteEntry, es[i..], t) == old(c.Written()) + PutVec(PutWriteEntry, es, t)
    {
      assert es[i..][0] == es[i] && es[i..][1..] == es[i + 1..];
      WriteWriteEntry(c, es[i]);
      i := i + 1;
    }
    assert es[i..] == [];
  }

  method WriteLifecycleEntries(c: Cursor, es: seq<LifecycleEntry>)
    requires c.Valid()
    modifies c, c.buf
    ensures c.Valid()
    ensures c.bad <==> old(c.bad) || Total(LifecycleEntrySize, es) > c.buf.Length - old(c.len)
    ensures !c.bad ==> c.len == old(c.len) + Total(LifecycleEntrySize, es)
    ensures !c.bad ==> forall t: seq<byte> {:trigger PutVec(PutLifecycleEntry, es, t)} :: c.Written() + t == old(c.Written()) + PutVec(PutLifecycleEntry, es, t)
  {
    hide PutLifecycleEntry, LifecycleEntrySize;
    var i := 0;
    while i < |es|
      invariant 0 <= i <= |es| && c.Valid()
      invariant c.bad ==> old(c.bad) || Total(LifecycleEntrySize, es) > c.buf.Length - old(c.len)
      invariant !c.bad ==> !old(c.bad) && c.len + Total(LifecycleEntrySize, es[i..]) == old(c.len) + Total(LifecycleEntrySize, es)
      invariant !c.bad ==> forall t: seq<byte> {:trigger PutVec(PutLifecycleEntry, es, t)} ::
                  c.Written() + PutVec(PutLifecycleEntry, es[i..], t) == old(c.Written()) + PutVec(PutLifecycleEntry, es, t)
    {
      assert es[i..][0] == es[i] && es[i..][1..] == es[i + 1..];
      WriteLifecycleEntry(c, es[i]);
      i := i + 1;
    }
    assert es[i..] == [];
  }

  method WriteRollbackEntries(c: Cursor, es: seq<RollbackEntry>)
    requires c.Valid()
    modifies c, c.buf
    ensures c.Valid()
    ensures c.bad <==> old(c.bad) || Total(RollbackEntrySize, es) > c.buf.Length - old(c.len)
    ensures !c.bad ==> c.len == old(c.len) + Total(RollbackEntrySize, es)
    ensures !c.bad ==> forall t: seq<byte> {:trigger PutVec(PutRollbackEntry, es, t)} :: c.Written() + t == old(c.Written()) + PutVec(PutRollbackEntry, es, t)
  {
    hide PutRollbackEntry, RollbackEntrySize;
    var i := 0;
    while i < |es|
      invariant 0 <= i <= |es| && c.Valid()
      invariant c.bad ==> old(c.bad) || Total(RollbackEntrySize, es) > c.buf.Length - old(c.len)
      invariant !c.bad ==> !old(c.bad) && c.len + Total(RollbackEntrySize, es[i..]) == old(c.len) + Total(RollbackEntrySize, es)
      invariant !c.bad ==> forall t: seq<byte> {:trigger PutVec(PutRollbackEntry, es, t)} ::
                  c.Written() + PutVec(PutRollbackEntry, es[i..], t) == old(c.Written()) + PutVec(PutRollbackEntry, es, t)
    {
      assert es[i..][0] == es[i] && es[i..][1..] == es[i + 1..];
      WriteRollbackEntry(c, es[i]);
      i := i + 1;
    }
    assert es[i..] == [];
  }

  method WriteRepairEntries(c: Cursor, es: seq<RepairEntry>)
    requires c.Valid() && forall i :: 0 <= i < |es| ==> RepairEntryFits(es[i])
    modifies c, c.buf
    ensures c.Valid()
    ensures c.bad <==> old(c.bad) || Total(RepairEntrySize, es) > c.buf.Length - old(c.len)
    ensures !c.bad ==> c.len == old(c.len) + Total(RepairEntrySize, es)
    ensures !c.bad ==> forall t: seq<byte> {:trigger PutVec(PutRepairEntry, es, t)} :: c.Written() + t == old(c.Written()) + PutVec(PutRepairEntry, es, t)
  {
    hide PutRepairEntry, RepairEntrySize;
    var i := 0;
    while i < |es|
      invariant 0 <= i <= |es| && c.Valid()
      invariant c.bad ==> old(c.bad) || Total(RepairEntrySize, es) > c.buf.Length - old(c.len)
      invariant !c.bad ==> !old(c.bad) && c.len + Total(RepairEntrySize, es[i..]) == old(c.len) + Total(RepairEntrySize, es)
      invariant !c.bad ==> forall t: seq<byte> {:trigger PutVec(PutRepairEntry, es, t)} ::
                  c.Written() + PutVec(PutRepairEntry, es[i..], t) == old(c.Written()) + PutVec(PutRepairEntry, es, t)
    {
      assert es[i..][0] == es[i] && es[i..][1..] == es[i + 1..];
      WriteRepairEntry(c, es[i]);
      i := i + 1;
    }
    assert es[i..] == [];
  }

  method ReadLifecycleEntries(c: Cursor, n: nat) returns (r: Option<seq<LifecycleEntry>>)
    requires c.Valid()
    modifies c
    ensures c.Valid()
    ensures r.Some? <==> !old(c.bad) && GetVec(GetLifecycleEntry, n, old(c.Rest())).Got?
    ensures r.Some? ==> !c.bad && GetVec(GetLifecycleEntry, n, old(c.Rest())) == Got(r.value, c.Rest())
  {
    hide GetLifecycleEntry, GetVec, Resumes;
    Starts(GetLifecycleEntry, n, c.Rest());
    var acc: seq<LifecycleEntry> := [];
    if c.bad { return None; }
    var i := 0;
    while i < n
      invariant 0 <= i <= n && c.Valid() && !c.bad
      invariant Resumes(GetLifecycleEntry, n, old(c.Rest()), acc, n - i, c.Rest())
    {
      ResumesNext(GetLifecycleEntry, n, old(c.Rest()), acc, n - i, c.Rest());
      var e :- ReadLifecycleEntry(c);
      acc := acc + [e];
      i := i + 1;
    }
    Ends(GetLifecycleEntry, n, old(c.Rest()), acc, c.Rest());
    r := Some(acc);
  }

  method ReadRollbackEntries(c: Cursor, n: nat) returns (r: Option<seq<RollbackEntry>>)
    requires c.Valid()
    modifies c
    ensures c.Valid()
    ensures r.Some? <==> !old(c.bad) && GetVec(GetRollbackEntry, n, old(c.Rest())).Got?
    ensures r.Some? ==> !c.bad && GetVec(GetRollbackEntry, n, old(c.Rest())) == Got(r.value, c.Rest())
  {
    hide GetRollbackEntry, GetVec, Resumes;
    Starts(GetRollbackEntry, n, c.Rest());
    var acc: seq<RollbackEntry> := [];
    if c.bad { return None; }
    var i := 0;
    while i < n
      invariant 0 <= i <= n && c.Valid() && !c.bad
      invariant Resumes(GetRollbackEntry, n, old(c.Rest()), acc, n - i, c.Rest())
    {
      ResumesNext(GetRollbackEntry, n, old(c.Rest()), acc, n - i, c.Rest());
      var e :- ReadRollbackEntry(c);
      acc := acc + [e];
      i := i + 1;
    }
    Ends(GetRollbackEntry, n, old(c.Rest()), acc, c.Rest());
    r := Some(acc);
  }

  lemma {:induction false} WritePayloadAppends(a: seq<WriteEntry>, b: seq<WriteEntry>)
    ensures WritePayload(a + b) == WritePayload(a) + WritePayload(b)
  {
    if a == [] {
      assert a + b == b;
    } else {
      WritePayloadAppends(a[1..], b);
      assert (a + b)[1..] == a[1..] + b;
    }
  }

  /** Summed while it is read, so an over-long batch is refused part way through. */
  method ReadWriteEntries(c: Cursor, n: nat) returns (r: Option<seq<WriteEntry>>)
    requires c.Valid()
    modifies c
    ensures c.Valid()
    ensures r.Some? <==> !old(c.bad) && GetVec(GetWriteEntry, n, old(c.Rest())).Got?
                         && WritePayload(GetVec(GetWriteEntry, n, old(c.Rest())).value) <= BATCH_PAYLOAD_MAX
    ensures r.Some? ==> !c.bad && GetVec(GetWriteEntry, n, old(c.Rest())) == Got(r.value, c.Rest())
  {
    hide GetWriteEntry, GetVec;
    Starts(GetWriteEntry, n, c.Rest());
    var acc: seq<WriteEntry> := [];
    if c.bad { return None; }
    var aggregate := 0;
    var i := 0;
    while i < n
      invariant 0 <= i <= n && c.Valid() && !c.bad
      invariant aggregate == WritePayload(acc) <= BATCH_PAYLOAD_MAX
      invariant Resumes(GetWriteEntry, n, old(c.Rest()), acc, n - i, c.Rest())
    {
      ResumesNext(GetWriteEntry, n, old(c.Rest()), acc, n - i, c.Rest());
      var e :- ReadWriteEntry(c);
      WritePayloadAppends(acc, [e]);
      acc := acc + [e];
      i := i + 1;
      aggregate := aggregate + |e.payload|;
      if aggregate > BATCH_PAYLOAD_MAX {
        c.bad := true;
        ghost var more := GetVec(GetWriteEntry, n - i, c.Rest());
        if more.Got? {
          WritePayloadAppends(acc, more.value);
        }
        return None;
      }
    }
    Ends(GetWriteEntry, n, old(c.Rest()), acc, c.Rest());
    r := Some(acc);
  }

  lemma {:induction false} RepairPayloadAppends(a: seq<RepairEntry>, b: seq<RepairEntry>)
    ensures RepairPayload(a + b) == RepairPayload(a) + RepairPayload(b)
  {
    if a == [] {
      assert a + b == b;
    } else {
      RepairPayloadAppends(a[1..], b);
      assert (a + b)[1..] == a[1..] + b;
    }
  }

  /** Summed while it is read, so an over-long batch is refused part way through. */
  method ReadRepairEntries(c: Cursor, n: nat) returns (r: Option<seq<RepairEntry>>)
    requires c.Valid()
    modifies c
    ensures c.Valid()
    ensures r.Some? <==> !old(c.bad) && GetVec(GetRepairEntry, n, old(c.Rest())).Got?
                         && RepairPayload(GetVec(GetRepairEntry, n, old(c.Rest())).value) <= BATCH_PAYLOAD_MAX
    ensures r.Some? ==> !c.bad && GetVec(GetRepairEntry, n, old(c.Rest())) == Got(r.value, c.Rest())
  {
    hide GetRepairEntry, GetVec;
    Starts(GetRepairEntry, n, c.Rest());
    var acc: seq<RepairEntry> := [];
    if c.bad { return None; }
    var aggregate := 0;
    var i := 0;
    while i < n
      invariant 0 <= i <= n && c.Valid() && !c.bad
      invariant aggregate == RepairPayload(acc) <= BATCH_PAYLOAD_MAX
      invariant Resumes(GetRepairEntry, n, old(c.Rest()), acc, n - i, c.Rest())
    {
      ResumesNext(GetRepairEntry, n, old(c.Rest()), acc, n - i, c.Rest());
      var e :- ReadRepairEntry(c);
      RepairPayloadAppends(acc, [e]);
      acc := acc + [e];
      i := i + 1;
      aggregate := aggregate + ReplacementPayload(e.replacement);
      if aggregate > BATCH_PAYLOAD_MAX {
        c.bad := true;
        ghost var more := GetVec(GetRepairEntry, n - i, c.Rest());
        if more.Got? {
          RepairPayloadAppends(acc, more.value);
        }
        return None;
      }
    }
    Ends(GetRepairEntry, n, old(c.Rest()), acc, c.Rest());
    r := Some(acc);
  }

  // ----- bodies

  method WriteWrite(c: Cursor, w: WriteBatch)
    requires c.Valid() && ValidWrite(w)
    modifies c, c.buf
    ensures c.Valid()
    ensures c.bad <==> old(c.bad) || 9 + Total(WriteEntrySize, w.entries) > c.buf.Length - old(c.len)
    ensures !c.bad ==> c.len == old(c.len) + 9 + Total(WriteEntrySize, w.entries)
    ensures !c.bad ==> forall t: seq<byte> {:trigger PutWrite(w, t)} :: c.Written() + t == old(c.Written()) + PutWrite(w, t)
  {
    hide PutU32, PutU64, PutBool, PutRaw, PutOptU64, PutVec, Total;
    c.PutInt32(|w.entries|);
    WriteWriteEntries(c, w.entries);
    c.PutInt32(w.stability);
    c.PutFlag(w.activate);
  }

  method ReadWrite(c: Cursor) returns (r: Option<WriteBatch>)
    requires c.Valid()
    modifies c
    ensures c.Valid()
    ensures r.Some? <==> !old(c.bad) && GetWrite(old(c.Rest())).Got?
    ensures r.Some? ==> !c.bad && GetWrite(old(c.Rest())) == Got(r.value, c.Rest())
  {
    hide GetU32, GetU64, GetBool, GetRaw, GetOptU64, GetVec;
    var n :- c.ReadU32();
    if n < BATCH_ENTRIES_MIN || n > BATCH_ENTRIES_MAX {
      c.bad := true;
      return None;
    }
    var es :- ReadWriteEntries(c, n);
    var stability :- c.ReadU32();
    var activate :- c.ReadBool();
    if stability < UNSTABLE || stability > FILE_SYNC {
      c.bad := true;
      return None;
    }
    r := Some(WriteBatch(es, stability, activate));
  }

  method WriteLifecycle(c: Cursor, l: LifecycleBatch)
    requires c.Valid() && ValidLifecycle(l)
    modifies c, c.buf
    ensures c.Valid()
    ensures c.bad <==> old(c.bad) || 28 + Total(LifecycleEntrySize, l.entries) > c.buf.Length - old(c.len)
    ensures !c.bad ==> c.len == old(c.len) + 28 + Total(LifecycleEntrySize, l.entries)
    ensures !c.bad ==> forall t: seq<byte> {:trigger PutLifecycle(l, t)} :: c.Written() + t == old(c.Written()) + PutLifecycle(l, t)
  {
    hide PutU32, PutU64, PutBool, PutRaw, PutOptU64, PutVec, Total;
    c.PutInt64(l.rangeBegin);
    c.PutInt64(l.rangeEnd);
    c.PutInt32(|l.entries|);
    WriteLifecycleEntries(c, l.entries);
    c.PutBlock(l.priorVerifier);
  }

  method ReadLifecycle(c: Cursor) returns (r: Option<LifecycleBatch>)
    requires c.Valid()
    modifies c
    ensures c.Valid()
    ensures r.Some? <==> !old(c.bad) && GetLifecycle(old(c.Rest())).Got?
    ensures r.Some? ==> !c.bad && GetLifecycle(old(c.Rest())) == Got(r.value, c.Rest())
  {
    hide GetU32, GetU64, GetBool, GetRaw, GetOptU64, GetVec;
    RawLaws();
    var lo :- c.ReadU64();
    var hi :- c.ReadU64();
    var n :- c.ReadU32();
    if n < BATCH_ENTRIES_MIN || n > BATCH_ENTRIES_MAX {
      c.bad := true;
      return None;
    }
    var es :- ReadLifecycleEntries(c, n);
    var verifier :- c.ReadRaw(8);
    r := Some(LifecycleBatch(lo, hi, es, verifier));
  }

  method WriteRollback(c: Cursor, b: RollbackBatch)
    requires c.Valid() && ValidRollback(b)
    modifies c, c.buf
    ensures c.Valid()
    ensures c.bad <==> old(c.bad) || 20 + Total(RollbackEntrySize, b.entries) > c.buf.Length - old(c.len)
    ensures !c.bad ==> c.len == old(c.len) + 20 + Total(RollbackEntrySize, b.entries)
    ensures !c.bad ==> forall t: seq<byte> {:trigger PutRollback(b, t)} :: c.Written() + t == old(c.Written()) + PutRollback(b, t)
  {
    hide PutU32, PutU64, PutBool, PutRaw, PutOptU64, PutVec, Total;
    c.PutInt64(b.rangeBegin);
    c.PutInt64(b.rangeEnd);
    c.PutInt32(|b.entries|);
    WriteRollbackEntries(c, b.entries);
  }

  method ReadRollback(c: Cursor) returns (r: Option<RollbackBatch>)
    requires c.Valid()
    modifies c
    ensures c.Valid()
    ensures r.Some? <==> !old(c.bad) && GetRollback(old(c.Rest())).Got?
    ensures r.Some? ==> !c.bad && GetRollback(old(c.Rest())) == Got(r.value, c.Rest())
  {
    hide GetU32, GetU64, GetBool, GetRaw, GetOptU64, GetVec;
    var lo :- c.ReadU64();
    var hi :- c.ReadU64();
    var n :- c.ReadU32();
    if n < BATCH_ENTRIES_MIN || n > BATCH_ENTRIES_MAX {
      c.bad := true;
      return None;
    }
    var es :- ReadRollbackEntries(c, n);
    r := Some(RollbackBatch(lo, hi, es));
  }

  method WriteControl(c: Cursor, op: u32, k: ControlBatch)
    requires c.Valid() && ValidControl(op, k)
    modifies c, c.buf
    ensures c.Valid()
    ensures c.bad <==> old(c.bad) || 12 + Total(HandleSize, k.txns) + OptSize(k.newAdmission) + OptSize(k.readEpoch) > c.buf.Length - old(c.len)
    ensures !c.bad ==> c.len == old(c.len) + 12 + Total(HandleSize, k.txns) + OptSize(k.newAdmission) + OptSize(k.readEpoch)
    ensures !c.bad ==> forall t: seq<byte> {:trigger PutControl(k, t)} :: c.Written() + t == old(c.Written()) + PutControl(k, t)
  {
    hide PutU32, PutU64, PutBool, PutRaw, PutOptU64, PutVec, Total;
    c.PutInt32(|k.txns|);
    WriteHandles(c, k.txns);
    c.PutInt64(k.oldAdmission);
    c.WriteOptU64(k.newAdmission);
    c.WriteOptU64(k.readEpoch);
  }

  method ReadControl(c: Cursor) returns (r: Option<ControlBatch>)
    requires c.Valid()
    modifies c
    ensures c.Valid()
    ensures r.Some? <==> !old(c.bad) && GetControl(old(c.Rest())).Got?
    ensures r.Some? ==> !c.bad && GetControl(old(c.Rest())) == Got(r.value, c.Rest())
  {
    hide GetU32, GetU64, GetBool, GetRaw, GetOptU64, GetVec;
    var n :- c.ReadU32();
    if n < BATCH_ENTRIES_MIN || n > BATCH_ENTRIES_MAX {
      c.bad := true;
      return None;
    }
    var txns :- ReadHandles(c, n);
    var oldAdmission :- c.ReadU64();
    var newAdmission :- c.ReadOptU64();
    var readEpoch :- c.ReadOptU64();
    r := Some(ControlBatch(txns, oldAdmission, newAdmission, readEpoch));
  }

  method WriteRepairTail(c: Cursor, b: RepairBatch)
    requires c.Valid()
    modifies c, c.buf
    ensures c.Valid()
    ensures c.bad <==> old(c.bad) || RepairTailSize(b) > c.buf.Length - old(c.len)
    ensures !c.bad ==> c.len == old(c.len) + RepairTailSize(b)
    ensures !c.bad ==> forall t: seq<byte> {:trigger PutRepairTail(b, t)} :: c.Written() + t == old(c.Written()) + PutRepairTail(b, t)
  {
    hide PutOptU64, PutOptU32, PutOptVerifier, PutOptCertificate;
    c.WriteOptU64(b.cohort);
    c.WriteOptU64(b.episode);
    c.WriteOptU32(b.phase);
    c.WriteOptVerifier(b.verifier);
    c.WriteOptCertificate(b.certificate);
  }

  method WriteRepair(c: Cursor, op: u32, b: RepairBatch)
    requires c.Valid() && ValidRepair(op, b)
    modifies c, c.buf
    ensures c.Valid()
    ensures c.bad <==> old(c.bad) || 20 + Total(RepairEntrySize, b.entries) + RepairTailSize(b) > c.buf.Length - old(c.len)
    ensures !c.bad ==> c.len == old(c.len) + 20 + Total(RepairEntrySize, b.entries) + RepairTailSize(b)
    ensures !c.bad ==> forall t: seq<byte> {:trigger PutRepair(b, t)} :: c.Written() + t == old(c.Written()) + PutRepair(b, t)
  {
    hide PutU32, PutU64, PutBool, PutRaw, PutOptU64, PutVec, Total, PutRepairTail, RepairTailSize;
    c.PutInt64(b.rangeBegin);
    c.PutInt64(b.rangeEnd);
    c.PutInt32(|b.entries|);
    WriteRepairEntries(c, b.entries);
    WriteRepairTail(c, b);
  }

  method ReadRepairTail(c: Cursor, lo: u64, hi: u64, es: seq<RepairEntry>) returns (r: Option<RepairBatch>)
    requires c.Valid()
    modifies c
    ensures c.Valid()
    ensures r.Some? <==> !old(c.bad) && GetRepairTail(lo, hi, es, old(c.Rest())).Got?
    ensures r.Some? ==> !c.bad && GetRepairTail(lo, hi, es, old(c.Rest())) == Got(r.value, c.Rest())
  {
    hide GetOptU64, GetOptU32, GetOptVerifier, GetOptCertificate;
    var cohort :- c.ReadOptU64();
    var episode :- c.ReadOptU64();
    var phase :- c.ReadOptU32();
    var verifier :- c.ReadOptVerifier();
    var certificate :- c.ReadOptCertificate();
    r := Some(RepairBatch(lo, hi, es, cohort, episode, phase, verifier, certificate));
  }

  method ReadRepair(c: Cursor) returns (r: Option<RepairBatch>)
    requires c.Valid()
    modifies c
    ensures c.Valid()
    ensures r.Some? <==> !old(c.bad) && GetRepair(BATCH_PAYLOAD_MAX, old(c.Rest())).Got?
    ensures r.Some? ==> !c.bad && GetRepair(BATCH_PAYLOAD_MAX, old(c.Rest())) == Got(r.value, c.Rest())
  {
    hide GetU32, GetU64, GetBool, GetRaw, GetOptU64, GetVec, GetRepairTail;
    var lo :- c.ReadU64();
    var hi :- c.ReadU64();
    var n :- c.ReadU32();
    if n < BATCH_ENTRIES_MIN || n > BATCH_ENTRIES_MAX {
      c.bad := true;
      return None;
    }
    var es :- ReadRepairEntries(c, n);
    r := ReadRepairTail(c, lo, hi, es);
  }

  // ----- the envelope

  method WriteBody(c: Cursor, env: Envelope)
    requires c.Valid() && Valid(env)
    modifies c, c.buf
    ensures c.Valid()
    ensures c.bad <==> old(c.bad) || BodySize(env.body) > c.buf.Length - old(c.len)
    ensures !c.bad ==> c.len == old(c.len) + BodySize(env.body)
    ensures !c.bad ==> forall t: seq<byte> {:trigger PutBody(env.body, t)} :: c.Written() + t == old(c.Written()) + PutBody(env.body, t)
  {
    hide PutWrite, PutLifecycle, PutRollback, PutControl, PutRepair, Total, RepairTailSize;
    match env.body
    case Write(w) => WriteWrite(c, w);
    case Lifecycle(l) => WriteLifecycle(c, l);
    case Rollback(b) => WriteRollback(c, b);
    case Control(k) => WriteControl(c, env.op, k);
    case Repair(b) => WriteRepair(c, env.op, b);
  }

  /** Encode into a buffer: the length written, or zero for a shape that is not valid or does not fit. */
  method Encode(env: Envelope, buf: array<byte>) returns (n: nat)
    modifies buf
    ensures n != 0 <==> Valid(env) && |Encoding(env)| <= buf.Length
    ensures n != 0 ==> n <= buf.Length && buf[..n] == Encoding(env)
  {
    hide PutU32, PutU64, PutObjKey, PutOpKey, PutBody, BodySize, Valid;
    if !Valid(env) { return 0; }
    EncodingFits(env);
    ValidCount(env);
    BodyLength(env.body);
    Primitives(); Records();
    var c := new Cursor(buf);
    c.WriteObjKey(env.objKey);
    c.PutInt64(env.admission);
    c.PutInt64(env.incarnation);
    c.WriteOpKey(env.key);
    c.PutInt32(env.op);
    WriteBody(c, env);
    if c.bad { return 0; }
    assert c.Written() + [] == c.Written();
    n := c.len;
  }

  method ReadBody(c: Cursor, op: u32) returns (r: Option<Body>)
    requires c.Valid() && OpKnown(op)
    modifies c
    ensures c.Valid()
    ensures r.Some? <==> !old(c.bad) && GetBody(BATCH_PAYLOAD_MAX, op, old(c.Rest())).Got?
    ensures r.Some? ==> !c.bad && GetBody(BATCH_PAYLOAD_MAX, op, old(c.Rest())) == Got(r.value, c.Rest())
  {
    hide GetWrite, GetLifecycle, GetRollback, GetControl, GetRepair;
    if op == OP_WRITE_BATCH {
      var w :- ReadWrite(c);
      r := Some(Write(w));
    } else if op == OP_FINALIZE_BATCH || op == OP_COMMIT_BATCH {
      var l :- ReadLifecycle(c);
      r := Some(Lifecycle(l));
    } else if op == OP_ROLLBACK_BATCH {
      var b :- ReadRollback(c);
      r := Some(Rollback(b));
    } else if op == OP_RECOVERY_ADMIT || op == OP_LEASE_REAP {
      var k :- ReadControl(c);
      r := Some(Control(k));
    } else {
      var b :- ReadRepair(c);
      r := Some(Repair(b));
    }
  }

  method ReadEnvelope(c: Cursor) returns (r: Option<Envelope>)
    requires c.Valid()
    modifies c
    ensures c.Valid()
    ensures r.Some? <==> !old(c.bad) && GetEnvelope(BATCH_PAYLOAD_MAX, old(c.Rest())).Got?
    ensures r.Some? ==> !c.bad && GetEnvelope(BATCH_PAYLOAD_MAX, old(c.Rest())) == Got(r.value, c.Rest())
  {
    hide GetU32, GetU64, GetObjKey, GetOpKey, GetBody;
    var objKey :- c.ReadObjKey();
    var admission :- c.ReadU64();
    var incarnation :- c.ReadU64();
    var key :- c.ReadOpKey();
    var op :- c.ReadU32();
    if !OpKnown(op) { return None; }
    var body :- ReadBody(c, op);
    r := Some(Envelope(objKey, admission, incarnation, key, op, body));
  }

  /** Decode a whole buffer.  By DecodesExactly this accepts exactly the canonical encodings. */
  method Decode(buf: array<byte>) returns (r: Option<Envelope>)
    ensures r == Decoded(buf[..])
  {
    hide GetEnvelope, Valid;
    var c := new Cursor(buf);
    assert c.Rest() == buf[..];
    var env :- ReadEnvelope(c);
    var done := c.Finished();
    if !done { return None; }
    if !Valid(env) { return None; }
    r := Some(env);
  }
}
