/** The golden byte strings of the formats, field by field: what the encodings of
    fixed values have to be.  They tie the canonical forms to the field order,
    widths and tags that recorded journals and logs depend on. */
module Golden {
  import opened Wrappers
  import opened Bytes
  import opened Codec
  import Envelopes
  import CompleteResults
  import Cursors
  import Journal
  import WalScan

  /** Sixteen bytes counting up from `base`. */
  function Counting(base: byte): (u: Uuid)
    requires base <= 240
  {
    seq(16, i requires 0 <= i < 16 => base + i)
  }

  /** A u64 whose value fits two bytes. */
  lemma Word64(hi: byte, lo: byte)
    ensures EncU64(hi * 256 + lo) == [0, 0, 0, 0, 0, 0, hi, lo]
  {
    var v := hi * 256 + lo;
    assert v / 256 == hi && v % 256 == lo && hi / 256 == 0;
    assert BigEndian(0, 1) == [0];
    assert BigEndian(0, 2) == [0, 0];
    assert BigEndian(0, 3) == [0, 0, 0];
    assert BigEndian(0, 4) == [0, 0, 0, 0];
    assert BigEndian(0, 5) == [0, 0, 0, 0, 0];
    assert BigEndian(0, 6) == [0, 0, 0, 0, 0, 0];
    assert BigEndian(hi, 7) == [0, 0, 0, 0, 0, 0, hi];
  }

  lemma Word32(hi: byte, lo: byte)
    ensures EncU32(hi * 256 + lo) == [0, 0, hi, lo]
  {
    var v := hi * 256 + lo;
    assert v / 256 == hi && v % 256 == lo && hi / 256 == 0;
    assert BigEndian(0, 1) == [0];
    assert BigEndian(0, 2) == [0, 0];
    assert BigEndian(hi, 3) == [0, 0, hi];
  }

  function GoldenWrite(): Envelopes.Envelope {
    var e := Envelopes.WriteEntry(0, 0x4242, Owner(42, 11, 1), Some(Guard(0, 0, true)), [0x64, 0x61, 0x74, 0x61],
                                  Checksum(2, [0xae, 0xd8, 0x7d, 0xd1]));
    Envelopes.Envelope(ObjKey(Counting(0x00), Counting(0x10)), 7, 1, OpKey(Counting(0x20), 5, 0), Envelopes.OP_WRITE_BATCH,
                       Envelopes.Write(Envelopes.WriteBatch([e], 3, true)))
  }

  /** What every golden envelope starts with, up to its operation tag. */
  function HeadThen(tag: byte, t: seq<byte>): seq<byte> {
    Counting(0x00) + (Counting(0x10)
    + ([0, 0, 0, 0, 0, 0, 0, 7]
    + ([0, 0, 0, 0, 0, 0, 0, 1]
    + (Counting(0x20) + ([0, 0, 0, 0, 0, 0, 0, 5] + ([0, 0, 0, 0]
    + ([0, 0, 0, tag] + t)))))))
  }

  lemma GoldenHead(env: Envelopes.Envelope, t: seq<byte>)
    requires env.objKey == ObjKey(Counting(0x00), Counting(0x10)) && env.admission == 7 && env.incarnation == 1
    requires env.key == OpKey(Counting(0x20), 5, 0) && env.op < 256
    ensures Envelopes.PutHead(env, t) == HeadThen(env.op, t)
  {
    hide EncU32, EncU64, Counting;
    Word64(0, 7); Word64(0, 1); Word64(0, 5); Word32(0, 0); Word32(0, env.op);
  }

  lemma GoldenWriteBytes()
    ensures Envelopes.Valid(GoldenWrite())
    ensures Envelopes.Encoding(GoldenWrite())
            == HeadThen(1,
                 [0, 0, 0, 1]
                 + ([0, 0, 0, 0, 0, 0, 0, 0]
                 + ([0, 0, 0x42, 0x42]
                 + ([0, 0, 0, 0, 0, 0, 0, 0x2a] + ([0, 0, 0, 0x0b] + ([0, 0, 0, 1]
                 + ([1] + ([0, 0, 0, 0] + ([0, 0, 0, 0] + ([1]
                 + ([0, 0, 0, 4] + ([0x64, 0x61, 0x74, 0x61]
                 + ([0, 0, 0, 2] + ([0, 0, 0, 4] + ([0xae, 0xd8, 0x7d, 0xd1]
                 + ([0, 0, 0, 3] + ([1] + [])))))))))))))))))
  {
    hide EncU32, EncU64, Counting, HeadThen, Envelopes.PutHead;
    var env := GoldenWrite();
    Word64(0, 0); Word64(0, 0x2a);
    Word32(0, 0); Word32(0, 1); Word32(0, 2); Word32(0, 3); Word32(0, 4); Word32(0, 0x0b); Word32(0x42, 0x42);
    GoldenHead(env, Envelopes.PutBody(env.body, []));
  }

  function GoldenRepair(): Envelopes.Envelope {
    var e := Envelopes.RepairEntry(4, 2, Owner(42, 11, 1), None, Some(0x5500), Some(0x5a00), Some(0x6600), None, None);
    Envelopes.Envelope(ObjKey(Counting(0x00), Counting(0x10)), 7, 1, OpKey(Counting(0x20), 5, 0), Envelopes.OP_BEGIN_REPAIR,
                       Envelopes.Repair(Envelopes.RepairBatch(4, 5, [e], None, None, None, None, None)))
  }

  lemma GoldenRepairBytes()
    ensures Envelopes.Valid(GoldenRepair())
    ensures Envelopes.Encoding(GoldenRepair())
            == HeadThen(6,
                 [0, 0, 0, 0, 0, 0, 0, 4] + ([0, 0, 0, 0, 0, 0, 0, 5]
                 + ([0, 0, 0, 1]
                 + ([0, 0, 0, 0, 0, 0, 0, 4]
                 + ([0, 0, 0, 2]
                 + ([0, 0, 0, 0, 0, 0, 0, 0x2a] + ([0, 0, 0, 0x0b] + ([0, 0, 0, 1]
                 + ([0]
                 + ([1] + ([0, 0, 0, 0, 0, 0, 0x55, 0]
                 + ([1] + ([0, 0, 0, 0, 0, 0, 0x5a, 0]
                 + ([1] + ([0, 0, 0, 0, 0, 0, 0x66, 0]
                 + ([0] + ([0] + ([0] + ([0] + ([0] + ([0] + ([0] + []))))))))))))))))))))))
  {
    hide EncU32, EncU64, Counting, HeadThen, Envelopes.PutHead;
    var env := GoldenRepair();
    Word64(0, 4); Word64(0, 5); Word64(0, 0x2a); Word64(0x55, 0); Word64(0x5a, 0); Word64(0x66, 0);
    Word32(0, 1); Word32(0, 2); Word32(0, 0x0b);
    GoldenHead(env, Envelopes.PutBody(env.body, []));
  }

  /** An envelope with the golden head. */
  function Headed(op: u32, body: Envelopes.Body): Envelopes.Envelope {
    Envelopes.Envelope(ObjKey(Counting(0x00), Counting(0x10)), 7, 1, OpKey(Counting(0x20), 5, 0), op, body)
  }

  function GoldenLifecycle(): Envelopes.Envelope {
    var e := Envelopes.LifecycleEntry(5, Owner(42, 11, 1), 0x5100, Some(0x6100));
    Headed(Envelopes.OP_FINALIZE_BATCH, Envelopes.Lifecycle(Envelopes.LifecycleBatch(4, 9, [e], [1, 2, 3, 4, 5, 6, 7, 8])))
  }

  /** Range, count, index, owner, transaction, predecessor, prior verifier. */
  lemma GoldenLifecycleBytes()
    ensures Envelopes.Valid(GoldenLifecycle())
    ensures Envelopes.Encoding(GoldenLifecycle())
            == HeadThen(2,
                 [0, 0, 0, 0, 0, 0, 0, 4] + ([0, 0, 0, 0, 0, 0, 0, 9]
                 + ([0, 0, 0, 1]
                 + ([0, 0, 0, 0, 0, 0, 0, 5]
                 + ([0, 0, 0, 0, 0, 0, 0, 0x2a] + ([0, 0, 0, 0x0b] + ([0, 0, 0, 1]
                 + ([0, 0, 0, 0, 0, 0, 0x51, 0]
                 + ([1] + ([0, 0, 0, 0, 0, 0, 0x61, 0]
                 + ([1, 2, 3, 4, 5, 6, 7, 8] + [])))))))))))
  {
    hide EncU32, EncU64, Counting, HeadThen, Envelopes.PutHead;
    var env := GoldenLifecycle();
    Word64(0, 4); Word64(0, 9); Word64(0, 5); Word64(0, 0x2a); Word64(0x51, 0); Word64(0x61, 0);
    Word32(0, 1); Word32(0, 0x0b);
    GoldenHead(env, Envelopes.PutBody(env.body, []));
  }

  function GoldenRollback(): Envelopes.Envelope {
    var e := Envelopes.RollbackEntry(5, Owner(42, 11, 1), 0x5100, Some(0x6100), Some(0x6200), Some(0x6300));
    Headed(Envelopes.OP_ROLLBACK_BATCH, Envelopes.Rollback(Envelopes.RollbackBatch(4, 9, [e])))
  }

  /** Range, count, index, owner, transaction, visible version, predecessor, custody. */
  lemma GoldenRollbackBytes()
    ensures Envelopes.Valid(GoldenRollback())
    ensures Envelopes.Encoding(GoldenRollback())
            == HeadThen(4,
                 [0, 0, 0, 0, 0, 0, 0, 4] + ([0, 0, 0, 0, 0, 0, 0, 9]
                 + ([0, 0, 0, 1]
                 + ([0, 0, 0, 0, 0, 0, 0, 5]
                 + ([0, 0, 0, 0, 0, 0, 0, 0x2a] + ([0, 0, 0, 0x0b] + ([0, 0, 0, 1]
                 + ([0, 0, 0, 0, 0, 0, 0x51, 0]
                 + ([1] + ([0, 0, 0, 0, 0, 0, 0x61, 0]
                 + ([1] + ([0, 0, 0, 0, 0, 0, 0x62, 0]
                 + ([1] + ([0, 0, 0, 0, 0, 0, 0x63, 0] + []))))))))))))))
  {
    hide EncU32, EncU64, Counting, HeadThen, Envelopes.PutHead;
    var env := GoldenRollback();
    Word64(0, 4); Word64(0, 9); Word64(0, 5); Word64(0, 0x2a); Word64(0x51, 0); Word64(0x61, 0); Word64(0x62, 0); Word64(0x63, 0);
    Word32(0, 1); Word32(0, 0x0b);
    GoldenHead(env, Envelopes.PutBody(env.body, []));
  }

  function GoldenControl(): Envelopes.Envelope {
    Headed(Envelopes.OP_RECOVERY_ADMIT, Envelopes.Control(Envelopes.ControlBatch([0x5100, 0x5200], 0x7100, Some(0x7200), Some(0x7300))))
  }

  /** Count, transactions in order, old admission, new admission, read epoch. */
  lemma GoldenControlBytes()
    ensures Envelopes.Valid(GoldenControl())
    ensures Envelopes.Encoding(GoldenControl())
            == HeadThen(13,
                 [0, 0, 0, 2]
                 + ([0, 0, 0, 0, 0, 0, 0x51, 0] + ([0, 0, 0, 0, 0, 0, 0x52, 0]
                 + ([0, 0, 0, 0, 0, 0, 0x71, 0]
                 + ([1] + ([0, 0, 0, 0, 0, 0, 0x72, 0]
                 + ([1] + ([0, 0, 0, 0, 0, 0, 0x73, 0] + []))))))))
  {
    hide EncU32, EncU64, Counting, HeadThen, Envelopes.PutHead;
    var env := GoldenControl();
    Word64(0x51, 0); Word64(0x52, 0); Word64(0x71, 0); Word64(0x72, 0); Word64(0x73, 0); Word32(0, 2);
    GoldenTxns([0x5100, 0x5200], Envelopes.PutBody(env.body, []));
    GoldenHead(env, Envelopes.PutBody(env.body, []));
  }

  lemma GoldenTxns(txns: seq<u64>, t: seq<byte>)
    requires |txns| == 2
    ensures PutVec(PutU64, txns, t) == PutU64(txns[0], PutU64(txns[1], t))
  {
    hide EncU64;
    assert txns[1..] == [txns[1]] && [txns[1]][1..] == [];
    assert PutVec(PutU64, txns[1..], t) == PutU64(txns[1], PutVec(PutU64, [], t));
  }

  /** The handles of a repair entry, all present: transaction, custody, postcondition,
      successor, predecessor. */
  lemma GoldenHandles(e: Envelopes.RepairEntry, t: seq<byte>)
    requires e.txn == Some(0x5100) && e.custody == Some(0x5200) && e.postcond == Some(0x5300)
    requires e.successor == Some(0x5400) && e.predecessor == Some(0x5500)
    ensures Envelopes.PutHandles(e, t)
            == [1] + ([0, 0, 0, 0, 0, 0, 0x51, 0]
               + ([1] + ([0, 0, 0, 0, 0, 0, 0x52, 0]
               + ([1] + ([0, 0, 0, 0, 0, 0, 0x53, 0]
               + ([1] + ([0, 0, 0, 0, 0, 0, 0x54, 0]
               + ([1] + ([0, 0, 0, 0, 0, 0, 0x55, 0] + t)))))))))
  {
    hide EncU64;
    Word64(0x51, 0); Word64(0x52, 0); Word64(0x53, 0); Word64(0x54, 0); Word64(0x55, 0);
  }

  /** Around them: index, mode and owner before, payload and checksum after. */
  lemma GoldenRepairEntry(e: Envelopes.RepairEntry, t: seq<byte>)
    requires e.index == 4 && e.mode == 2 && e.owner == Owner(42, 11, 1)
    requires e.replacement == Some(Envelopes.Replacement([0x64], Checksum(2, [0xae, 0xd8, 0x7d, 0xd1])))
    ensures Envelopes.PutRepairEntry(e, t)
            == [0, 0, 0, 0, 0, 0, 0, 4] + ([0, 0, 0, 2]
               + ([0, 0, 0, 0, 0, 0, 0, 0x2a] + ([0, 0, 0, 0x0b] + ([0, 0, 0, 1]
               + Envelopes.PutHandles(e,
                 [1] + ([0, 0, 0, 1] + ([0x64]
                 + ([0, 0, 0, 2] + ([0, 0, 0, 4] + ([0xae, 0xd8, 0x7d, 0xd1] + t))))))))))
  {
    hide EncU32, EncU64, Envelopes.PutHandles;
    Word64(0, 4); Word64(0, 0x2a); Word32(0, 1); Word32(0, 2); Word32(0, 4); Word32(0, 0x0b);
  }

  /** What follows the entries, with every option present: cohort, episode, phase, verifier, certificate. */
  lemma GoldenRepairTail(r: Envelopes.RepairBatch, c: Certificate, t: seq<byte>)
    requires r.cohort == Some(0x5600) && r.episode == Some(0x5700) && r.phase == Some(3)
    requires r.verifier == Some([1, 2, 3, 4, 5, 6, 7, 8]) && r.certificate == Some(c)
    ensures Envelopes.PutRepairTail(r, t)
            == [1] + ([0, 0, 0, 0, 0, 0, 0x56, 0]
               + ([1] + ([0, 0, 0, 0, 0, 0, 0x57, 0]
               + ([1] + ([0, 0, 0, 3]
               + ([1] + ([1, 2, 3, 4, 5, 6, 7, 8]
               + ([1] + (c + t)))))))))
  {
    hide EncU32, EncU64;
    Word64(0x56, 0); Word64(0x57, 0); Word32(0, 3);
  }

  function GoldenResult(): CompleteResults.CompleteResult {
    var none := CompleteResults.Slot(false, 0);
    CompleteResults.CompleteResult(
      OpKey(Counting(0x50), 5, 0), 3, 4096, 1, 1,
      CompleteResults.Slot(true, 7), CompleteResults.Slot(true, 9), none, 0, seq(16, _ => 0),
      none, none, CompleteResults.Slot32(false, 0), Guard(2, 11, false), Owner(42, 11, 1),
      3, true, 4, [0, 0, 0, 0, 0, 0, 0, 1])
  }

  /** Operation key, index epoch, end of file, disposition, status, version, transaction, no cohort. */
  function FrontThen(t: seq<byte>): seq<byte> {
    Counting(0x50) + ([0, 0, 0, 0, 0, 0, 0, 5] + ([0, 0, 0, 0]
    + ([0, 0, 0, 0, 0, 0, 0, 3]
    + ([0, 0, 0, 0, 0, 0, 0x10, 0]
    + ([0, 0, 0, 1]
    + ([0, 0, 0, 1]
    + ([1] + ([0, 0, 0, 0, 0, 0, 0, 7]
    + ([1] + ([0, 0, 0, 0, 0, 0, 0, 9]
    + ([0] + t)))))))))))
  }

  /** Three absent options, guard, owner, stability, activation, phase, verifier. */
  function Back(): seq<byte> {
    [0] + ([0] + ([0]
    + ([0, 0, 0, 2] + ([0, 0, 0, 0x0b] + ([0]
    + ([0, 0, 0, 0, 0, 0, 0, 0x2a] + ([0, 0, 0, 0x0b] + ([0, 0, 0, 1]
    + ([0, 0, 0, 3] + ([1] + ([0, 0, 0, 4]
    + ([0, 0, 0, 0, 0, 0, 0, 1] + []))))))))))))
  }

  lemma GoldenFront(l: CompleteResults.Logged, t: seq<byte>)
    requires l.key == OpKey(Counting(0x50), 5, 0) && l.indexEpoch == 3 && l.eof == 4096 && l.disposition == 1 && l.status == 1
    requires l.version == Some(7) && l.txn == Some(9) && l.cohort == None
    ensures CompleteResults.PutFront(l, t) == FrontThen(t)
  {
    hide EncU32, EncU64, Counting;
    Word64(0, 5); Word64(0, 3); Word64(0x10, 0); Word64(0, 7); Word64(0, 9); Word32(0, 0); Word32(0, 1);
  }

  lemma GoldenBack(l: CompleteResults.Logged)
    requires l.postcond == None && l.episode == None && l.member == None && l.guard == Guard(2, 11, false)
    requires l.owner == Owner(42, 11, 1) && l.stability == 3 && l.activated && l.phase == 4 && l.verifier == [0, 0, 0, 0, 0, 0, 0, 1]
    ensures CompleteResults.PutBack(l, []) == Back()
  {
    hide EncU32, EncU64;
    Word64(0, 0x2a); Word32(0, 1); Word32(0, 2); Word32(0, 3); Word32(0, 4); Word32(0, 0x0b);
  }

  /** With every option present: version, transaction, cohort. */
  lemma GoldenFullFront(l: CompleteResults.Logged, t: seq<byte>)
    requires l.key == OpKey(Counting(0x50), 5, 0) && l.indexEpoch == 3 && l.eof == 4096 && l.disposition == 1 && l.status == 2
    requires l.version == Some(7) && l.txn == Some(9) && l.cohort == Some(0x0b)
    ensures CompleteResults.PutFront(l, t)
            == Counting(0x50) + ([0, 0, 0, 0, 0, 0, 0, 5] + ([0, 0, 0, 0]
               + ([0, 0, 0, 0, 0, 0, 0, 3] + ([0, 0, 0, 0, 0, 0, 0x10, 0] + ([0, 0, 0, 1] + ([0, 0, 0, 2]
               + ([1] + ([0, 0, 0, 0, 0, 0, 0, 7]
               + ([1] + ([0, 0, 0, 0, 0, 0, 0, 9]
               + ([1] + ([0, 0, 0, 0, 0, 0, 0, 0x0b] + t))))))))))))
  {
    hide EncU32, EncU64, Counting;
    Word64(0, 5); Word64(0, 3); Word64(0x10, 0); Word64(0, 7); Word64(0, 9); Word64(0, 0x0b);
    Word32(0, 0); Word32(0, 1); Word32(0, 2);
  }

  /** Postcondition before episode before member. */
  lemma GoldenFullBack(l: CompleteResults.Logged, t: seq<byte>)
    requires l.postcond == Some(0x0c) && l.episode == Some(0x0d) && l.member == Some(5) && l.guard == Guard(2, 11, false)
    requires l.owner == Owner(42, 12, 1) && l.stability == 3 && l.activated && l.phase == 4
    ensures CompleteResults.PutBack(l, t)
            == [1] + ([0, 0, 0, 0, 0, 0, 0, 0x0c]
               + ([1] + ([0, 0, 0, 0, 0, 0, 0, 0x0d]
               + ([1] + ([0, 0, 0, 5]
               + ([0, 0, 0, 2] + ([0, 0, 0, 0x0b] + ([0]
               + ([0, 0, 0, 0, 0, 0, 0, 0x2a] + ([0, 0, 0, 0x0c] + ([0, 0, 0, 1]
               + ([0, 0, 0, 3] + ([1] + ([0, 0, 0, 4] + (l.verifier + t)))))))))))))))
  {
    hide EncU32, EncU64;
    Word64(0, 0x0c); Word64(0, 0x0d); Word64(0, 0x2a);
    Word32(0, 1); Word32(0, 2); Word32(0, 3); Word32(0, 4); Word32(0, 5); Word32(0, 0x0b); Word32(0, 0x0c);
  }

  /** Two member transactions: count, then each in order, between the two runs. */
  lemma GoldenMembers(l: CompleteResults.Logged, t: seq<byte>)
    requires l.members == [0x5100, 0x5200]
    ensures CompleteResults.PutLogged(l, 2, t)
            == CompleteResults.PutFront(l,
                 [0, 0, 0, 2] + ([0, 0, 0, 0, 0, 0, 0x51, 0] + ([0, 0, 0, 0, 0, 0, 0x52, 0] + CompleteResults.PutBack(l, t))))
  {
    hide EncU32, EncU64, CompleteResults.PutFront, CompleteResults.PutBack;
    Word64(0x51, 0); Word64(0x52, 0); Word32(0, 2);
    GoldenTxns(l.members, CompleteResults.PutBack(l, t));
  }

  /** No member transactions: a zero count stands between the two runs. */
  lemma GoldenResultBytes()
    ensures CompleteResults.Encoding(GoldenResult()) == FrontThen([0, 0, 0, 0] + Back())
  {
    hide EncU32, Counting, FrontThen, Back, CompleteResults.PutFront, CompleteResults.PutBack;
    Word32(0, 0);
    var l := CompleteResults.View(GoldenResult());
    assert l.members == [];
    GoldenFront(l, [0, 0, 0, 0] + Back());
    GoldenBack(l);
  }

  lemma Word16(lo: byte)
    ensures EncU16(lo) == [0, lo]
  {
    assert BigEndian(0, 1) == [0];
  }

  /** One START record, "abc", LSN 1, whatever the checksum function. */
  lemma GoldenRecordBytes(crc: Journal.Checksum)
    ensures var covered :=
              ([0x44, 0x31, 0x4a, 0x31]
              + ([0, 2] + ([0, 1]
              + ([0, 0, 0, 0x38] + ([0, 0, 0, 0x3f] + ([0xff, 0xff, 0xff, 0xc0]
              + (Counting(0x00)
              + ([0, 0, 0, 0, 0, 0, 0, 1] + ([0, 0, 0, 0, 0, 0, 0, 1] + [0, 0, 0, 0])))))))))
              + [0x61, 0x62, 0x63];
            Journal.Framed(crc, Journal.Rec(1, 1, [0x61, 0x62, 0x63]), Counting(0x00), 1) == covered + EncU32(crc(covered))
  {
    hide EncU16, EncU32, EncU64, Counting;
    Cursors.BytesOfU32(0x44314a31);
    Cursors.BytesOfU32(0xffff_ffc0);
    Word16(2); Word16(1);
    Word32(0, 0x38); Word32(0, 0x3f); Word32(0, 0); Word64(0, 1);
  }

  /** The header of a write-ahead log record: magic, version, family, header length, length,
      complement, store, log, LSN, incarnation, reserved. */
  lemma GoldenWalHeader(h: WalScan.RawHeader, t: seq<byte>)
    requires h.magic == 0x4432574c && h.version == 2 && h.family == 3 && h.header == 72 && h.total == 0x4c && h.complement == 0xffff_ffb3
    requires h.lsn == 0x5100 && h.incarnation == 0x5200 && h.reserved == 0
    ensures WalScan.PutHeader(h, t)
            == [0x44, 0x32, 0x57, 0x4c] + ([0, 2] + ([0, 3]
               + ([0, 0, 0, 0x48] + ([0, 0, 0, 0x4c] + ([0xff, 0xff, 0xff, 0xb3]
               + (h.store + (h.wal
               + ([0, 0, 0, 0, 0, 0, 0x51, 0] + ([0, 0, 0, 0, 0, 0, 0x52, 0]
               + ([0, 0, 0, 0] + t))))))))))
  {
    hide EncU16, EncU32, EncU64;
    Cursors.BytesOfU32(0x4432574c);
    Cursors.BytesOfU32(0xffff_ffb3);
    Word16(2); Word16(3);
    Word32(0, 0x48); Word32(0, 0x4c); Word32(0, 0); Word64(0x51, 0); Word64(0x52, 0);
  }

  /** A START body up to its cursors: format, incarnation, previous incarnation, verifier
      epoch and change, decision, truncated bytes. */
  lemma GoldenStart(b: WalScan.StartBody, t: seq<byte>)
    requires b.format == 2 && b.incarnation == 0x5100 && b.prevIncarnation == 0x5200 && b.verifierEpoch == 0x5300
    requires b.verifierChanged && b.decision == 12 && b.truncatedBytes == 0x5400
    ensures WalScan.PutStart(b, t)
            == [0, 0, 0, 2] + ([0, 0, 0, 0, 0, 0, 0x51, 0] + ([0, 0, 0, 0, 0, 0, 0x52, 0] + ([0, 0, 0, 0, 0, 0, 0x53, 0]
               + ([1] + ([0, 0, 0, 12] + ([0, 0, 0, 0, 0, 0, 0x54, 0] + WalScan.PutStartCursors(b, t)))))))
  {
    hide EncU32, EncU64, WalScan.PutStartCursors;
    Word32(0, 2); Word32(0, 12); Word64(0x51, 0); Word64(0x52, 0); Word64(0x53, 0); Word64(0x54, 0);
  }

  /** The rest: last LSN before, log and payload cursors, both capacities, export, and the
      three reservations of live transactions. */
  lemma GoldenStartCursors(b: WalScan.StartBody, t: seq<byte>)
    requires b.lastValidLsnBefore == 0x5100 && b.walAppendCursor == 0x5200 && b.payloadAppendCursor == 0x5300
    requires b.capacityWal == 0x5400 && b.capacityPayload == 0x5500
    requires b.liveWalReserved == 0x5600 && b.livePayloadOutstanding == 0x5700 && b.livePayloadStaged == 0x5800
    ensures WalScan.PutStartCursors(b, t)
            == [0, 0, 0, 0, 0, 0, 0x51, 0] + ([0, 0, 0, 0, 0, 0, 0x52, 0] + ([0, 0, 0, 0, 0, 0, 0x53, 0]
               + ([0, 0, 0, 0, 0, 0, 0x54, 0] + ([0, 0, 0, 0, 0, 0, 0x55, 0]
               + (b.exportUuid
               + ([0, 0, 0, 0, 0, 0, 0x56, 0] + ([0, 0, 0, 0, 0, 0, 0x57, 0] + ([0, 0, 0, 0, 0, 0, 0x58, 0] + t))))))))
  {
    hide EncU64;
    Word64(0x51, 0); Word64(0x52, 0); Word64(0x53, 0); Word64(0x54, 0); Word64(0x55, 0); Word64(0x56, 0); Word64(0x57, 0); Word64(0x58, 0);
  }
}
