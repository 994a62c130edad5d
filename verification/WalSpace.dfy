/** Space reservation in the D2 write-ahead log.  Ordinary appends must leave room
    for the restarts still to come; a START record may use that room. */
module WalSpace {
  import SuperBlock

  const START_BYTES := 197
  const SWEEP := 51712
  const RESTART_HEADROOM := 51909
  const RECOVERY_HEADROOM := 3322572
  const MIN_RESTARTS := 64
  const MIN_WAL_BYTES := 3352972
  const MAX_INCARNATION := 0x00ffffff
  const PAYLOAD_ALIGN := 4096
  const U64_MAX := 0xffff_ffff_ffff_ffff

  const OK := 1
  const INVALID := 2
  const NOSPC := 10
  const IO := 11

  datatype State = State(capacity: nat, cursor: nat, incarnation: nat)

  function Restarts(incarnation: nat): nat {
    var r := if incarnation > 0 then incarnation - 1 else 0;
    if r > MIN_RESTARTS then MIN_RESTARTS else r
  }

  /** Bytes an ordinary append must leave free. */
  function Required(incarnation: nat): nat {
    (MIN_RESTARTS - Restarts(incarnation)) * RESTART_HEADROOM + (RECOVERY_HEADROOM - MIN_RESTARTS * RESTART_HEADROOM)
  }

  predicate Fits(s: State, len: nat) {
    s.cursor <= s.capacity && len <= s.capacity - s.cursor
  }

  predicate CanAppend(s: State, len: nat, promised: nat) {
    Fits(s, len) && promised <= U64_MAX - Required(s.incarnation)
    && s.capacity - s.cursor - len >= Required(s.incarnation) + promised
  }

  predicate CanStart(s: State) {
    Fits(s, START_BYTES) && s.incarnation < MAX_INCARNATION
  }

  // ----- histories

  datatype Event = Append(len: nat, promised: nat) | Start

  /** Refused events change nothing. */
  function After(s: State, e: Event): State {
    match e
    case Append(len, promised) => if CanAppend(s, len, promised) then s.(cursor := s.cursor + len) else s
    case Start => if CanStart(s) then s.(cursor := s.cursor + START_BYTES, incarnation := s.incarnation + 1) else s
  }

  function Run(s: State, events: seq<Event>): State
    decreases |events|
  {
    if events == [] then s else Run(After(s, events[0]), events[1..])
  }

  /** A freshly provisioned log holds its first START and nothing else. */
  function Provisioned(capacity: nat): State {
    State(capacity, START_BYTES, 1)
  }

  /** As long as a reserved restart remains, the reservation is intact. */
  predicate Reserved(s: State) {
    && s.incarnation >= 1 && s.cursor <= s.capacity
    && (s.incarnation <= MIN_RESTARTS + 1 ==> s.capacity - s.cursor >= Required(s.incarnation))
  }

  /** Each START releases exactly what its restart needs: itself and its sweep. */
  lemma RequiredDrops(incarnation: nat)
    requires 1 <= incarnation <= MIN_RESTARTS
    ensures Required(incarnation) == Required(incarnation + 1) + START_BYTES + SWEEP
  {
    assert RESTART_HEADROOM == START_BYTES + SWEEP;
  }

  lemma EventKeepsReserved(s: State, e: Event)
    requires Reserved(s)
    ensures Reserved(After(s, e))
  {
    if e.Start? && s.incarnation <= MIN_RESTARTS {
      RequiredDrops(s.incarnation);
    }
  }

  lemma {:induction false} RunKeepsReserved(s: State, events: seq<Event>)
    requires Reserved(s)
    ensures Reserved(Run(s, events))
    decreases |events|
  {
    if events != [] {
      EventKeepsReserved(s, events[0]);
      RunKeepsReserved(After(s, events[0]), events[1..]);
    }
  }

  function Total(lens: seq<nat>): nat {
    if lens == [] then 0 else lens[0] + Total(lens[1..])
  }

  /** Every append of the list is accepted, one after the other. */
  predicate AllAccepted(s: State, lens: seq<nat>)
    decreases |lens|
  {
    lens == [] || (CanAppend(s, lens[0], 0) && AllAccepted(After(s, Append(lens[0], 0)), lens[1..]))
  }

  lemma {:induction false} SweepFits(s: State, lens: seq<nat>)
    requires s.cursor <= s.capacity && s.capacity - s.cursor >= Required(s.incarnation) + Total(lens)
    ensures AllAccepted(s, lens)
    decreases |lens|
  {
    hide Required;
    if lens != [] {
      assert Required(s.incarnation) <= U64_MAX by { RequiredBound(s.incarnation); }
      SweepFits(After(s, Append(lens[0], 0)), lens[1..]);
    }
  }

  lemma RequiredBound(incarnation: nat)
    ensures Required(incarnation) <= RECOVERY_HEADROOM
  {
    var left := MIN_RESTARTS - Restarts(incarnation);
    assert left * RESTART_HEADROOM <= MIN_RESTARTS * RESTART_HEADROOM;
  }

  /** From a log provisioned at or above the minimum size, after any mix of
      ordinary appends and completed STARTs, each of the first 64 restarts has
      room for its START record and then for any recovery appends of up to
      51,712 bytes in all. */
  lemma RestartAlwaysHasRoom(capacity: nat, events: seq<Event>, lens: seq<nat>)
    requires capacity >= MIN_WAL_BYTES && Total(lens) <= SWEEP
    requires Run(Provisioned(capacity), events).incarnation <= MIN_RESTARTS
    ensures var s := Run(Provisioned(capacity), events); CanStart(s) && AllAccepted(After(s, Start), lens)
  {
    hide Run, AllAccepted, Total;
    var s := Run(Provisioned(capacity), events);
    assert Required(1) == RECOVERY_HEADROOM;
    RunKeepsReserved(Provisioned(capacity), events);
    RequiredDrops(s.incarnation);
    SweepFits(After(s, Start), lens);
  }

  /** The rule in numbers, for a store that has started: 51,909 bytes for each reserved
      restart still to come, 396 for the last one's recovery, and what was promised. */
  lemma RoomInNumbers(s: State, len: nat, promised: nat)
    requires s.cursor <= s.capacity <= U64_MAX && s.incarnation >= 1
    ensures var left := if s.incarnation <= 65 then 65 - s.incarnation else 0;
            CanAppend(s, len, promised) <==> s.cursor + len + promised + left * 51909 + 396 <= s.capacity
    ensures CanStart(s) <==> s.cursor + 197 <= s.capacity && s.incarnation < 0x00ffffff
  {
    RequiredBound(s.incarnation);
  }

  /** A promise is kept: appends that come to no more than was promised are all accepted. */
  lemma PromiseKept(s: State, len: nat, promised: nat, lens: seq<nat>)
    requires CanAppend(s, len, promised) && Total(lens) <= promised
    ensures AllAccepted(After(s, Append(len, promised)), lens)
  {
    hide Required, AllAccepted, Total;
    SweepFits(After(s, Append(len, promised)), lens);
  }

  // ----- after the last reserved restart

  function Starts(n: nat): seq<Event> {
    seq(n, _ => Start)
  }

  /** Restarts alone leave plenty of room on a log of the minimum size. */
  lemma {:induction false} StartsRun(s: State, n: nat)
    requires s.incarnation + n < MAX_INCARNATION && s.cursor + n * START_BYTES <= s.capacity
    ensures Run(s, Starts(n)) == State(s.capacity, s.cursor + n * START_BYTES, s.incarnation + n)
    decreases n
  {
    if n > 0 {
      assert Starts(n)[1..] == Starts(n - 1);
      StartsRun(After(s, Start), n - 1);
    }
  }

  lemma {:induction false} RunThen(s: State, events: seq<Event>, e: Event)
    ensures Run(s, events + [e]) == After(Run(s, events), e)
    decreases |events|
  {
    if events == [] {
      assert events + [e] == [e];
      assert Run(After(s, e), [][..]) == After(s, e);
    } else {
      assert (events + [e])[1..] == events[1..] + [e];
      RunThen(After(s, events[0]), events[1..], e);
    }
  }

  /** What is left when a log is filled up to the reservation after 64 restarts. */
  lemma NoRoomAfterTheLast(s: State, len: nat)
    requires s.incarnation == MIN_RESTARTS + 1 && Fits(s, START_BYTES) && s.capacity - s.cursor == Required(s.incarnation)
    ensures CanStart(s) && !CanAppend(After(s, Start), len, 0)
  {}

  /** The promise is not kept for a 65th restart.  On a log of the minimum size, 64
      restarts and one group of appends that fills it up to the reservation are
      all accepted; the next START still fits, and after it no append does. */
  lemma SixtyFifthRestart() returns (events: seq<Event>)
    ensures var s := Run(Provisioned(MIN_WAL_BYTES), events);
            && s.incarnation == MIN_RESTARTS + 1 && s.capacity - s.cursor == Required(s.incarnation)
            && CanStart(s) && forall len: nat :: !CanAppend(After(s, Start), len, 0)
  {
    hide Run, Starts;
    var s0 := Provisioned(MIN_WAL_BYTES);
    StartsRun(s0, MIN_RESTARTS);
    var s1 := Run(s0, Starts(MIN_RESTARTS));
    var fill := s1.capacity - s1.cursor - Required(s1.incarnation);
    events := Starts(MIN_RESTARTS) + [Append(fill, 0)];
    RunThen(s0, Starts(MIN_RESTARTS), Append(fill, 0));
    forall len: nat ensures !CanAppend(After(After(s1, Append(fill, 0)), Start), len, 0) {
      NoRoomAfterTheLast(After(s1, Append(fill, 0)), len);
    }
  }

  // ----- the append path of an open store

  /** A decoded record header as the append path sees it. */
  datatype Header = Header(total: nat, lsn: nat, incarnation: nat, decodes: bool)

  function Bytes(records: seq<Header>): nat {
    if records == [] then 0 else Bytes(records[..|records| - 1]) + records[|records| - 1].total
  }

  /** The group is well formed: decodable records with consecutive LSNs under one incarnation. */
  predicate WellFormed(records: seq<Header>, nextLsn: nat, incarnation: nat, group: bool) {
    && |records| >= 1 && (group || |records| == 1)
    && forall i :: 0 <= i < |records| ==>
      records[i].decodes && records[i].lsn == nextLsn + i && records[i].incarnation == incarnation
  }

  /** How the write and the sync behind it end. */
  datatype Write = Durable | Fails(noSpace: bool)

  class Wal {
    const handle: SuperBlock.Handle
    const capacity: nat
    const capacityPayload: nat
    var cursor: nat
    var nextLsn: nat
    var failNextWrite: bool

    ghost predicate Valid()
      reads this, handle, handle.slots
    {
      handle.Valid()
    }

    /** The incarnation is the superblock's. */
    ghost function View(): State
      reads this, handle
    {
      State(capacity, cursor, handle.super.incarnation)
    }

    /** A store whose provisioning has written its first START. */
    constructor (handle: SuperBlock.Handle, capacity: nat, capacityPayload: nat)
      requires handle.Valid() && handle.super.incarnation == 1
      ensures Valid() && this.handle == handle && View() == Provisioned(capacity) && this.capacityPayload == capacityPayload
      ensures nextLsn == 2 && !failNextWrite
    {
      this.handle, this.capacity, this.capacityPayload := handle, capacity, capacityPayload;
      cursor, nextLsn, failNextWrite := START_BYTES, 2, false;
    }

    /** Append one record, or a group of them, whole or not at all. */
    method AppendInternal(records: seq<Header>, reserved: bool, promised: nat, group: bool, write: Write) returns (status: int)
      requires Valid()
      modifies this`cursor, this`nextLsn, this`failNextWrite
      ensures var len := Bytes(records);
              var inc := handle.super.incarnation;
              var shape := Fits(old(View()), len) && WellFormed(records, old(nextLsn), inc + (if inc == 0 then 1 else 0), group);
              var room := promised <= U64_MAX - Required(inc) && (reserved || CanAppend(old(View()), len, promised));
              && status == (if !shape then INVALID else if !room then NOSPC else if old(failNextWrite) then IO
                            else if write.Durable? then OK else if write.noSpace then NOSPC else IO)
              && cursor == (if status == OK then old(cursor) + len else old(cursor))
              && nextLsn == (if status == OK then old(nextLsn) + |records| else old(nextLsn))
              && failNextWrite == (old(failNextWrite) && !(shape && room))
    {
      hide Required;
      var incarnation := handle.super.incarnation;
      var len := 0;
      for i := 0 to |records|
        invariant len == Bytes(records[..i])
      {
        assert records[..i + 1][..i] == records[..i];
        len := len + records[i].total;
      }
      assert records[..|records|] == records;
      if cursor > capacity || len > capacity - cursor {
        return INVALID;
      }
      if |records| == 0 || (!group && |records| != 1) {
        return INVALID;
      }
      var expected := nextLsn;
      for i := 0 to |records|
        invariant expected == nextLsn + i && nextLsn == old(nextLsn) && cursor == old(cursor)
        invariant failNextWrite == old(failNextWrite)
        invariant forall j :: 0 <= j < i ==> records[j].decodes && records[j].lsn == nextLsn + j
        invariant forall j :: 0 <= j < i ==> records[j].incarnation == incarnation + (if incarnation == 0 then 1 else 0)
      {
        if !records[i].decodes || records[i].lsn != expected
           || records[i].incarnation != incarnation + (if incarnation == 0 then 1 else 0) {
          return INVALID;
        }
        expected := expected + 1;
      }
      var available := capacity - cursor;
      var required := Required(incarnation);
      if promised > U64_MAX - required || (!reserved && available - len < required + promised) {
        return NOSPC;
      }
      if failNextWrite {
        failNextWrite := false;
        return IO;
      }
      if write.Fails? {
        return if write.noSpace then NOSPC else IO;
      }
      cursor := cursor + len;
      nextLsn := nextLsn + |records|;
      return OK;
    }

    /** An ordinary append is accepted exactly when the record continues the log, the
        space rule has room for it and its write succeeds; else nothing is appended. */
    method Append(record: Header, write: Write) returns (status: int)
      requires Valid()
      modifies this`cursor, this`nextLsn, this`failNextWrite
      ensures var inc := handle.super.incarnation;
              var continues := record.decodes && record.lsn == old(nextLsn) && record.incarnation == inc + (if inc == 0 then 1 else 0);
              && (status == OK <==> continues && CanAppend(old(View()), record.total, 0) && !old(failNextWrite) && write.Durable?)
              && View() == (if status == OK then After(old(View()), Event.Append(record.total, 0)) else old(View()))
              && nextLsn == (if status == OK then old(nextLsn) + 1 else old(nextLsn))
    {
      hide Required;
      assert [record][..0] == [];
      assert Bytes([record]) == record.total;
      RequiredBound(handle.super.incarnation);
      status := AppendInternal([record], false, 0, false, write);
    }

    /** A START introduces the next incarnation and then records it in the superblock.
        A START that is not written leaves everything as it was; one that is written
        advances the store even when the superblock update behind it fails. */
    method Start(payloadCursor: nat, encodes: bool, write: Write, fate: SuperBlock.Fate, noSpace: bool) returns (status: int, ghost written: bool)
      requires Valid() && handle.super.incarnation >= 1
      modifies this`cursor, this`nextLsn, this`failNextWrite, handle`super, handle`newest, handle.slots
      ensures Valid()
      ensures written <==> CanStart(old(View())) && PAYLOAD_ALIGN <= payloadCursor <= capacityPayload && encodes
                           && !old(failNextWrite) && write.Durable?
      ensures View() == (if written then After(old(View()), Event.Start) else old(View()))
      ensures nextLsn == (if written then old(nextLsn) + 1 else old(nextLsn))
      ensures !written ==> handle.View() == old(handle.View()) && status != OK
      ensures written ==>
                var touched := SuperBlock.After(old(handle.View()), SuperBlock.Touch(old(handle.super.incarnation) + 1, old(handle.super.rest)));
                && handle.View() == SuperBlock.After(touched, SuperBlock.Update(SuperBlock.CLEAN, fate))
                && (status == OK <==> SuperBlock.Acceptable(touched, SuperBlock.CLEAN) && fate.Completes?)
      ensures written ==> handle.super.incarnation == old(handle.super.incarnation) + 1 && handle.super.state ==
                            if old(handle.super.generation) < U64_MAX then SuperBlock.CLEAN else old(handle.super.state)
    {
      hide Required;
      written := false;
      var prior := handle.super.incarnation;
      if prior >= MAX_INCARNATION || payloadCursor < PAYLOAD_ALIGN || payloadCursor > capacityPayload {
        return INVALID, false;
      }
      if !encodes {
        return INVALID, false;
      }
      var record := Header(START_BYTES, nextLsn, prior + 1, true);
      assert [record][..0] == [];
      assert Bytes([record]) == START_BYTES;
      handle.super := handle.super.(incarnation := prior + 1);
      RequiredBound(prior + 1);
      status := AppendInternal([record], true, 0, false, write);
      if status != OK {
        handle.super := handle.super.(incarnation := prior);
        return status, false;
      }
      written := true;
      status := handle.SuperUpdate(SuperBlock.CLEAN, fate, noSpace);
    }
  }
}
