/** The active-client set: two files A and B, a symlink naming the live one, and a
    write-sync-swap sequence for every change.  Any file step may fail, which
    starts a clean-up; a crash may stop the sequence or the clean-up between any
    two file steps, and a file that was not yet synced may then hold anything. */
module ClientPersist {
  import opened Errno
  import opened Wrappers

  const INCARNATION_MAGIC := 0x434C4943
  const MAX_RECS := 65536

  /** An incarnation record; `data` stands for boot sequence, verifier and address. */
  datatype Record = Record(magic: int, slot: int, data: int)

  datatype Side = A | B

  /** What one record-sized read of a file finds: a record, or a short read. */
  datatype Item = Whole(rec: Record) | Short

  datatype File = File(items: seq<Item>, synced: bool)

  /** The state directory: the symlink, the temporary symlink and the two files. */
  datatype Dir = Dir(link: Option<Side>, tmp: Option<Side>, a: Option<File>, b: Option<File>)

  function Other(s: Side): Side {
    if s == A then B else A
  }

  function FileAt(d: Dir, s: Side): Option<File> {
    if s == A then d.a else d.b
  }

  function SetFile(d: Dir, s: Side, f: Option<File>): Dir {
    if s == A then d.(a := f) else d.(b := f)
  }

  /** No symlink yet counts as side A. */
  function CurrentSide(d: Dir): Side {
    if d.link.None? then A else d.link.value
  }

  // ----- file steps

  datatype Step =
    | Create(side: Side)               // open with O_CREAT | O_TRUNC
    | Write(side: Side, rec: Record)
    | Sync(side: Side)
    | UnlinkTmp
    | Symlink(target: Side)
    | Rename                           // temporary symlink over the symlink
    | Unlink(side: Side)

  function Do(d: Dir, s: Step): Dir {
    match s
    case Create(side) => SetFile(d, side, Some(File([], false)))
    case Write(side, rec) =>
      if FileAt(d, side).None? then d
      else SetFile(d, side, Some(File(FileAt(d, side).value.items + [Whole(rec)], false)))
    case Sync(side) =>
      if FileAt(d, side).None? then d else SetFile(d, side, Some(FileAt(d, side).value.(synced := true)))
    case UnlinkTmp => d.(tmp := None)
    case Symlink(target) => if d.tmp.Some? then d else d.(tmp := Some(target))
    case Rename => if d.tmp.None? then d else d.(link := d.tmp, tmp := None)
    case Unlink(side) => SetFile(d, side, None)
  }

  function Exec(d: Dir, steps: seq<Step>): Dir
    decreases |steps|
  {
    if steps == [] then d else Do(Exec(d, steps[..|steps| - 1]), steps[|steps| - 1])
  }

  function Writes(side: Side, recs: seq<Record>): (steps: seq<Step>)
    ensures |steps| == |recs| && forall i :: 0 <= i < |recs| ==> steps[i] == Write(side, recs[i])
  {
    seq(|recs|, i requires 0 <= i < |recs| => Write(side, recs[i]))
  }

  /** Write the records to the inactive side, sync it, then swap the symlink to it. */
  function Plan(d: Dir, recs: seq<Record>): seq<Step> {
    var side := CurrentSide(d);
    var new_ := Other(side);
    [Create(new_)] + Writes(new_, recs) + [Sync(new_), UnlinkTmp, Symlink(new_), Rename, Unlink(side)]
  }

  /** After a crash, unsynced files hold arbitrary items. */
  function Crash(d: Dir, junkA: seq<Item>, junkB: seq<Item>): Dir {
    d.(a := if d.a.Some? && !d.a.value.synced then Some(File(junkA, false)) else d.a,
       b := if d.b.Some? && !d.b.value.synced then Some(File(junkB, false)) else d.b)
  }

  // ----- loading

  datatype Load = NoEntry | TooMany | Invalid | Loaded(recs: seq<Record>)

  function ReadItems(items: seq<Item>, recs: seq<Record>, max: nat): Load
    decreases |items|
  {
    if |recs| >= max then TooMany
    else if items == [] then Loaded(recs)
    else if items[0].Short? || items[0].rec.magic != INCARNATION_MAGIC then Invalid
    else ReadItems(items[1..], recs + [items[0].rec], max)
  }

  function LoadFrom(d: Dir, max: nat): Load {
    if d.link.None? || FileAt(d, d.link.value).None? then NoEntry
    else ReadItems(FileAt(d, d.link.value).value.items, [], max)
  }

  predicate GoodRecords(recs: seq<Record>) {
    forall i :: 0 <= i < |recs| ==> recs[i].magic == INCARNATION_MAGIC
  }

  function Items(recs: seq<Record>): (items: seq<Item>)
    ensures |items| == |recs| && forall i :: 0 <= i < |recs| ==> items[i] == Whole(recs[i])
  {
    seq(|recs|, i requires 0 <= i < |recs| => Whole(recs[i]))
  }

  /** Loading well-formed records succeeds exactly below the limit: the limit is
      tested before the end of the file is seen. */
  lemma {:induction false} ReadGood(done: seq<Record>, recs: seq<Record>, max: nat)
    requires GoodRecords(recs)
    ensures ReadItems(Items(recs), done, max) == if |done| + |recs| < max then Loaded(done + recs) else TooMany
    decreases |recs|
  {
    if recs == [] {
      assert done + recs == done;
    } else if |done| < max {
      assert Items(recs)[1..] == Items(recs[1..]);
      ReadGood(done + [recs[0]], recs[1..], max);
      assert done + [recs[0]] + recs[1..] == done + recs;
    }
  }

  predicate GoodItem(item: Item) {
    item.Whole? && item.rec.magic == INCARNATION_MAGIC
  }

  /** Every outcome of a load, for any file contents: the records if all items are whole
      with the magic and fewer than the limit, too many if the limit's worth of good
      ones comes first, invalid if a bad one does. */
  lemma {:induction false} LoadExactly(items: seq<Item>, done: seq<Record>, max: nat)
    requires |done| <= max
    ensures var r, left := ReadItems(items, done, max), max - |done|;
            && (r.Loaded? <==> |items| < left && forall i :: 0 <= i < |items| ==> GoodItem(items[i]))
            && (r.TooMany? <==> |items| >= left && forall i :: 0 <= i < left ==> GoodItem(items[i]))
            && (r.Invalid? <==> exists i :: 0 <= i < |items| && i < left && !GoodItem(items[i]))
            && (r.Loaded? ==> |r.recs| == |done| + |items| && done <= r.recs && GoodRecords(r.recs[|done|..]) && items == Items(r.recs[|done|..]))
    decreases |items|
  {
    if |done| < max && items != [] && GoodItem(items[0]) {
      var rest := done + [items[0].rec];
      LoadExactly(items[1..], rest, max);
      assert forall i :: 0 <= i < |items| ==> items[i] == if i == 0 then items[0] else items[1..][i - 1];
      var r, left := ReadItems(items, done, max), max - |done|;
      assert (exists i :: 0 <= i < |items| && i < left && !GoodItem(items[i]))
        <==> (exists i :: 0 <= i < |items[1..]| && i < left - 1 && !GoodItem(items[1..][i])) by {
        OneFurther(items, left);
      }
      if r.Loaded? {
        assert r.recs[|done|..] == [items[0].rec] + r.recs[|rest|..];
      }
    }
  }

  lemma OneFurther(items: seq<Item>, left: int)
    requires items != [] && left >= 1 && GoodItem(items[0])
    ensures (exists i :: 0 <= i < |items| && i < left && !GoodItem(items[i]))
      <==> (exists i :: 0 <= i < |items[1..]| && i < left - 1 && !GoodItem(items[1..][i]))
  {
    if i :| 0 <= i < |items| && i < left && !GoodItem(items[i]) {
      assert items[1..][i - 1] == items[i];
    }
    if i :| 0 <= i < |items[1..]| && i < left - 1 && !GoodItem(items[1..][i]) {
      assert items[i + 1] == items[1..][i];
    }
  }

  /** The directory durably holds the set `recs`: the live file is synced and whole. */
  ghost predicate Stores(d: Dir, recs: seq<Record>) {
    && GoodRecords(recs)
    && if d.link.None? then recs == []
       else FileAt(d, d.link.value) == Some(File(Items(recs), true))
  }

  /** What a later load finds: the set, exactly below the limit. */
  lemma StoredIsLoaded(d: Dir, recs: seq<Record>)
    requires Stores(d, recs)
    ensures LoadFrom(d, MAX_RECS) == if d.link.None? then NoEntry else if |recs| < MAX_RECS then Loaded(recs) else TooMany
  {
    if d.link.Some? {
      ReadGood([], recs, MAX_RECS);
      assert [] + recs == recs;
    }
  }

  // ----- the write-sync-swap sequence, stopped anywhere

  /** While the inactive side is being written nothing else changes. */
  lemma {:induction false} WritePhase(d: Dir, recs: seq<Record>, k: nat)
    requires k <= |recs|
    ensures var side := Other(CurrentSide(d));
            Exec(d, [Create(side)] + Writes(side, recs)[..k]) == SetFile(d, side, Some(File(Items(recs[..k]), false)))
  {
    var side := Other(CurrentSide(d));
    var steps := [Create(side)] + Writes(side, recs)[..k];
    if k == 0 {
      assert steps[..0] == [] && steps == [Create(side)];
      assert Items(recs[..0]) == [];
    } else {
      WritePhase(d, recs, k - 1);
      assert steps[..k] == [Create(side)] + Writes(side, recs)[..k - 1];
      assert steps[k] == Write(side, recs[k - 1]);
      assert Items(recs[..k]) == Items(recs[..k - 1]) + [Whole(recs[k - 1])];
    }
  }

  /** State after k steps of the plan, in closed form. */
  function AfterSteps(d: Dir, recs: seq<Record>, k: nat): Dir
    requires k <= |recs| + 6
  {
    var side := CurrentSide(d);
    var new_ := Other(side);
    var n := |recs|;
    if k == 0 then d
    else if k <= n + 1 then SetFile(d, new_, Some(File(Items(recs[..k - 1]), false)))
    else
      var synced := SetFile(d, new_, Some(File(Items(recs), true)));
      if k == n + 2 then synced
      else if k == n + 3 then synced.(tmp := None)
      else if k == n + 4 then synced.(tmp := Some(new_))
      else if k == n + 5 then synced.(tmp := None, link := Some(new_))
      else SetFile(synced.(tmp := None, link := Some(new_)), side, None)
  }

  lemma {:induction false} PlanStates(d: Dir, recs: seq<Record>, k: nat)
    requires k <= |recs| + 6
    ensures |Plan(d, recs)| == |recs| + 6
    ensures Exec(d, Plan(d, recs)[..k]) == AfterSteps(d, recs, k)
  {
    var side := CurrentSide(d);
    var new_ := Other(side);
    var n := |recs|;
    var plan := Plan(d, recs);
    if 1 <= k <= n + 1 {
      assert plan[..k] == [Create(new_)] + Writes(new_, recs)[..k - 1];
      WritePhase(d, recs, k - 1);
    } else if k > n + 1 {
      PlanStates(d, recs, k - 1);
      assert plan[..k][..k - 1] == plan[..k - 1];
      assert recs[..n] == recs;
    }
  }

  /** The set stored after k steps: the old one until the rename, the new one after it. */
  lemma SwapIsAtomic(d: Dir, old_: seq<Record>, recs: seq<Record>, k: nat, junkA: seq<Item>, junkB: seq<Item>)
    requires Stores(d, old_) && GoodRecords(recs) && k <= |recs| + 6
    ensures |Plan(d, recs)| == |recs| + 6
    ensures Stores(Crash(Exec(d, Plan(d, recs)[..k]), junkA, junkB), if k <= |recs| + 4 then old_ else recs)
  {
    PlanStates(d, recs, k);
  }

  /** A completed swap leaves the new file live and nothing else. */
  lemma SwapTidies(d: Dir, recs: seq<Record>)
    ensures var after, side := Exec(d, Plan(d, recs)), CurrentSide(d);
            && after.link == Some(Other(side)) && after.tmp == None
            && FileAt(after, side) == None && FileAt(after, Other(side)) == Some(File(Items(recs), true))
  {
    PlanStates(d, recs, |recs| + 6);
    assert Plan(d, recs)[..|recs| + 6] == Plan(d, recs);
  }

  // ----- a step that fails

  /** The failures the source reports.  Those of the two best-effort unlinks it ignores. */
  predicate Matters(n: nat, at: nat) {
    at <= n + 1 || at == n + 3 || at == n + 4
  }

  /** They are all but the two unlinks. */
  lemma MattersMeans(d: Dir, recs: seq<Record>, at: nat)
    ensures |Plan(d, recs)| == |recs| + 6
    ensures Matters(|recs|, at) <==> at < |recs| + 6 && !Plan(d, recs)[at].UnlinkTmp? && !Plan(d, recs)[at].Unlink?
  {}

  /** What is done after the failure of step `at`. */
  function Cleanup(d: Dir, n: nat, at: nat): seq<Step> {
    var new_ := Other(CurrentSide(d));
    if at == 0 then [] else if at == n + 4 then [UnlinkTmp, Unlink(new_)] else [Unlink(new_)]
  }

  /** The file steps taken when step `failAt` of the plan fails. */
  function Steps(d: Dir, recs: seq<Record>, failAt: Option<nat>): seq<Step> {
    if failAt.None? || !Matters(|recs|, failAt.value) || failAt.value > |Plan(d, recs)| then Plan(d, recs)
    else Plan(d, recs)[..failAt.value] + Cleanup(d, |recs|, failAt.value)
  }

  predicate Fails(recs: seq<Record>, failAt: Option<nat>) {
    failAt.Some? && Matters(|recs|, failAt.value)
  }

  /** A failed swap leaves the old set, wherever a crash may stop its clean-up. */
  lemma FailureKeepsOld(d: Dir, old_: seq<Record>, recs: seq<Record>, at: nat, k: nat, junkA: seq<Item>, junkB: seq<Item>)
    requires Stores(d, old_) && GoodRecords(recs) && Matters(|recs|, at)
    requires k <= |Steps(d, recs, Some(at))|
    ensures Stores(Crash(Exec(d, Steps(d, recs, Some(at))[..k]), junkA, junkB), old_)
  {
    var plan, cleanup := Plan(d, recs), Cleanup(d, |recs|, at);
    var steps := Steps(d, recs, Some(at));
    if k <= at {
      assert steps[..k] == plan[..k];
      SwapIsAtomic(d, old_, recs, k, junkA, junkB);
    } else {
      PlanStates(d, recs, at);
      hide Crash, Stores;
      assert steps[..at + 1] == plan[..at] + [cleanup[0]];
      ExecOne(d, plan[..at], cleanup[0]);
      if k > at + 1 {
        assert steps[..k] == plan[..at] + [cleanup[0]] + [cleanup[1]];
        ExecOne(d, plan[..at] + [cleanup[0]], cleanup[1]);
      }
      LiveFileKept(d, old_, Exec(d, steps[..k]), junkA, junkB);
    }
  }

  /** The clean-up after a failure that comes once the new file is open removes that file,
      and the temporary symlink if it was made. */
  lemma FailureTidies(d: Dir, recs: seq<Record>, at: nat)
    requires Matters(|recs|, at) && at >= 1
    ensures var after := Exec(d, Steps(d, recs, Some(at)));
            && FileAt(after, Other(CurrentSide(d))) == None && after.link == d.link
            && (at > |recs| + 1 ==> after.tmp == None)
  {
    PlanStates(d, recs, at);
    var plan, cleanup := Plan(d, recs), Cleanup(d, |recs|, at);
    ExecOne(d, plan[..at], cleanup[0]);
    if at == |recs| + 4 {
      ExecOne(d, plan[..at] + [cleanup[0]], cleanup[1]);
      assert Steps(d, recs, Some(at)) == plan[..at] + [cleanup[0]] + [cleanup[1]];
    } else {
      assert Steps(d, recs, Some(at)) == plan[..at] + [cleanup[0]];
    }
  }

  lemma ExecOne(d: Dir, steps: seq<Step>, s: Step)
    ensures Exec(d, steps + [s]) == Do(Exec(d, steps), s)
  {
    assert (steps + [s])[..|steps|] == steps;
  }

  /** Whatever happens to the other file, the live set stays while the symlink and its file do. */
  lemma LiveFileKept(d: Dir, recs: seq<Record>, e: Dir, junkA: seq<Item>, junkB: seq<Item>)
    requires Stores(d, recs) && e.link == d.link && FileAt(e, CurrentSide(d)) == FileAt(d, CurrentSide(d))
    ensures Stores(Crash(e, junkA, junkB), recs)
  {}

  // ----- operations

  datatype Op = Add(rec: Record) | Remove(slot: int)

  function Without(recs: seq<Record>, slot: int): seq<Record> {
    if recs == [] then []
    else
      var rest := Without(recs[..|recs| - 1], slot);
      if recs[|recs| - 1].slot == slot then rest else rest + [recs[|recs| - 1]]
  }

  /** `kept` lists, in their order, exactly the records of other slots: record i of it stands
      at place[i] of recs. */
  ghost predicate KeptAt(recs: seq<Record>, slot: int, kept: seq<Record>, place: seq<nat>) {
    && |place| == |kept|
    && (forall i, j :: 0 <= i < j < |place| ==> place[i] < place[j])
    && (forall i :: 0 <= i < |place| ==> place[i] < |recs| && kept[i] == recs[place[i]])
    && forall j :: 0 <= j < |recs| ==> (recs[j].slot != slot <==> j in place)
  }

  ghost predicate OthersKept(recs: seq<Record>, slot: int, kept: seq<Record>) {
    exists place :: KeptAt(recs, slot, kept, place)
  }

  lemma {:induction false} WithoutKeepsOthers(recs: seq<Record>, slot: int) returns (place: seq<nat>)
    ensures KeptAt(recs, slot, Without(recs, slot), place)
  {
    if recs == [] {
      place := [];
    } else {
      var n := |recs| - 1;
      place := WithoutKeepsOthers(recs[..n], slot);
      forall j | 0 <= j < n ensures recs[..n][j] == recs[j] {
      }
      if recs[n].slot != slot {
        var before := place;
        place := place + [n];
        assert forall j :: j in place <==> j in before || j == n;
      }
    }
  }

  predicate HasSlot(recs: seq<Record>, slot: int) {
    exists i :: 0 <= i < |recs| && recs[i].slot == slot
  }

  /** The set an operation writes; none when it is refused. */
  function Target(d: Dir, op: Op): Option<seq<Record>> {
    var loaded := LoadFrom(d, MAX_RECS);
    match op
    case Add(rec) =>
      if loaded.Loaded? then Some(loaded.recs + [rec]) else if loaded.NoEntry? then Some([rec]) else None
    case Remove(slot) =>
      if loaded.Loaded? && HasSlot(loaded.recs, slot) then Some(Without(loaded.recs, slot)) else None
  }

  /** The file steps an operation takes on this directory. */
  function OpSteps(d: Dir, op: Op, failAt: Option<nat>): seq<Step> {
    var target := Target(d, op);
    if target.None? then [] else Steps(d, target.value, failAt)
  }

  /** What the operation does to the set when nothing interrupts it. */
  function Effect(recs: seq<Record>, op: Op): seq<Record> {
    match op
    case Add(rec) => recs + [rec]
    case Remove(slot) => Without(recs, slot)
  }

  predicate GoodOp(op: Op) {
    op.Add? ==> op.rec.magic == INCARNATION_MAGIC
  }

  lemma {:induction false} WithoutGood(recs: seq<Record>, slot: int)
    requires GoodRecords(recs)
    ensures GoodRecords(Without(recs, slot)) && |Without(recs, slot)| <= |recs|
    ensures !HasSlot(recs, slot) ==> Without(recs, slot) == recs
  {
    if recs != [] {
      var n := |recs| - 1;
      WithoutGood(recs[..n], slot);
      assert HasSlot(recs[..n], slot) ==> HasSlot(recs, slot);
      assert recs == recs[..n] + [recs[n]];
    }
  }

  /** An operation, one of whose steps may fail, runs to its end or stops after some file steps with a crash. */
  datatype Event =
    | Completed(op: Op, failAt: Option<nat>)
    | Interrupted(op: Op, failAt: Option<nat>, steps: nat, junkA: seq<Item>, junkB: seq<Item>)

  function After(d: Dir, e: Event): Dir {
    var steps := OpSteps(d, e.op, e.failAt);
    match e
    case Completed(_, _) => Exec(d, steps)
    case Interrupted(_, _, k, junkA, junkB) => Crash(Exec(d, if k < |steps| then steps[..k] else steps), junkA, junkB)
  }

  lemma NoCrash(d: Dir, recs: seq<Record>)
    requires Stores(Crash(d, [], []), recs)
    ensures Stores(d, recs)
  {}

  /** An operation that completes without a failure has its effect; one that fails or
      is interrupted has it whole or not at all, and not at all when it says it failed.
      The effect is one record more at the end, or the records of all other slots. */
  lemma OperationIsAtomic(d: Dir, recs: seq<Record>, e: Event) returns (applied: bool)
    requires Stores(d, recs) && |recs| < MAX_RECS && GoodOp(e.op)
    ensures e.op.Add? ==> Effect(recs, e.op) == recs + [e.op.rec]
    ensures e.op.Remove? ==> OthersKept(recs, e.op.slot, Effect(recs, e.op))
    ensures e.Completed? && e.failAt.None? ==> applied
    ensures Target(d, e.op).Some? && Fails(Target(d, e.op).value, e.failAt) ==> !applied
    ensures Stores(After(d, e), if applied then Effect(recs, e.op) else recs)
  {
    hide Exec, Plan, Steps, Crash;
    StoredIsLoaded(d, recs);
    var target := Effect(recs, e.op);
    if e.op.Remove? {
      WithoutGood(recs, e.op.slot);
      var place := WithoutKeepsOthers(recs, e.op.slot);
    }
    if e.op.Remove? && (d.link.None? || !HasSlot(recs, e.op.slot)) {
      applied := true;
      NothingDone(d, recs, e);
    } else {
      if e.op.Add? {
        assert [] + [e.op.rec] == [e.op.rec];
      }
      assert Target(d, e.op) == Some(target);
      var steps := Steps(d, target, e.failAt);
      var k := if e.Interrupted? && e.steps < |steps| then e.steps else |steps|;
      assert steps[..|steps|] == steps;
      if Fails(target, e.failAt) {
        applied := false;
        FailureKeepsOld(d, recs, target, e.failAt.value, k, if e.Interrupted? then e.junkA else [], if e.Interrupted? then e.junkB else []);
        FailsMeans(target, e.failAt);
      } else {
        PlanIsSteps(d, target, e.failAt);
        applied := k > |target| + 4;
        SwapIsAtomic(d, recs, target, k, if e.Interrupted? then e.junkA else [], if e.Interrupted? then e.junkB else []);
      }
      if e.Completed? {
        NoCrash(Exec(d, steps), if applied then target else recs);
      }
    }
  }

  lemma FailsMeans(recs: seq<Record>, failAt: Option<nat>)
    requires Fails(recs, failAt)
    ensures failAt == Some(failAt.value)
  {}

  lemma PlanIsSteps(d: Dir, recs: seq<Record>, failAt: Option<nat>)
    requires !Fails(recs, failAt)
    ensures Steps(d, recs, failAt) == Plan(d, recs) && |Plan(d, recs)| == |recs| + 6
  {}

  lemma NothingDone(d: Dir, recs: seq<Record>, e: Event)
    requires Stores(d, recs) && Target(d, e.op).None?
    ensures Stores(After(d, e), recs) && After(d, e).link == d.link
  {}

  // ----- runs

  function Run(d: Dir, events: seq<Event>): Dir
    decreases |events|
  {
    if events == [] then d else Run(After(d, events[0]), events[1..])
  }

  /** The set after the operations that took effect. */
  function Expected(recs: seq<Record>, events: seq<Event>, applied: seq<bool>): seq<Record>
    requires |applied| == |events|
    decreases |events|
  {
    if events == [] then recs
    else Expected(if applied[0] then Effect(recs, events[0].op) else recs, events[1..], applied[1..])
  }

  /** Whichever failed or interrupted operations take effect, the stored count stays loadable. */
  predicate StaysLoadable(recs: seq<Record>, events: seq<Event>)
    decreases |events|
  {
    && |recs| < MAX_RECS
    && (events == [] ||
        (&& StaysLoadable(Effect(recs, events[0].op), events[1..])
         && (events[0].Interrupted? || events[0].failAt.Some? ==> StaysLoadable(recs, events[1..]))))
  }

  /** For every run of adds and removes with a failing step or a crash anywhere inside
      any of them, the directory holds the result of all operations that completed,
      with each other one applied whole or not at all; and a load returns it. */
  lemma {:induction false} RunIsAtomic(d: Dir, recs: seq<Record>, events: seq<Event>) returns (applied: seq<bool>)
    requires Stores(d, recs) && StaysLoadable(recs, events)
    requires forall i :: 0 <= i < |events| ==> GoodOp(events[i].op)
    ensures |applied| == |events| && forall i :: 0 <= i < |events| && events[i].Completed? && events[i].failAt.None? ==> applied[i]
    ensures var final, result := Run(d, events), Expected(recs, events, applied);
            && Stores(final, result)
            && LoadFrom(final, MAX_RECS) == if final.link.None? then NoEntry else Loaded(result)
    decreases |events|
  {
    hide After, Effect, Stores, LoadFrom, OthersKept, Target, Fails;
    if events == [] {
      applied := [];
      StoredIsLoaded(d, recs);
    } else {
      var first := OperationIsAtomic(d, recs, events[0]);
      var next := if first then Effect(recs, events[0].op) else recs;
      var rest := RunIsAtomic(After(d, events[0]), next, events[1..]);
      applied := [first] + rest;
      assert applied[1..] == rest;
      forall i | 0 <= i < |events| && events[i].Completed? && events[i].failAt.None? ensures applied[i] {
        assert i > 0 ==> events[1..][i - 1] == events[i];
      }
    }
  }

  // ----- the limit

  /** One add to a set of 65,535 is written in full, and what it wrote does not load. */
  lemma LimitIsReached(d: Dir, recs: seq<Record>, rec: Record)
    requires Stores(d, recs) && |recs| == MAX_RECS - 1 && rec.magic == INCARNATION_MAGIC
    ensures var after := After(d, Completed(Op.Add(rec), None));
            Stores(after, recs + [rec]) && after.link.Some? && LoadFrom(after, MAX_RECS) == TooMany
  {
    hide Exec, Plan, Steps;
    var e := Completed(Op.Add(rec), None);
    var applied := OperationIsAtomic(d, recs, e);
    var after := After(d, e);
    StoredIsLoaded(d, recs);
    StoredIsLoaded(after, recs + [rec]);
  }

  /** From then on every operation is refused and every load fails, whatever is tried. */
  lemma {:induction false} FullSetIsLost(d: Dir, recs: seq<Record>, events: seq<Event>)
    requires Stores(d, recs) && d.link.Some? && |recs| >= MAX_RECS
    ensures LoadFrom(Run(d, events), MAX_RECS) == TooMany
    decreases |events|
  {
    StoredIsLoaded(d, recs);
    if events != [] {
      assert Target(d, events[0].op).None?;
      NothingDone(d, recs, events[0]);
      FullSetIsLost(After(d, events[0]), recs, events[1..]);
    }
  }

  // ----- the same operations, step by step on the directory

  class StateDir {
    var dir: Dir
    /** File steps left before the crash. */
    var budget: nat

    constructor (dir: Dir, budget: nat)
      ensures this.dir == dir && this.budget == budget
    {
      this.dir, this.budget := dir, budget;
    }

    /** The directory is where the steps, in order, have left it; the crash cuts them off. */
    ghost predicate Ran(before: Dir, start: nat, steps: seq<Step>)
      reads this
    {
      var k := if start < |steps| then start else |steps|;
      dir == Exec(before, steps[..k]) && budget == start - k
    }

    /** Perform one file step unless the crash has happened. */
    method Perform(s: Step, ghost before: Dir, ghost start: nat, ghost done: seq<Step>)
      requires Ran(before, start, done)
      modifies this
      ensures Ran(before, start, done + [s])
    {
      if budget > 0 {
        dir := Do(dir, s);
        budget := budget - 1;
        assert (done + [s])[..|done| + 1][..|done|] == done[..|done|];
      } else {
        assert (done + [s])[..start] == done[..start];
      }
    }

    /** Perform the next step of a plan. */
    method Advance(s: Step, ghost before: Dir, ghost start: nat, ghost plan: seq<Step>, ghost j: nat)
      requires j < |plan| && plan[j] == s && Ran(before, start, plan[..j])
      modifies this
      ensures Ran(before, start, plan[..j + 1])
    {
      hide Ran;
      Perform(s, before, start, plan[..j]);
      assert plan[..j] + [s] == plan[..j + 1];
    }

    /** Write recs to the inactive side, sync, swap; on a failed step, clean up and say so. */
    method WriteAndSwap(recs: seq<Record>, failAt: Option<nat>) returns (ret: int)
      modifies this
      ensures Ran(old(dir), old(budget), Steps(old(dir), recs, failAt))
      ensures ret == if Fails(recs, failAt) then EIO else 0
    {
      hide Ran;
      ghost var before, start, plan := dir, budget, Plan(dir, recs);
      var side := CurrentSide(dir);
      var other := Other(side);
      var n := |recs|;
      NothingRan();
      assert plan[..0] == [];
      if failAt == Some(0) {
        assert Steps(before, recs, failAt) == [];
        return EIO;
      }
      Advance(Create(other), before, start, plan, 0);
      for i := 0 to n
        invariant Ran(before, start, plan[..i + 1])
        invariant failAt.Some? ==> failAt.value > i
      {
        if failAt == Some(i + 1) {
          Discard(other, before, start, recs, i + 1);
          return EIO;
        }
        Advance(Write(other, recs[i]), before, start, plan, i + 1);
      }
      if failAt == Some(n + 1) {
        Discard(other, before, start, recs, n + 1);
        return EIO;
      }
      Advance(Sync(other), before, start, plan, n + 1);
      ret := Swap(side, n, failAt, recs, before, start);
    }

    /** Remove the new file after a failed step. */
    method Discard(other: Side, ghost before: Dir, ghost start: nat, ghost recs: seq<Record>, ghost at: nat)
      requires 1 <= at && Matters(|recs|, at) && at != |recs| + 4 && other == Other(CurrentSide(before))
      requires Ran(before, start, Plan(before, recs)[..at])
      modifies this
      ensures Ran(before, start, Steps(before, recs, Some(at)))
    {
      hide Ran;
      Perform(Unlink(other), before, start, Plan(before, recs)[..at]);
    }

    /** Swap the symlink, then drop the old file. */
    method Swap(side: Side, n: nat, failAt: Option<nat>, ghost recs: seq<Record>, ghost before: Dir, ghost start: nat) returns (ret: int)
      requires n == |recs| && side == CurrentSide(before) && Ran(before, start, Plan(before, recs)[..n + 2])
      requires failAt.Some? ==> failAt.value > n + 1
      modifies this
      ensures Ran(before, start, Steps(before, recs, failAt))
      ensures ret == if Fails(recs, failAt) then EIO else 0
    {
      hide Ran;
      ghost var plan := Plan(before, recs);
      var other := Other(side);
      Advance(UnlinkTmp, before, start, plan, n + 2);
      if failAt == Some(n + 3) {
        Discard(other, before, start, recs, n + 3);
        return EIO;
      }
      Advance(Symlink(other), before, start, plan, n + 3);
      if failAt == Some(n + 4) {
        Perform(UnlinkTmp, before, start, plan[..n + 4]);
        Perform(Unlink(other), before, start, plan[..n + 4] + [UnlinkTmp]);
        assert plan[..n + 4] + [UnlinkTmp] + [Unlink(other)] == Steps(before, recs, failAt);
        return EIO;
      }
      Advance(Rename, before, start, plan, n + 4);
      Advance(Unlink(side), before, start, plan, n + 5);
      assert plan[..n + 6] == plan;
      return 0;
    }

    /** Read the live file record by record. */
    method Load(max: nat) returns (ret: int, recs: seq<Record>)
      ensures match LoadFrom(dir, max)
              case NoEntry => ret == ENOENT && recs == []
              case TooMany => ret == ENOSPC
              case Invalid => ret == EINVAL
              case Loaded(rs) => ret == 0 && recs == rs
    {
      recs := [];
      if dir.link.None? || FileAt(dir, dir.link.value).None? {
        return ENOENT, [];
      }
      var items := FileAt(dir, dir.link.value).value.items;
      var at := 0;
      while true
        invariant at <= |items| && ReadItems(items[at..], recs, max) == LoadFrom(dir, max)
        decreases |items| - at
      {
        if |recs| >= max {
          return ENOSPC, recs;
        }
        if at == |items| {
          return 0, recs;
        }
        if items[at].Short? || items[at].rec.magic != INCARNATION_MAGIC {
          return EINVAL, recs;
        }
        assert items[at..][1..] == items[at + 1..];
        recs := recs + [items[at].rec];
        at := at + 1;
      }
    }

    /** Returns 0 exactly when the set was loaded, the new set fits and no step failed. */
    method Add(rec: Record, failAt: Option<nat>) returns (ret: int)
      modifies this
      ensures Ran(old(dir), old(budget), OpSteps(old(dir), Op.Add(rec), failAt))
      ensures var target, loaded := Target(old(dir), Op.Add(rec)), LoadFrom(old(dir), MAX_RECS);
              && target == (if loaded.Loaded? then Some(loaded.recs + [rec]) else if loaded.NoEntry? then Some([rec]) else None)
              && ret == (match loaded
                         case TooMany => ENOSPC
                         case Invalid => EINVAL
                         case _ => if target.Some? && Fails(target.value, failAt) then EIO else 0)
    {
      hide Exec, LoadFrom;
      var recs;
      ret, recs := Load(MAX_RECS);
      if ret != 0 && ret != ENOENT {
        NothingRan();
        return;
      }
      assert [] + [rec] == [rec];
      ret := WriteAndSwap(recs + [rec], failAt);
    }

    lemma NothingRan()
      ensures Ran(dir, budget, [])
    {}

    /** Remove every record of the slot, compacting the loaded array in place: what is
        written are the loaded records of all other slots. */
    method Remove(slot: int, failAt: Option<nat>) returns (ret: int)
      modifies this
      ensures Ran(old(dir), old(budget), OpSteps(old(dir), Op.Remove(slot), failAt))
      ensures var target, loaded := Target(old(dir), Op.Remove(slot)), LoadFrom(old(dir), MAX_RECS);
              && (target.Some? <==> loaded.Loaded? && exists i :: 0 <= i < |loaded.recs| && loaded.recs[i].slot == slot)
              && (target.Some? ==> OthersKept(loaded.recs, slot, target.value))
              && ret == (match loaded
                         case TooMany => ENOSPC
                         case Invalid => EINVAL
                         case _ => if target.None? then ENOENT else if Fails(target.value, failAt) then EIO else 0)
    {
      hide Exec, OthersKept, LoadFrom;
      var recs;
      ret, recs := Load(MAX_RECS);
      if ret != 0 {
        NothingRan();
        return;
      }
      var arr := new Record[|recs|](i requires 0 <= i < |recs| => recs[i]);
      assert arr[..] == recs;
      var count, found := Compact(arr, slot);
      if !found {
        NothingRan();
        return ENOENT;
      }
      ret := WriteAndSwap(arr[..count], failAt);
    }
  }

  method Compact(recs: array<Record>, slot: int) returns (count: nat, found: bool)
    modifies recs
    ensures count <= recs.Length && recs[..count] == Without(old(recs[..]), slot)
    ensures OthersKept(old(recs[..]), slot, recs[..count])
    ensures found <==> exists i :: 0 <= i < recs.Length && old(recs[i]).slot == slot
  {
    hide OthersKept;
    count, found := 0, false;
    ghost var was := recs[..];
    for i := 0 to recs.Length
      invariant count <= i && recs[..count] == Without(was[..i], slot)
      invariant forall j :: i <= j < recs.Length ==> recs[j] == was[j]
      invariant found <==> exists j :: 0 <= j < i && was[j].slot == slot
    {
      assert was[..i + 1][..i] == was[..i];
      if recs[i].slot == slot {
        found := true;
      } else {
        ghost var kept := recs[..count];
        recs[count] := recs[i];
        count := count + 1;
        assert recs[..count] == kept + [was[i]];
      }
    }
    assert was[..recs.Length] == was;
    OthersAreKept(was, slot);
  }

  lemma OthersAreKept(recs: seq<Record>, slot: int)
    ensures OthersKept(recs, slot, Without(recs, slot))
  {
    hide KeptAt, Without;
    var place := WithoutKeepsOthers(recs, slot);
  }
}
