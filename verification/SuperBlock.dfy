/** The two-slot superblock: each update goes to the slot that is not the newest,
    under the next generation, and opening selects the valid slot with the
    higher generation. */
module SuperBlock {

  const U64_MAX := 0xffff_ffff_ffff_ffff

  const CLEAN := 1
  const NEEDS_RECOVERY := 2
  const FENCED := 3
  const RETIRED := 4

  /** A superblock; `rest` stands for the fields that play no part in the choice of slot. */
  datatype Super = Super(generation: nat, state: int, incarnation: nat, rest: int)

  datatype Slot = Undecodable | Holds(sb: Super)

  /** The two slots on disk, and the open handle's copy. */
  datatype Store = Store(slot0: Slot, slot1: Slot, super: Super, newest: bool)

  /** Slot false is slot 0, slot true is slot 1. */
  function SlotAt(s: Store, i: bool): Slot {
    if i then s.slot1 else s.slot0
  }

  function SetSlot(s: Store, i: bool, slot: Slot): Store {
    if i then s.(slot1 := slot) else s.(slot0 := slot)
  }

  // ----- opening

  datatype Opened = Refused | Selected(slot: bool, sb: Super)

  /** The selection rule; a tie between two valid slots is refused. */
  function Select(slot0: Slot, slot1: Slot): Opened {
    if slot0.Undecodable? && slot1.Undecodable? then Refused
    else if slot0.Holds? && slot1.Holds? && slot0.sb.generation == slot1.sb.generation then Refused
    else
      var i := slot0.Undecodable? || (slot1.Holds? && slot1.sb.generation > slot0.sb.generation);
      Selected(i, if i then slot1.sb else slot0.sb)
  }

  /** Status of the open: 11 refused or fenced, 2 never provisioned, 1 usable. */
  function OpenStatus(o: Opened): int {
    if o.Refused? || o.sb.state == FENCED then 11
    else if o.sb.incarnation == 0 && o.sb.state == NEEDS_RECOVERY then 2
    else 1
  }

  // ----- events

  /** How a slot write ends: it completes, or it stops with the slot as it was,
      as intended, or undecodable. */
  datatype Fate = Completes | LeavesOld | LeavesNew | LeavesTorn

  datatype Event =
    | Touch(incarnation: nat, rest: int)   // fields changed in memory only
    | Update(state: int, fate: Fate)
    | Reopen

  predicate Acceptable(s: Store, state: int) {
    CLEAN <= state <= RETIRED && s.super.generation < U64_MAX
  }

  function Intended(s: Store, state: int): Super {
    s.super.(generation := s.super.generation + 1, state := state)
  }

  function After(s: Store, e: Event): Store {
    match e
    case Touch(inc, rest) => s.(super := s.super.(incarnation := inc, rest := rest))
    case Update(state, fate) =>
      if !Acceptable(s, state) then s
      else
        var sb := Intended(s, state);
        var i := !s.newest;
        match fate {
          case Completes => SetSlot(s, i, Holds(sb)).(super := sb, newest := i)
          case LeavesOld => s.(super := s.super.(state := state))
          case LeavesNew => SetSlot(s, i, Holds(sb)).(super := s.super.(state := state))
          case LeavesTorn => SetSlot(s, i, Undecodable).(super := s.super.(state := state))
        }
    case Reopen =>
      match Select(s.slot0, s.slot1)
      case Refused => s
      case Selected(i, sb) => s.(super := sb, newest := i)
  }

  /** What the history allows a reader to find: the last completed superblock, or
      one whose write began after it. */
  datatype History = History(completed: Super, pending: set<Super>)

  function Recorded(s: Store, h: History, e: Event): History {
    match e
    case Touch(_, _) => h
    case Update(state, fate) =>
      if !Acceptable(s, state) then h
      else if fate.Completes? then History(Intended(s, state), {})
      else h.(pending := h.pending + {Intended(s, state)})
    case Reopen =>
      match Select(s.slot0, s.slot1)
      case Refused => h
      case Selected(_, sb) => History(sb, {})
  }

  ghost predicate Consistent(s: Store, h: History) {
    && SlotAt(s, s.newest) == Holds(h.completed)
    && s.super.generation == h.completed.generation
    && (forall p :: p in h.pending ==> p.generation == h.completed.generation + 1)
    && match SlotAt(s, !s.newest)
       case Undecodable => true
       case Holds(x) => x.generation < h.completed.generation || x in h.pending
  }

  lemma EventKeepsConsistent(s: Store, h: History, e: Event)
    requires Consistent(s, h)
    ensures Consistent(After(s, e), Recorded(s, h, e))
  {}

  function Run(s: Store, events: seq<Event>): Store
    decreases |events|
  {
    if events == [] then s else Run(After(s, events[0]), events[1..])
  }

  function RunHistory(s: Store, h: History, events: seq<Event>): History
    decreases |events|
  {
    if events == [] then h else RunHistory(After(s, events[0]), Recorded(s, h, events[0]), events[1..])
  }

  /** Over every run of updates, failed and interrupted slot writes and reopens,
      opening never finds a tie and never goes back behind the last completed
      superblock: it selects that one, or one whose write had begun. */
  lemma {:induction false} OpenNeverGoesBack(s: Store, h: History, events: seq<Event>)
    requires Consistent(s, h)
    ensures var s', h' := Run(s, events), RunHistory(s, h, events);
            var o := Select(s'.slot0, s'.slot1);
            && Consistent(s', h')
            && o.Selected? && (o.sb == h'.completed || o.sb in h'.pending)
            && o.sb.generation >= h'.completed.generation
            && !(s'.slot0.Holds? && s'.slot1.Holds? && s'.slot0.sb.generation == s'.slot1.sb.generation)
    decreases |events|
  {
    if events != [] {
      EventKeepsConsistent(s, h, events[0]);
      OpenNeverGoesBack(After(s, events[0]), Recorded(s, h, events[0]), events[1..]);
    }
  }

  /** The single-crash case: a crash inside one update, at any point of its slot
      write, leaves the superblock before it or the one it was writing. */
  lemma CrashInsideUpdate(s: Store, h: History, state: int, fate: Fate)
    requires Consistent(s, h) && h.pending == {} && Acceptable(s, state) && !fate.Completes?
    ensures var s' := After(s, Update(state, fate));
            var o := Select(s'.slot0, s'.slot1);
            o.Selected? && o.sb == if fate.LeavesNew? then Intended(s, state) else h.completed
  {}

  /** The last completed generation never decreases over a run. */
  lemma {:induction false} GenerationsGrow(s: Store, h: History, events: seq<Event>)
    requires Consistent(s, h)
    ensures RunHistory(s, h, events).completed.generation >= h.completed.generation
    decreases |events|
  {
    if events != [] {
      EventKeepsConsistent(s, h, events[0]);
      GenerationsGrow(After(s, events[0]), Recorded(s, h, events[0]), events[1..]);
    }
  }

  /** What a completed update leaves for a reader: the requested state under the next
      generation, with the handle's other fields.  One that did not complete may leave
      just that superblock, and no other. */
  lemma UpdateStores(s: Store, h: History, state: int, fate: Fate)
    requires Consistent(s, h) && CLEAN <= state <= RETIRED && s.super.generation < U64_MAX
    ensures var sb := Super(s.super.generation + 1, state, s.super.incarnation, s.super.rest);
            var s', h' := After(s, Update(state, fate)), Recorded(s, h, Update(state, fate));
            if fate.Completes? then
              Select(s'.slot0, s'.slot1) == Selected(!s.newest, sb) && s'.super == sb && h' == History(sb, {})
            else
              h' == History(h.completed, h.pending + {sb}) && s'.super == s.super.(state := state)
  {}

  /** Reopening and changes in memory do not touch the slots: until the next update every
      open finds the last completed superblock. */
  lemma {:induction false} OpensAgree(s: Store, events: seq<Event>)
    requires forall i :: 0 <= i < |events| ==> !events[i].Update?
    ensures var s' := Run(s, events); s'.slot0 == s.slot0 && s'.slot1 == s.slot1
    decreases |events|
  {
    if events != [] {
      OpensAgree(After(s, events[0]), events[1..]);
    }
  }

  /** A store that was fenced stays closed: every open before the next update returns 11.
      In any other state the store opens. */
  lemma FencedStaysClosed(s: Store, h: History, state: int, events: seq<Event>)
    requires Consistent(s, h) && CLEAN <= state <= RETIRED && s.super.generation < U64_MAX && s.super.incarnation >= 1
    requires forall i :: 0 <= i < |events| ==> !events[i].Update?
    ensures var s' := Run(After(s, Update(state, Completes)), events);
            OpenStatus(Select(s'.slot0, s'.slot1)) == if state == FENCED then 11 else 1
  {
    UpdateStores(s, h, state, Completes);
    OpensAgree(After(s, Update(state, Completes)), events);
  }

  /** Provisioning that stopped between its two slots opens as never provisioned. */
  lemma HalfProvisioned(rest: int)
    ensures OpenStatus(Select(Holds(Super(1, NEEDS_RECOVERY, 0, rest)), Undecodable)) == 2
    ensures OpenStatus(Select(Undecodable, Undecodable)) == 11
  {}

  // ----- the file handle

  class Handle {
    var slots: array<Slot>
    var super: Super
    var newest: bool

    ghost predicate Valid()
      reads this, slots
    {
      slots.Length == 2
    }

    ghost function View(): Store
      reads this, slots
      requires Valid()
    {
      Store(slots[0], slots[1], super, newest)
    }

    /** A provisioned store: generation 1 in slot 0, generation 2 in slot 1. */
    constructor Provision(unstarted: int, rest: int)
      ensures Valid() && fresh(slots)
      ensures Consistent(View(), History(super, {})) && super == Super(2, CLEAN, 1, rest)
      ensures View() == Store(Holds(Super(1, NEEDS_RECOVERY, 0, unstarted)), Holds(super), super, true)
    {
      var first := Super(1, NEEDS_RECOVERY, 0, unstarted);
      var second := Super(2, CLEAN, 1, rest);
      slots := new Slot[2](i => if i == 0 then Holds(first) else Holds(second));
      super, newest := second, true;
    }

    /** Write the handle's superblock to a slot; the fate of the write is the environment's. */
    method WriteSlot(i: bool, fate: Fate) returns (ok: bool)
      requires Valid()
      modifies slots, this`newest
      ensures Valid() && ok == fate.Completes?
      ensures var at := if i then 1 else 0;
              && slots[at] == (match fate case LeavesOld => old(slots[at]) case LeavesTorn => Undecodable case _ => Holds(super))
              && slots[1 - at] == old(slots[1 - at])
      ensures newest == if ok then i else old(newest)
    {
      var at := if i then 1 else 0;
      match fate {
        case LeavesOld =>
        case LeavesTorn => slots[at] := Undecodable;
        case _ => slots[at] := Holds(super);
      }
      ok := fate.Completes?;
      if ok {
        newest := i;
      }
    }

    /** Returns 1 on success, 2 for a refused request; a write that did not complete
        gives 10 when it ran out of space and 11 otherwise. */
    method SuperUpdate(state: int, fate: Fate, noSpace: bool) returns (status: int)
      requires Valid()
      modifies this`super, this`newest, slots
      ensures Valid() && View() == After(old(View()), Update(state, fate))
      ensures status == if !(CLEAN <= state <= RETIRED) || old(super.generation) >= U64_MAX then 2
                        else if fate.Completes? then 1 else if noSpace then 10 else 11
      ensures status == 1 ==>
                && super == Super(old(super.generation) + 1, state, old(super.incarnation), old(super.rest))
                && newest == !old(newest) && slots[if newest then 1 else 0] == Holds(super)
      ensures status != 1 ==> newest == old(newest) && super == if status == 2 then old(super) else old(super).(state := state)
    {
      if state < CLEAN || state > RETIRED || super.generation >= U64_MAX {
        return 2;
      }
      super := super.(generation := super.generation + 1, state := state);
      var ok := WriteSlot(!newest, fate);
      if !ok {
        super := super.(generation := super.generation - 1);
        return if noSpace then 10 else 11;
      }
      return 1;
    }

    /** Read both slots back and take the newer one. */
    method ReadSuper() returns (status: int)
      requires Valid()
      modifies this`super, this`newest
      ensures Valid() && View() == After(old(View()), Reopen)
      ensures status == OpenStatus(Select(old(slots[0]), old(slots[1])))
      ensures status == 1 ==> slots[if newest then 1 else 0] == Holds(super) && super.state != FENCED
    {
      var valid0, valid1 := slots[0].Holds?, slots[1].Holds?;
      if !valid0 && !valid1 {
        return 11;
      }
      if valid0 && valid1 && slots[0].sb.generation == slots[1].sb.generation {
        return 11;
      }
      var selected := !valid0 || (valid1 && slots[1].sb.generation > slots[0].sb.generation);
      super := slots[if selected then 1 else 0].sb;
      newest := selected;
      if super.state == FENCED {
        return 11;
      }
      if super.incarnation == 0 && super.state == NEEDS_RECOVERY {
        return 2;
      }
      return 1;
    }
  }
}
