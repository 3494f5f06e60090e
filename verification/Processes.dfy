/** The process table: slot allocation by bitmap, exit, and the round-robin scheduler.
 */
module Processes {
  import opened Bitmap
  import opened Machine

  const MAX: nat := 256

  datatype State = Running | Ready | Blocked | Terminated

  datatype Slot = Slot(state: State, pid: nat, ppid: nat, stack: nat, exitCode: nat)

  /** The table, its bitmap, the current process's slot, the pid counter and the scheduler's cursor. */
  datatype Table = Table(slots: seq<Slot>, units: seq<Unit>, current: nat, nextPid: nat, index: nat)

  predicate Shaped(t: Table) {
    |t.slots| == MAX && |t.units| == 8 && t.current < MAX && t.index < MAX
  }

  /** Exactly the current slot is running, and a clear bit marks a terminated slot. */
  ghost predicate Inv(t: Table) {
    && Shaped(t)
    && (forall i :: 0 <= i < MAX ==> (t.slots[i].state == Running <==> i == t.current))
    && (forall i: nat :: i < MAX && !Test(t.units, 32, i) ==> t.slots[i].state == Terminated)
  }

  /** Live processes have distinct pids below the counter. */
  ghost predicate PidsOk(t: Table)
    requires Shaped(t)
  {
    && (forall i :: 0 <= i < MAX && t.slots[i].state != Terminated ==> t.slots[i].pid < t.nextPid)
    && (forall i, j :: 0 <= i < j < MAX && t.slots[i].state != Terminated && t.slots[j].state != Terminated ==>
          t.slots[i].pid != t.slots[j].pid)
  }

  // ----- scheduling -----

  /** How many slots the cursor passes before it reaches `s`. */
  function Dist(index: nat, s: nat): (d: nat)
    requires index < MAX && s < MAX
    ensures d < MAX
  {
    if s > index then s - index - 1 else s + MAX - index - 1
  }

  /** After `i + 1` moves the cursor is at the one slot that is `i` slots ahead. */
  lemma CursorMoves(index: nat, i: nat)
    requires index < MAX && i < MAX
    ensures var s := ((index + i) % MAX + 1) % MAX;
      && s == (index + i + 1) % MAX && Dist(index, s) == i
      && forall r: nat :: r < MAX && Dist(index, r) == i ==> r == s
  {
  }

  lemma DistBelow(index: nat)
    requires index < MAX
    ensures forall r: nat :: r < MAX ==> 0 <= Dist(index, r) < MAX
  {
  }

  predicate IsReady(t: Table, s: nat)
    requires Shaped(t)
  {
    s < MAX && t.slots[s].state == Ready
  }

  /** The scheduler's choice: the ready slot nearest ahead of the cursor. */
  ghost predicate Picks(t: Table, s: nat)
    requires Shaped(t)
  {
    && IsReady(t, s)
    && forall r: nat :: IsReady(t, r) ==> Dist(t.index, s) <= Dist(t.index, r)
  }

  /** The table after switching to slot `s`. */
  function SwitchTo(t: Table, s: nat): Table
    requires Shaped(t) && s < MAX
  {
    var slots := if t.slots[t.current].state == Running
                 then t.slots[t.current := t.slots[t.current].(state := Ready)] else t.slots;
    t.(slots := slots[s := slots[s].(state := Running)], current := s, index := s)
  }

  /** A context switch: a ready process runs, the one that ran, if any did, is ready, and nothing else changes. */
  ghost predicate Switched(t: Table, t': Table)
    requires Shaped(t) && Shaped(t')
  {
    var s := t'.current;
    && t'.index == s && t.slots[s].state == Ready && t'.slots[s] == t.slots[s].(state := Running)
    && (forall i :: 0 <= i < MAX && i != s ==>
          t'.slots[i] ==
          if t.slots[i].state == Running && i == t.current then t.slots[i].(state := Ready) else t.slots[i])
    && t'.units == t.units && t'.nextPid == t.nextPid
  }

  lemma SwitchToSwitches(t: Table, s: nat)
    requires Shaped(t) && IsReady(t, s)
    ensures Shaped(SwitchTo(t, s)) && Switched(t, SwitchTo(t, s)) && SwitchTo(t, s).current == s
  {
  }

  lemma CursorFollows(t: Table, s: nat)
    requires Shaped(t) && s < MAX
    ensures SwitchTo(t.(index := s), s) == SwitchTo(t, s)
  {
  }

  /** The table after the current process has ended, before the next one is chosen. */
  function Ended(t: Table, exitCode: nat): Table
    requires Shaped(t)
  {
    t.(slots := t.slots[t.current := t.slots[t.current].(state := Terminated, exitCode := exitCode)],
       units := Clear(t.units, 32, t.current))
  }

  lemma SwitchKeepsInv(t: Table, s: nat)
    requires Inv(t) && IsReady(t, s)
    ensures Inv(SwitchTo(t, s))
    ensures PidsOk(t) ==> PidsOk(SwitchTo(t, s))
  {
  }

  lemma ExitKeepsInv(t: Table, exitCode: nat, s: nat)
    requires Inv(t) && IsReady(Ended(t, exitCode), s)
    ensures Inv(SwitchTo(Ended(t, exitCode), s))
    ensures PidsOk(t) ==> PidsOk(SwitchTo(Ended(t, exitCode), s))
  {
    var e := Ended(t, exitCode);
    forall i: nat | i < MAX ensures Test(e.units, 32, i) <==> (i != t.current && Test(t.units, 32, i)) {
      UpdateIsLocal(t.units, 32, t.current, i);
    }
  }

  /** A ready slot that is passed over stays ready and gets strictly nearer the cursor. */
  lemma PassedOverIsNearer(t: Table, s: nat, r: nat)
    requires Shaped(t) && Picks(t, s) && IsReady(t, r) && r != s
    ensures Dist(s, r) < Dist(t.index, r)
    ensures IsReady(SwitchTo(t, s), r)
  {
  }

  // ----- creation -----

  ghost predicate FirstClear(units: seq<Unit>, s: nat)
    requires |units| == 8
  {
    && s < MAX && !Test(units, 32, s)
    && forall i: nat :: i < s ==> Test(units, 32, i)
  }

  ghost predicate AllSet(units: seq<Unit>)
    requires |units| == 8
  {
    forall i: nat :: i < MAX ==> Test(units, 32, i)
  }

  /** The table after a process was put in slot `s`. Slot 0 doubles as the failure value: when it is
      the first clear one, its bit is set and nothing else happens. */
  function CreatedIn(t: Table, s: nat, stack: nat): Table
    requires Shaped(t) && s < MAX
  {
    var units := Set(t.units, 32, s);
    if s == 0 then t.(units := units)
    else t.(units := units, nextPid := (t.nextPid + 1) % TWO32,
            slots := t.slots[s := Slot(Ready, t.nextPid, t.slots[t.current].pid, stack, 0)])
  }

  /** The new process has a pid of its own. */
  lemma CreateKeepsPids(t: Table, s: nat, stack: nat)
    requires Shaped(t) && s < MAX && PidsOk(t) && t.nextPid + 1 < TWO32
    ensures PidsOk(CreatedIn(t, s, stack))
  {
    hide Set;
  }

  lemma CreateSetsBit(t: Table, s: nat, stack: nat)
    requires Shaped(t) && s < MAX
    ensures var c := CreatedIn(t, s, stack);
      Shaped(c) && forall i: nat :: i < MAX ==> (Test(c.units, 32, i) <==> i == s || Test(t.units, 32, i))
  {
    var c := CreatedIn(t, s, stack);
    hide Test;
    forall i: nat | i < MAX ensures Test(c.units, 32, i) <==> (i == s || Test(t.units, 32, i)) {
      UpdateIsLocal(t.units, 32, s, i);
    }
  }

  lemma CreateKeepsInv(t: Table, s: nat, stack: nat)
    requires Inv(t) && s < MAX && !Test(t.units, 32, s)
    ensures Inv(CreatedIn(t, s, stack))
    ensures PidsOk(t) && t.nextPid + 1 < TWO32 ==> PidsOk(CreatedIn(t, s, stack))
    ensures forall r: nat :: IsReady(t, r) ==> IsReady(CreatedIn(t, s, stack), r)
  {
    hide Test, Set, PidsOk;
    CreateSetsBit(t, s, stack);
    if PidsOk(t) && t.nextPid + 1 < TWO32 { CreateKeepsPids(t, s, stack); }
  }

  // ----- runs -----

  datatype Event = Create(stack: nat) | Schedule | Exit(exitCode: nat)

  /** One kernel call that does not panic. */
  ghost predicate Step(t: Table, e: Event, t': Table)
    requires Shaped(t)
  {
    match e
    case Create(stack) =>
      if AllSet(t.units) then t' == t else exists s :: FirstClear(t.units, s) && t' == CreatedIn(t, s, stack)
    case Schedule => exists s :: Picks(t, s) && t' == SwitchTo(t, s)
    case Exit(code) => exists s :: Picks(Ended(t, code), s) && t' == SwitchTo(Ended(t, code), s)
  }

  lemma StepKeepsInv(t: Table, e: Event, t': Table)
    requires Inv(t) && Step(t, e, t')
    ensures Inv(t')
    ensures PidsOk(t) && t.nextPid + 1 < TWO32 ==> PidsOk(t') && t'.nextPid <= t.nextPid + 1
  {
    match e {
      case Create(stack) =>
        if !AllSet(t.units) {
          var s :| FirstClear(t.units, s) && t' == CreatedIn(t, s, stack);
          CreateKeepsInv(t, s, stack);
        }
      case Schedule =>
        var s :| Picks(t, s) && t' == SwitchTo(t, s);
        SwitchKeepsInv(t, s);
      case Exit(code) =>
        var s :| Picks(Ended(t, code), s) && t' == SwitchTo(Ended(t, code), s);
        ExitKeepsInv(t, code, s);
    }
  }

  /** One call leaves a waiting slot ready, unless it is picked; if the call schedules, the slot is
      strictly nearer. */
  lemma StepWaits(t: Table, e: Event, t': Table, r: nat)
    requires Inv(t) && Step(t, e, t') && IsReady(t, r) && t'.current != r
    ensures Shaped(t') && IsReady(t', r)
    ensures Dist(t'.index, r) + Scheduling(e) <= Dist(t.index, r)
  {
    match e {
      case Create(stack) =>
        if !AllSet(t.units) {
          var s :| FirstClear(t.units, s) && t' == CreatedIn(t, s, stack);
          CreateKeepsInv(t, s, stack);
        }
      case Schedule =>
        var s :| Picks(t, s) && t' == SwitchTo(t, s);
        PassedOverIsNearer(t, s, r);
      case Exit(code) =>
        var s :| Picks(Ended(t, code), s) && t' == SwitchTo(Ended(t, code), s);
        PassedOverIsNearer(Ended(t, code), s, r);
    }
  }

  function Scheduling(e: Event): nat { if e.Create? then 0 else 1 }

  function ScheduleCalls(es: seq<Event>): nat {
    if es == [] then 0 else Scheduling(es[0]) + ScheduleCalls(es[1..])
  }

  /** `ts` are the tables before, between and after the calls `es`. */
  ghost predicate Trace(ts: seq<Table>, es: seq<Event>) {
    && |ts| == |es| + 1 && Inv(ts[0])
    && forall i :: 0 <= i < |es| ==> Shaped(ts[i]) && Step(ts[i], es[i], ts[i + 1])
  }

  /** Every reachable table satisfies the invariant, and pids stay distinct until the counter wraps. */
  lemma {:induction false} TraceKeepsInv(ts: seq<Table>, es: seq<Event>)
    requires Trace(ts, es)
    ensures Inv(ts[|es|])
    ensures PidsOk(ts[0]) && ts[0].nextPid + |es| < TWO32 ==> PidsOk(ts[|es|])
    decreases |es|
  {
    if es == [] {
    } else {
      StepKeepsInv(ts[0], es[0], ts[0 + 1]);
      TraceTail(ts, es);
      TraceKeepsInv(ts[1..], es[1..]);
    }
  }

  lemma TraceTail(ts: seq<Table>, es: seq<Event>)
    requires Trace(ts, es) && es != [] && Inv(ts[1])
    ensures Trace(ts[1..], es[1..])
  {
    forall i | 0 <= i < |es[1..]| ensures Shaped(ts[1..][i]) && Step(ts[1..][i], es[1..][i], ts[1..][i + 1]) {
      assert Step(ts[i + 1], es[i + 1], ts[i + 1 + 1]);
    }
  }

  /** Bounded waiting: across any interleaving of create, exit and schedule, a ready slot is passed
      over at most as often as it is far from the cursor, so fewer than 256 times. */
  lemma {:induction false} BoundedWaiting(ts: seq<Table>, es: seq<Event>, r: nat)
    requires Trace(ts, es) && IsReady(ts[0], r)
    requires forall i :: 0 < i < |ts| ==> ts[i].current != r
    ensures ScheduleCalls(es) <= Dist(ts[0].index, r) < MAX
    decreases |es|
  {
    if es == [] {
    } else {
      StepKeepsInv(ts[0], es[0], ts[0 + 1]);
      StepWaits(ts[0], es[0], ts[1], r);
      TraceTail(ts, es);
      BoundedWaiting(ts[1..], es[1..], r);
    }
  }

  /** So within 256 calls that schedule, every ready slot has run. */
  lemma EveryReadySlotRuns(ts: seq<Table>, es: seq<Event>, r: nat)
    requires Trace(ts, es) && IsReady(ts[0], r) && ScheduleCalls(es) >= MAX
    ensures exists i :: 0 < i < |ts| && ts[i].current == r
  {
    if forall i :: 0 < i < |ts| ==> ts[i].current != r {
      BoundedWaiting(ts, es, r);
    }
  }

  /** Whoever loses the processor to another process is ready again. */
  lemma PreemptedIsReady(t: Table, s: nat)
    requires Inv(t) && IsReady(t, s)
    ensures s != t.current && IsReady(SwitchTo(t, s), t.current)
  {
    SwitchToSwitches(t, s);
  }

  /** No process starves: whoever runs or is ready, and does not exit, runs again within 257 calls that schedule. */
  lemma RunsAgain(ts: seq<Table>, es: seq<Event>, r: nat)
    requires Trace(ts, es) && r < MAX && ts[0].slots[r].state in {Running, Ready} && ScheduleCalls(es) > MAX
    requires forall i :: 0 <= i < |es| && es[i].Exit? ==> ts[i].current != r
    ensures exists i :: 0 < i < |ts| && ts[i].current == r
  {
    if ts[0].slots[r].state == Ready {
      EveryReadySlotRuns(ts, es, r);
    } else if ts[1].current != r {
      assert Step(ts[0], es[0], ts[0 + 1]);
      StepKeepsInv(ts[0], es[0], ts[1]);
      LosesProcessor(ts[0], es[0], ts[1]);
      TraceTail(ts, es);
      EveryReadySlotRuns(ts[1..], es[1..], r);
      var i :| 0 < i < |ts[1..]| && ts[1..][i].current == r;
      assert ts[i + 1].current == r;
    }
  }

  lemma LosesProcessor(t: Table, e: Event, t': Table)
    requires Inv(t) && Step(t, e, t') && t'.current != t.current && !e.Exit?
    ensures Shaped(t') && IsReady(t', t.current)
  {
    if e.Schedule? {
      var s :| Picks(t, s) && t' == SwitchTo(t, s);
      PreemptedIsReady(t, s);
    }
  }

  /** A terminated process's slot, exit code included, is as it was left until a new process is put there. */
  lemma {:induction false} ExitCodeStays(ts: seq<Table>, es: seq<Event>, s: nat)
    requires Trace(ts, es) && s < MAX
    requires forall i :: 0 <= i < |ts| ==> Shaped(ts[i]) && ts[i].slots[s].state == Terminated
    ensures Shaped(ts[|es|]) && ts[|es|].slots[s] == ts[0].slots[s]
    decreases |es|
  {
    if es == [] {
    } else {
      StepKeepsInv(ts[0], es[0], ts[0 + 1]);
      TraceTail(ts, es);
      StepKeepsEnded(ts[0], es[0], ts[1], s);
      ExitCodeStays(ts[1..], es[1..], s);
    }
  }

  lemma StepKeepsEnded(t: Table, e: Event, t': Table, s: nat)
    requires Inv(t) && Step(t, e, t') && s < MAX && t.slots[s].state == Terminated
    requires Shaped(t') && t'.slots[s].state == Terminated
    ensures t'.slots[s] == t.slots[s]
  {
  }

  /** What process_create returns: 0 exactly when no bit is clear or bit 0 is (or the counter is at 0). */
  ghost function Answer(t: Table): nat
    requires Shaped(t)
  {
    if AllSet(t.units) || !Test(t.units, 32, 0) then 0 else t.nextPid
  }

  /** While bit 0 is clear, one call fails whatever else is free, and its only effect is to set the bit:
      the next call gets a new pid exactly when some slot is free. */
  lemma CreateFailsOnce(t: Table, stack: nat)
    requires Inv(t) && !Test(t.units, 32, 0)
    ensures FirstClear(t.units, 0) && Answer(t) == 0
    ensures var t' := CreatedIn(t, 0, stack);
      && t' == t.(units := t'.units) && Step(t, Create(stack), t') && Inv(t')
      && (forall i: nat :: i < MAX ==> (Test(t'.units, 32, i) <==> i == 0 || Test(t.units, 32, i)))
      && Answer(t') == if AllSet(t'.units) then 0 else t.nextPid
  {
    CreateKeepsInv(t, 0, stack);
    hide Test;
    forall i: nat | i < MAX ensures Test(CreatedIn(t, 0, stack).units, 32, i) <==> i == 0 || Test(t.units, 32, i) {
      UpdateIsLocal(t.units, 32, 0, i);
    }
  }

  // ----- the kernel's calls -----

  class ProcessTable {
    const slots: array<Slot>
    var bitmap: seq<Unit>
    var current: nat
    var nextPid: nat
    var currentIndex: nat

    ghost predicate Valid()
      reads this, slots
    {
      slots.Length == MAX && Inv(View())
    }

    ghost function View(): Table
      reads this, slots
    {
      Table(slots[..], bitmap, current, nextPid, currentIndex)
    }

    /** process_init: slot 0 runs the first process, every other slot is terminated. */
    constructor (stack: nat)
      ensures Valid() && fresh(slots) && PidsOk(View()) && nextPid == 2 && current == 0
      ensures forall i :: 0 < i < MAX ==> slots[i].state == Terminated
      ensures forall i: nat :: i < MAX ==> (Test(bitmap, 32, i) <==> i == 0)
    {
      slots := new Slot[MAX](_ => Slot(Terminated, 0, 0, 0, 0));
      bitmap := seq(8, _ => {});
      current, nextPid, currentIndex := 0, 2, 0;
      new;
      slots[0] := Slot(Running, 1, 0, stack, 0);
      bitmap := bitmap[0 := bitmap[0] + {0}];
    }

    /** find_free_pid: claims the lowest clear slot; 0 is also the answer when there is none. */
    method FindFreePid() returns (index: nat)
      requires |bitmap| == 8
      modifies this`bitmap
      ensures |bitmap| == 8
      ensures AllSet(old(bitmap)) ==> index == 0 && bitmap == old(bitmap)
      ensures !AllSet(old(bitmap)) ==> FirstClear(old(bitmap), index) && bitmap == Set(old(bitmap), 32, index)
    {
      for i := 0 to MAX
        invariant bitmap == old(bitmap)
        invariant forall j: nat :: j < i ==> Test(bitmap, 32, j)
      {
        var bitmapIndex, bitIndex := i / 32, i % 32;
        if bitIndex !in bitmap[bitmapIndex] {
          assert !Test(bitmap, 32, i);
          bitmap := bitmap[bitmapIndex := bitmap[bitmapIndex] + {bitIndex}];
          return i;
        }
      }
      return 0;
    }

    /** process_create. */
    method ProcessCreate(stack: nat) returns (pid: nat)
      requires Valid() && nextPid < TWO32
      modifies this`bitmap, this`nextPid, slots
      ensures Valid() && Step(old(View()), Create(stack), View())
      ensures pid == Answer(old(View()))
      ensures AllSet(old(bitmap)) || !Test(old(bitmap), 32, 0) ==>
                pid == 0 && slots[..] == old(slots[..]) && nextPid == old(nextPid)
      ensures !AllSet(old(bitmap)) && Test(old(bitmap), 32, 0) ==>
                && pid == old(nextPid) && nextPid == (if pid == TWO32 - 1 then 0 else pid + 1)
                && exists s: nat ::
                     && FirstClear(old(bitmap), s)
                     && slots[..] == old(slots[..])[s := Slot(Ready, pid, old(slots[current].pid), stack, 0)]
    {
      ghost var t := View();
      var index := FindFreePid();
      if index == 0 {
        if !AllSet(t.units) {
          assert View() == CreatedIn(t, 0, stack);
          CreateKeepsInv(t, 0, stack);
        }
        return 0;
      }
      pid := nextPid;
      slots[index] := Slot(Ready, pid, slots[current].pid, stack, 0);
      nextPid := (nextPid + 1) % TWO32;
      assert View() == CreatedIn(t, index, stack);
      CreateKeepsInv(t, index, stack);
    }

    /** The switch itself: the slot that was running is ready again, the next one runs. */
    method SwitchSlots(next: nat)
      requires slots.Length == MAX && Shaped(View()) && next < MAX && currentIndex == next
      modifies this`current, slots
      ensures View() == SwitchTo(old(View()), next)
    {
      if slots[current].state == Running {
        slots[current] := slots[current].(state := Ready);
      }
      slots[next] := slots[next].(state := Running);
      current := next;
    }

    /** process_schedule: switches to the ready slot nearest ahead of the cursor. It panics exactly when
        no slot is ready, even if the caller itself is running. */
    method ProcessSchedule() returns (panicked: bool)
      requires slots.Length == MAX && Shaped(View())
      modifies this`current, this`currentIndex, slots
      ensures panicked <==> forall r: nat :: !IsReady(old(View()), r)
      ensures panicked ==> View() == old(View())
      ensures !panicked ==> exists s :: Picks(old(View()), s) && View() == SwitchTo(old(View()), s)
      ensures !panicked ==> Switched(old(View()), View())
    {
      hide Dist, SwitchTo, Switched;
      ghost var t := View();
      DistBelow(t.index);
      for i := 0 to MAX
        invariant currentIndex == (t.index + i) % MAX
        invariant View() == t.(index := currentIndex)
        invariant forall r: nat :: r < MAX && Dist(t.index, r) < i ==> !IsReady(t, r)
      {
        CursorMoves(t.index, i);
        currentIndex := (currentIndex + 1) % MAX;
        if slots[currentIndex].state == Ready {
          assert Picks(t, currentIndex);
          CursorFollows(t, currentIndex);
          SwitchToSwitches(t, currentIndex);
          SwitchSlots(currentIndex);
          return false;
        }
      }
      return true;
    }

    /** process_exit: ends the current process, frees its slot and schedules. */
    method ProcessExit(exitCode: nat) returns (panicked: bool)
      requires Valid()
      modifies this, slots
      ensures !panicked ==> Valid() && Step(old(View()), Exit(exitCode), View())
      ensures slots[old(current)] == old(slots[current]).(state := Terminated, exitCode := exitCode)
      ensures !panicked ==> !Test(bitmap, 32, old(current)) && current != old(current)
      ensures panicked <==> forall r: nat :: !IsReady(old(View()), r)
    {
      ghost var t := View();
      slots[current] := slots[current].(exitCode := exitCode, state := Terminated);
      var bitmapIndex, bitIndex := current / 32, current % 32;
      bitmap := bitmap[bitmapIndex := bitmap[bitmapIndex] - {bitIndex}];
      assert View() == Ended(t, exitCode);
      assert forall r: nat :: IsReady(View(), r) <==> IsReady(t, r);
      panicked := ProcessSchedule();
      if !panicked {
        ghost var s :| Picks(Ended(t, exitCode), s) && View() == SwitchTo(Ended(t, exitCode), s);
        ExitKeepsInv(t, exitCode, s);
      }
    }
  }

  /** Right after process_init the only process is running, and its call to the scheduler panics. */
  method LoneProcessPanics(stack: nat) returns (table: ProcessTable, panicked: bool)
    ensures panicked && table.Valid() && table.slots[0].state == Running
  {
    table := new ProcessTable(stack);
    panicked := table.ProcessSchedule();
  }

  lemma FirstCreated(t: Table, t': Table, stack: nat)
    requires Inv(t) && Step(t, Create(stack), t') && t.current == 0 && t.nextPid == 2
    requires forall i: nat :: i < MAX ==> (Test(t.units, 32, i) <==> i == 0)
    ensures Answer(t) == 2 && Inv(t') && IsReady(t', 1) && t'.current == 0 && t'.nextPid == 3
    ensures forall i: nat :: i < MAX ==> (Test(t'.units, 32, i) <==> i <= 1)
  {
    hide Test;
    assert !Test(t.units, 32, 1);
    var s :| FirstClear(t.units, s) && t' == CreatedIn(t, s, stack);
    assert s == 1;
    CreateKeepsInv(t, 1, stack);
    forall i: nat | i < MAX ensures Test(t'.units, 32, i) <==> i <= 1 { UpdateIsLocal(t.units, 32, 1, i); }
  }

  lemma FirstExited(t: Table, t': Table)
    requires Inv(t) && Step(t, Exit(0), t') && t.current == 0
    requires forall i: nat :: i < MAX ==> (Test(t.units, 32, i) <==> i <= 1)
    ensures Inv(t') && t'.nextPid == t.nextPid && forall i: nat :: i < MAX ==> (Test(t'.units, 32, i) <==> i == 1)
  {
    hide Test;
    StepKeepsInv(t, Exit(0), t');
    forall i: nat | i < MAX ensures Test(t'.units, 32, i) <==> i == 1 { UpdateIsLocal(t.units, 32, 0, i); }
  }

  lemma CreatedOnce(t: Table, t': Table, stack: nat)
    requires Inv(t) && Step(t, Create(stack), t') && !Test(t.units, 32, 0) && !Test(t.units, 32, 2)
    ensures t' == CreatedIn(t, 0, stack) && Answer(t') == t.nextPid
  {
    CreateFailsOnce(t, stack);
    hide Test, CreatedIn;
    var s :| FirstClear(t.units, s) && t' == CreatedIn(t, s, stack);
    assert s == 0;
    assert !Test(t'.units, 32, 2);
  }

  /** From process_init on: create, exit, create, create. The second creation fails although only one of
      256 slots is in use, the third succeeds. */
  method CreateAfterExit(stack: nat) returns (table: ProcessTable, pids: seq<nat>)
    ensures table.Valid() && pids == [2, 0, 3]
  {
    hide Inv, Test, Set, Clear, SwitchTo, CreatedIn, Picks;
    table := new ProcessTable(stack);
    ghost var t0 := table.View();
    var first := table.ProcessCreate(stack);
    ghost var t1 := table.View();
    FirstCreated(t0, t1, stack);
    var panicked := table.ProcessExit(0);
    ghost var t2 := table.View();
    FirstExited(t1, t2);
    var second := table.ProcessCreate(stack);
    ghost var t3 := table.View();
    CreateFailsOnce(t2, stack);
    CreatedOnce(t2, t3, stack);
    var third := table.ProcessCreate(stack);
    pids := [first, second, third];
  }
}
