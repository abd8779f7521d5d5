/** The job table of aishell_main.c. Every method is one section under job_table_mutex. */
module JobTable {

  const MAX_JOBS := 64

  // Free is JOB_TYPE_NONE; a freed slot keeps its old id.
  datatype Kind = Free | Process | Thread
  datatype Status = Running | Done | Stopped
  datatype Slot = Slot(id: int, kind: Kind, pid: int, tid: int, status: Status, exitCode: int, command: string)
  datatype Table = Table(slots: seq<Slot>, count: int)

  // The answer of waitpid with WNOHANG.
  datatype Poll = StillRunning | Exited(code: int) | NoChild

  datatype WaitStart = NotFound | IsThread | Finished(code: int) | MustBlock(pid: int)

  // ----- What each section computes -----

  function First(s: seq<Slot>, p: Slot -> bool, i: nat): (r: nat)
    requires i <= |s|
    ensures i <= r <= |s| && (r < |s| ==> p(s[r])) && forall k | i <= k < r :: !p(s[k])
    decreases |s| - i
  {
    if i == |s| || p(s[i]) then i else First(s, p, i + 1)
  }

  function UpdateFirst(t: Table, p: Slot -> bool, f: Slot -> Slot): Table {
    var i := First(t.slots, p, 0);
    if i < |t.slots| then t.(slots := t.slots[i := f(t.slots[i])]) else t
  }

  function New(t: Table, kind: Kind, pid: int, command: string): (Table, int) {
    var i := First(t.slots, IsFree, 0);
    if i == |t.slots| then (t, -1) else
    var id := t.count + 1;
    (Table(t.slots[i := Slot(id, kind, pid, 0, Running, 0, command)], id), id)
  }

  predicate IsFree(s: Slot) { s.kind == Free }

  function SetTid(t: Table, id: int, tid: int): Table {
    UpdateFirst(t, (s: Slot) => s.kind == Thread && s.id == id, (s: Slot) => s.(tid := tid))
  }

  function MarkDone(t: Table, pid: int, code: int): Table {
    UpdateFirst(t, (s: Slot) => s.kind == Process && s.pid == pid, (s: Slot) => s.(status := Done, exitCode := code))
  }

  function Cleanup(t: Table, id: int, result: int): Table {
    UpdateFirst(t, (s: Slot) => s.kind == Thread && s.id == id, (s: Slot) => s.(status := Done, exitCode := result))
  }

  // The relocked part of proc_wait_json does not look at the kind of the slot.
  function WaitDone(t: Table, id: int, code: int): Table {
    UpdateFirst(t, (s: Slot) => s.id == id, (s: Slot) => s.(status := Done, exitCode := code))
  }

  function Rollback(t: Table, id: int): Table {
    t.(slots := seq(|t.slots|, i requires 0 <= i < |t.slots| =>
      if t.slots[i].id == id then t.slots[i].(kind := Free) else t.slots[i]))
  }

  function Polled(s: Slot, w: Poll): Slot {
    if s.kind == Process && s.status == Running then
      match w
      case StillRunning => s
      case Exited(code) => s.(status := Done, exitCode := code)
      case NoChild => s.(status := Done)
    else s
  }

  // A done job is freed; the thread id of a done thread is claimed for pthread_join.
  function Pruned(s: Slot, w: Poll): Slot {
    var d := Polled(s, w);
    if s.kind != Free && d.status == Done then d.(kind := Free) else d
  }

  predicate Claims(s: Slot) {
    s.kind == Thread && s.status == Done && s.tid != 0
  }

  function Claimed(s: seq<Slot>): seq<(int, int)> {
    if s == [] then []
    else
      var last := s[|s| - 1];
      Claimed(s[..|s| - 1]) + (if Claims(last) then [(last.id, last.tid)] else [])
  }

  function Prune(t: Table, polls: seq<Poll>): (Table, seq<(int, int)>)
    requires |polls| == |t.slots|
  {
    (t.(slots := seq(|t.slots|, i requires 0 <= i < |t.slots| => Pruned(t.slots[i], polls[i]))), Claimed(t.slots))
  }

  function WaitBegin(t: Table, id: int): WaitStart {
    var i := First(t.slots, (s: Slot) => s.kind != Free && s.id == id, 0);
    if i == |t.slots| then NotFound
    else if t.slots[i].kind == Thread then IsThread
    else if t.slots[i].status == Done then Finished(t.slots[i].exitCode)
    else MustBlock(t.slots[i].pid)
  }

  // The code that a waiter finds in the table when somebody else reaped the child.
  function Stored(t: Table, id: int): int {
    var i := First(t.slots, (s: Slot) => s.id == id, 0);
    if i < |t.slots| then t.slots[i].exitCode else 0
  }

  // ----- The table itself -----

  class Jobs {
    const slots: array<Slot>
    var count: int

    ghost predicate Valid()
      reads this
    {
      slots.Length == MAX_JOBS
    }

    constructor ()
      ensures Valid() && fresh(slots) && count == 0
      ensures forall i | 0 <= i < MAX_JOBS :: slots[i] == Slot(0, Free, 0, 0, Running, 0, "")
    {
      slots := new Slot[MAX_JOBS](_ => Slot(0, Free, 0, 0, Running, 0, ""));
      count := 0;
    }

    ghost function Snap(): Table
      reads this, slots
    {
      Table(slots[..], count)
    }

    // The search loop that every section starts with.
    method Find(p: Slot -> bool) returns (i: nat)
      ensures i == First(slots[..], p, 0)
    {
      i := 0;
      while i < slots.Length && !p(slots[i])
        invariant i <= slots.Length && First(slots[..], p, 0) == First(slots[..], p, i)
      {
        i := i + 1;
      }
    }

    method JobsNew(kind: Kind, pid: int, command: string) returns (id: int)
      requires Valid()
      modifies this, slots
      ensures (Snap(), id) == New(old(Snap()), kind, pid, command)
    {
      var i := Find(IsFree);
      if i == slots.Length { return -1; }
      count := count + 1;
      slots[i] := Slot(count, kind, pid, 0, Running, 0, command);
      return count;
    }

    method JobsAdd(pid: int, command: string) returns (id: int)
      requires Valid()
      modifies this, slots
      ensures (Snap(), id) == New(old(Snap()), Process, pid, command)
    {
      id := JobsNew(Process, pid, command);
    }

    method JobsReserveThreadSlot(command: string) returns (id: int)
      requires Valid()
      modifies this, slots
      ensures (Snap(), id) == New(old(Snap()), Thread, 0, command)
    {
      id := JobsNew(Thread, 0, command);
    }

    method JobsSetThreadTid(id: int, tid: int)
      requires Valid()
      modifies slots
      ensures Snap() == SetTid(old(Snap()), id, tid)
    {
      var i := Find((s: Slot) => s.kind == Thread && s.id == id);
      if i < slots.Length { slots[i] := slots[i].(tid := tid); }
    }

    method JobsMarkDone(pid: int, code: int)
      requires Valid()
      modifies slots
      ensures Snap() == MarkDone(old(Snap()), pid, code)
    {
      var i := Find((s: Slot) => s.kind == Process && s.pid == pid);
      if i < slots.Length { slots[i] := slots[i].(status := Done, exitCode := code); }
    }

    method BgBuiltinCleanup(id: int, result: int)
      requires Valid()
      modifies slots
      ensures Snap() == if id > 0 then Cleanup(old(Snap()), id, result) else old(Snap())
    {
      if id > 0 {
        var i := Find((s: Slot) => s.kind == Thread && s.id == id);
        if i < slots.Length { slots[i] := slots[i].(status := Done, exitCode := result); }
      }
    }

    // After pthread_create failed: frees every slot with the id.
    method JobsRollback(id: int)
      requires Valid()
      modifies slots
      ensures Snap() == Rollback(old(Snap()), id)
    {
      for k := 0 to slots.Length
        invariant forall i | 0 <= i < slots.Length :: 
          slots[i] == (if i < k && old(slots[i]).id == id then old(slots[i]).(kind := Free) else old(slots[i]))
      {
        if slots[k].id == id { slots[k] := slots[k].(kind := Free); }
      }
      assert slots[..] == Rollback(old(Snap()), id).slots;
    }

    method JobsPrintAndPrune(polls: seq<Poll>) returns (claimed: seq<(int, int)>)
      requires Valid() && |polls| == MAX_JOBS
      modifies slots
      ensures (Snap(), claimed) == Prune(old(Snap()), polls)
    {
      claimed := [];
      for i := 0 to slots.Length
        invariant claimed == Claimed(old(slots[..])[..i])
        invariant forall k | 0 <= k < slots.Length :: 
          slots[k] == (if k < i then Pruned(old(slots[k]), polls[k]) else old(slots[k]))
      {
        assert old(slots[..])[..i + 1][..i] == old(slots[..])[..i];
        if slots[i].kind != Free {
          if slots[i].kind == Process && slots[i].status == Running {
            match polls[i]
            case StillRunning =>
            case Exited(code) => slots[i] := slots[i].(status := Done, exitCode := code);
            case NoChild => slots[i] := slots[i].(status := Done);
          }
          if slots[i].status == Done {
            if slots[i].kind == Thread && slots[i].tid != 0 {
              claimed := claimed + [(slots[i].id, slots[i].tid)];
            }
            slots[i] := slots[i].(kind := Free);
          }
        }
      }
      assert old(slots[..])[..slots.Length] == old(slots[..]);
      assert slots[..] == Prune(old(Snap()), polls).0.slots;
    }

    // proc_wait_json up to the point where it unlocks.
    method ProcWaitBegin(id: int) returns (r: WaitStart)
      requires Valid()
      ensures r == WaitBegin(Snap(), id)
    {
      var i := Find((s: Slot) => s.kind != Free && s.id == id);
      if i == slots.Length { return NotFound; }
      if slots[i].kind == Thread { return IsThread; }
      if slots[i].status == Done { return Finished(slots[i].exitCode); }
      return MustBlock(slots[i].pid);
    }

    // proc_wait_json after waitpid returned the child.
    method ProcWaitDone(id: int, code: int)
      requires Valid()
      modifies slots
      ensures Snap() == WaitDone(old(Snap()), id, code)
    {
      var i := Find((s: Slot) => s.id == id);
      if i < slots.Length { slots[i] := slots[i].(status := Done, exitCode := code); }
    }

    // proc_wait_json after waitpid said that somebody else reaped the child.
    method ProcWaitStored(id: int) returns (code: int)
      requires Valid()
      ensures code == Stored(Snap(), id)
    {
      var i := Find((s: Slot) => s.id == id);
      code := if i < slots.Length then slots[i].exitCode else 0;
    }
  }
}
