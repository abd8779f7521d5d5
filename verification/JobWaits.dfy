/** What proc_wait_json answers when the table changes between its two sections. */
module JobWaits {
  import opened Wrappers
  import opened JobTable
  import opened JobRuns

  // ----- The first section -----

  ghost predicate Live(t: Table, i: nat, id: int) {
    Carries(t, i, id) && t.slots[i].kind != Free
  }

  /** A wait is refused exactly for a job that is not in the table or is a thread, answered at once
      exactly for a done process, and blocks on the process of the job otherwise. */
  lemma WaitBeginIs(t: Table, id: int, i: nat)
    requires TableOk(t) && id > 0
    ensures WaitBegin(t, id).NotFound? <==> forall j: nat :: !Live(t, j, id)
    ensures Live(t, i, id) ==> var s := t.slots[i];
            && (WaitBegin(t, id).IsThread? <==> s.kind == Thread)
            && (forall code :: WaitBegin(t, id) == Finished(code) <==>
                  s.kind == Process && s.status == Done && s.exitCode == code)
            && (forall pid :: WaitBegin(t, id) == MustBlock(pid) <==>
                  s.kind == Process && s.status != Done && s.pid == pid)
  {
    var k := First(t.slots, (s: Slot) => s.kind != Free && s.id == id, 0);
    if k < |t.slots| {
      assert Live(t, k, id);
    }
    forall j: nat | Live(t, j, id) ensures k == j {
      assert t.slots[j].id == id;
    }
  }

  // ----- Between the sections -----

  /** The exit code that a step records for the job in slot i: from the reaper, from a prune that
      polls the process, or from another waiter. */
  function Records(t: Table, step: Step, i: nat): Option<int>
    requires i < |t.slots| && (step.PruneAll? ==> |step.polls| == |t.slots|)
  {
    match step
    case Reap(pid, code) =>
      if First(t.slots, (s: Slot) => s.kind == Process && s.pid == pid, 0) == i then Some(code) else None
    case PruneAll(polls) =>
      if t.slots[i].kind == Process && t.slots[i].status == Running && polls[i].Exited?
      then Some(polls[i].code)
      else None
    case ThreadEnds(id, result) =>
      if First(t.slots, (s: Slot) => s.kind == Thread && s.id == id, 0) == i then Some(result) else None
    case WaitEnds(id, code) => if First(t.slots, (s: Slot) => s.id == id, 0) == i then Some(code) else None
    case _ => None
  }

  // The last code recorded for slot i in a run.
  ghost function LastRecorded(st: State, steps: seq<Step>, i: nat): Option<int>
    requires i < |st.t.slots| && exists last :: Run(st, steps, last)
    decreases |steps|
  {
    if steps == [] then None
    else
      RunTail(st, steps);
      var later := LastRecorded(Next(st, steps[0]), steps[1..], i);
      if later.Some? then later else Records(st.t, steps[0], i)
  }

  lemma RunTail(st: State, steps: seq<Step>)
    requires steps != [] && exists last :: Run(st, steps, last)
    ensures Possible(st.t, steps[0]) && |Next(st, steps[0]).t.slots| == |st.t.slots|
    ensures exists last :: Run(Next(st, steps[0]), steps[1..], last)
  {
    var last :| Run(st, steps, last);
    assert Run(Next(st, steps[0]), steps[1..], last);
  }

  // While slot i carries the job, whatever is recorded there is the child's exit code.
  ghost predicate Honest(st: State, steps: seq<Step>, i: nat, id: int, code: int)
    decreases |steps|
  {
    steps == [] || (&& i < |st.t.slots| && Possible(st.t, steps[0])
                    && (st.t.slots[i].id == id && Records(st.t, steps[0], i).Some?
                        ==> Records(st.t, steps[0], i).value == code)
                    && Honest(Next(st, steps[0]), steps[1..], i, id, code))
  }

  // A slot that keeps its job keeps its code, unless the step records one.
  lemma CodeAfter(st: State, step: Step, i: nat)
    requires TableOk(st.t) && Possible(st.t, step) && i < |st.t.slots|
    requires Next(st, step).t.slots[i].id == st.t.slots[i].id && 0 < st.t.slots[i].id
    ensures Next(st, step).t.slots[i].exitCode == match Records(st.t, step, i)
                                                 case Some(code) => code
                                                 case None => st.t.slots[i].exitCode
  {
    hide Claimed;
  }

  lemma {:induction false} CodeAtEnd(st: State, steps: seq<Step>, last: State, i: nat)
    requires TableOk(st.t) && Run(st, steps, last) && i < |st.t.slots|
    requires 0 < st.t.slots[i].id && |last.t.slots| == |st.t.slots| && last.t.slots[i].id == st.t.slots[i].id
    ensures last.t.slots[i].exitCode == match LastRecorded(st, steps, i)
                                        case Some(code) => code
                                        case None => st.t.slots[i].exitCode
    decreases |steps|
  {
    if steps != [] {
      var st' := Next(st, steps[0]);
      StepKeeps(st, steps[0]);
      RunKeeps(st', steps[1..], last);
      assert Follows(st.t.slots[i], st'.t.slots[i], st.t.count)
          && Follows(st'.t.slots[i], last.t.slots[i], st'.t.count);
      assert st'.t.slots[i].id == st.t.slots[i].id;
      CodeAfter(st, steps[0], i);
      CodeAtEnd(st', steps[1..], last, i);
    }
  }

  lemma {:induction false} HonestRecords(st: State, steps: seq<Step>, last: State, i: nat, id: int, code: int)
    requires TableOk(st.t) && Run(st, steps, last) && i < |st.t.slots| && Honest(st, steps, i, id, code)
    requires 0 < id == st.t.slots[i].id && |last.t.slots| == |st.t.slots| && last.t.slots[i].id == id
    ensures LastRecorded(st, steps, i).Some? ==> LastRecorded(st, steps, i).value == code
    decreases |steps|
  {
    if steps != [] {
      var st' := Next(st, steps[0]);
      StepKeeps(st, steps[0]);
      RunKeeps(st', steps[1..], last);
      assert Follows(st.t.slots[i], st'.t.slots[i], st.t.count)
          && Follows(st'.t.slots[i], last.t.slots[i], st'.t.count);
      assert st'.t.slots[i].id == id;
      HonestRecords(st', steps[1..], last, i, id, code);
    }
  }

  // ----- The second section -----

  // In every run a slot whose job is not done has no code yet, and no job is ever stopped.
  ghost predicate CodesOk(t: Table) {
    forall i | 0 <= i < |t.slots| && t.slots[i].status != Done ::
      t.slots[i].status == Running && t.slots[i].exitCode == 0
  }

  lemma {:induction false} CodesStayOk(st: State, steps: seq<Step>, last: State)
    requires CodesOk(st.t) && Run(st, steps, last)
    ensures CodesOk(last.t)
    decreases |steps|
  {
    if steps != [] {
      CodesStep(st, steps[0]);
      CodesStayOk(Next(st, steps[0]), steps[1..], last);
    }
  }

  lemma CodesStep(st: State, step: Step)
    requires CodesOk(st.t) && Possible(st.t, step)
    ensures CodesOk(Next(st, step).t)
  {
    hide Claimed;
  }

  lemma StoredIs(t: Table, id: int, i: nat)
    requires TableOk(t) && i < |t.slots| && 0 < id
    ensures t.slots[i].id == id ==> Stored(t, id) == t.slots[i].exitCode
    ensures (forall j: nat :: !Carries(t, j, id)) ==> Stored(t, id) == 0
  {
    var k := First(t.slots, (s: Slot) => s.id == id, 0);
    assert k < |t.slots| ==> Carries(t, k, id);
  }

  /** A wait that has to block, and then hears that somebody else reaped the child, answers with the
      child's exit code exactly if that is 0 or the job still has its slot and somebody recorded the
      code there. It answers 0 instead once the slot was pruned and given to another job, and when the
      job became done without a code, because a prune found no such child. */
  lemma WaitAnswersRightIff(before: seq<Step>, st: State, steps: seq<Step>, last: State, id: int, pid: int, i: nat,
      code: int)
    requires Run(State(Empty(), []), before, st) && Run(st, steps, last)
    requires 0 < id && WaitBegin(st.t, id) == MustBlock(pid) && Live(st.t, i, id)
    requires Honest(st, steps, i, id, code)
    ensures Stored(last.t, id) == code <==>
            code == 0 || (Carries(last.t, i, id) && LastRecorded(st, steps, i).Some?)
  {
    RunFromEmpty(before, st);
    RunKeeps(st, steps, last);
    CodesStayOk(State(Empty(), []), before, st);
    WaitBeginIs(st.t, id, i);
    assert st.t.slots[i].exitCode == 0;
    StoredIs(last.t, id, i);
    if Carries(last.t, i, id) {
      CodeAtEnd(st, steps, last, i);
      HonestRecords(st, steps, last, i, id, code);
    } else {
      assert forall j: nat | j < |last.t.slots| :: Follows(st.t.slots[j], last.t.slots[j], st.t.count);
    }
  }

  /** Once a waiter has recorded the code, every later wait for the job answers with it at once, or
      finds that the job was pruned. */
  lemma LaterWaitsAgree(st: State, id: int, code: int, steps: seq<Step>, last: State, i: nat)
    requires TableOk(st.t) && 0 < id <= st.t.count && Live(st.t, i, id) && st.t.slots[i].kind == Process
    requires Run(Next(st, WaitEnds(id, code)), steps, last) && Honest(Next(st, WaitEnds(id, code)), steps, i, id, code)
    ensures WaitBegin(last.t, id) in {Finished(code), NotFound}
  {
    var st' := Next(st, WaitEnds(id, code));
    StepKeeps(st, WaitEnds(id, code));
    assert st'.t.slots[i].id == id && st'.t.slots[i].exitCode == code && st'.t.slots[i].status == Done by {
      assert First(st.t.slots, (s: Slot) => s.id == id, 0) == i;
    }
    RunKeeps(st', steps, last);
    assert Follows(st'.t.slots[i], last.t.slots[i], st'.t.count);
    WaitBeginIs(last.t, id, i);
    if Live(last.t, i, id) {
      CodeAtEnd(st', steps, last, i);
      HonestRecords(st', steps, last, i, id, code);
    } else {
      assert forall j: nat | j < |last.t.slots| :: Follows(st'.t.slots[j], last.t.slots[j], st'.t.count);
    }
  }

  // A run in which the answer is wrong: the reaper records the code, a prune frees the slot, and the
  // next job takes it.
  lemma WaitAnswersZero(pid: int, other: int, command: string, code: int, polls: seq<Poll>)
    requires |polls| == MAX_JOBS
    ensures var st := Next(State(Empty(), []), Add(pid, command));
            var steps := [Reap(pid, code), PruneAll(polls), Add(other, command)];
            && WaitBegin(st.t, 1) == MustBlock(pid)
            && exists last :: Run(st, steps, last) && Stored(last.t, 1) == 0
  {
    var s0 := State(Empty(), []);
    var s1 := Next(s0, Add(pid, command));
    var steps := [Reap(pid, code), PruneAll(polls), Add(other, command)];
    assert s1.t.slots[0] == Slot(1, Process, pid, 0, Running, 0, command);
    var s2 := Next(s1, steps[0]);
    assert s2.t.slots[0] == Slot(1, Process, pid, 0, Done, code, command);
    var s3 := Next(s2, steps[1]);
    assert s3.t.slots[0].kind == Free;
    var s4 := Next(s3, steps[2]);
    assert s4.t.slots[0] == Slot(2, Process, other, 0, Running, 0, command);
    assert forall j | 0 <= j < MAX_JOBS :: s4.t.slots[j].id != 1;
    assert Run(s4, [], s4);
    assert steps[2..] == [steps[2]] && steps[1..][1..] == steps[2..] && steps[2..][1..] == [];
    assert Run(s3, steps[2..], s4);
    assert Run(s2, steps[1..], s4);
    assert Run(s1, steps, s4);
  }
}
