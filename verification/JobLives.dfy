/** When a job comes into the table, ends and leaves it: for every step and every slot, exactly. */
module JobLives {
  import opened Wrappers
  import opened JobTable
  import opened JobRuns
  import opened JobWaits

  // The poll of slot i tells that its process has ended.
  predicate PollEnds(s: Slot, poll: Poll) {
    s.kind == Process && s.status == Running && poll != StillRunning
  }

  /** A live job leaves the table exactly if its own creation is undone, or a prune finds it done. */
  lemma JobLeavesIff(st: State, step: Step, i: nat)
    requires TableOk(st.t) && Possible(st.t, step) && i < |st.t.slots| && st.t.slots[i].kind != Free
    ensures |Next(st, step).t.slots| == |st.t.slots|
    ensures var s, s' := st.t.slots[i], Next(st, step).t.slots[i];
            (s'.kind == Free || s'.id != s.id) <==>
              || step == Undo(s.id)
              || (step.PruneAll? && (s.status == Done || PollEnds(s, step.polls[i])))
  {
    hide Claimed;
  }

  /** A job that goes on is done afterwards exactly if it was, or its child or thread is reported to have
      ended: to the reaper, to itself, or to a waiter. */
  lemma JobEndsIff(st: State, step: Step, i: nat)
    requires TableOk(st.t) && Possible(st.t, step) && i < |st.t.slots| && st.t.slots[i].kind != Free
    requires |Next(st, step).t.slots| == |st.t.slots|
    requires Next(st, step).t.slots[i].kind != Free && Next(st, step).t.slots[i].id == st.t.slots[i].id
    ensures var s, s' := st.t.slots[i], Next(st, step).t.slots[i];
            s'.status == Done <==> s.status == Done || Records(st.t, step, i).Some?
  {
    hide Claimed;
  }

  ghost predicate FirstFree(t: Table, i: nat) {
    i < |t.slots| && t.slots[i].kind == Free && forall j | 0 <= j < i :: t.slots[j].kind != Free
  }

  /** A new job takes the first free slot, with the next id, and runs; if there is none nothing changes. */
  lemma JobIsAdded(st: State, step: Step, i: nat)
    requires step.Add? || step.Reserve?
    ensures FirstFree(st.t, i) ==>
              var job := if step.Add? then Slot(st.t.count + 1, Process, step.pid, 0, Running, 0, step.command)
                         else Slot(st.t.count + 1, Thread, 0, 0, Running, 0, step.command);
              Next(st, step) == st.(t := Table(st.t.slots[i := job], st.t.count + 1))
    ensures (forall j | 0 <= j < |st.t.slots| :: st.t.slots[j].kind != Free) ==> Next(st, step) == st
  {
    var k := First(st.t.slots, IsFree, 0);
    assert FirstFree(st.t, i) ==> k == i;
  }

  /** Storing a thread's id and letting others end changes no process or command. */
  lemma StepsKeepTheRest(st: State, step: Step, i: nat)
    requires TableOk(st.t) && Possible(st.t, step) && i < |st.t.slots| && st.t.slots[i].kind != Free
    ensures |Next(st, step).t.slots| == |st.t.slots|
    ensures var s, s' := st.t.slots[i], Next(st, step).t.slots[i];
            && s'.id == s.id && s'.pid == s.pid && s'.command == s.command
            && (s'.tid != s.tid ==> step == FillTid(s.id, s'.tid) && s.kind == Thread)
  {
    hide Claimed;
  }
}
