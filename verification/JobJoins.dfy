/** When the thread of a background job is joined: over every run, exactly if its id was stored before
    the job was pruned. */
module JobJoins {
  import opened JobTable
  import opened JobRuns

  // The creator of job id has stored the thread's id.
  ghost predicate Filled(past: seq<Step>, id: int) {
    exists k :: 0 <= k < |past| && past[k].FillTid? && past[k].id == id
  }

  // Live thread slots have a thread id exactly if it was stored, and ids are stored after they are handed out.
  ghost predicate FilledOk(st: State, past: seq<Step>) {
    && (forall i | 0 <= i < |st.t.slots| && st.t.slots[i].kind == Thread ::
          st.t.slots[i].tid != 0 <==> Filled(past, st.t.slots[i].id))
    && (forall id | Filled(past, id) :: id <= st.t.count)
  }

  lemma FilledMore(past: seq<Step>, step: Step, id: int)
    ensures Filled(past + [step], id) <==> Filled(past, id) || (step.FillTid? && step.id == id)
  {
    var more := past + [step];
    if Filled(past, id) {
      var k :| 0 <= k < |past| && past[k].FillTid? && past[k].id == id;
      assert more[k] == past[k];
    }
    if step.FillTid? && step.id == id {
      assert more[|past|] == step;
    }
  }

  // What one step does to the slots of live threads.
  lemma ThreadSlotAfter(st: State, step: Step, i: nat)
    requires TableOk(st.t) && Possible(st.t, step) && i < |st.t.slots|
    requires Next(st, step).t.slots[i].kind == Thread
    ensures var s, s' := st.t.slots[i], Next(st, step).t.slots[i];
            if step.Reserve? && s'.id > st.t.count then s'.tid == 0
            else s.kind == Thread && s'.id == s.id
                 && s'.tid == if step.FillTid? && step.id == s.id then step.tid else s.tid
  {
    hide Claimed;
    var t := st.t;
    if step.FillTid? && t.slots[i].kind == Thread && t.slots[i].id == step.id {
      ThreadIsFirst(t, step.id, i);
    }
  }

  lemma ThreadIsFirst(t: Table, id: int, i: nat)
    requires TableOk(t) && i < |t.slots| && t.slots[i].kind == Thread && t.slots[i].id == id
    ensures First(t.slots, (s: Slot) => s.kind == Thread && s.id == id, 0) == i
  {
  }

  lemma StepFills(st: State, past: seq<Step>, step: Step)
    requires TableOk(st.t) && Possible(st.t, step) && FilledOk(st, past) && (step.FillTid? ==> step.tid != 0)
    ensures FilledOk(Next(st, step), past + [step])
  {
    StepKeeps(st, step);
    var st' := Next(st, step);
    hide Next, TableOk;
    forall i | 0 <= i < |st'.t.slots| && st'.t.slots[i].kind == Thread
      ensures st'.t.slots[i].tid != 0 <==> Filled(past + [step], st'.t.slots[i].id)
    {
      ThreadSlotAfter(st, step, i);
      FilledMore(past, step, st'.t.slots[i].id);
    }
    forall id | Filled(past + [step], id) ensures id <= st'.t.count {
      FilledMore(past, step, id);
    }
  }

  lemma {:induction false} RunFills(st: State, past: seq<Step>, steps: seq<Step>, last: State)
    requires TableOk(st.t) && FilledOk(st, past) && Run(st, steps, last)
    requires forall k | 0 <= k < |steps| && steps[k].FillTid? :: steps[k].tid != 0
    ensures FilledOk(last, past + steps)
    decreases |steps|
  {
    if steps == [] {
      assert past + steps == past;
    } else {
      StepFills(st, past, steps[0]);
      StepKeeps(st, steps[0]);
      hide FilledOk, TableOk, Next;
      assert past + steps == (past + [steps[0]]) + steps[1..];
      RunFills(Next(st, steps[0]), past + [steps[0]], steps[1..], last);
    }
  }

  lemma {:induction false} ClaimsAreListed(s: seq<Slot>, i: nat)
    requires i < |s| && Claims(s[i])
    ensures (s[i].id, s[i].tid) in Claimed(s)
    decreases |s|
  {
    var n := |s| - 1;
    if i < n {
      ClaimsAreListed(s[..n], i);
    }
  }

  ghost predicate ClaimedIn(claims: seq<(int, int)>, id: int) {
    exists k :: 0 <= k < |claims| && claims[k].0 == id
  }

  // A prune that frees slot i claims its thread exactly if the slot has one.
  lemma PruneClaimsIff(t: Table, i: nat)
    requires TableOk(t) && i < |t.slots| && t.slots[i].kind == Thread && t.slots[i].status == Done
    ensures ClaimedIn(Claimed(t.slots), t.slots[i].id) <==> t.slots[i].tid != 0
  {
    var s, c := t.slots, Claimed(t.slots);
    ClaimedAre(s);
    if s[i].tid != 0 {
      ClaimsAreListed(s, i);
      var k :| 0 <= k < |c| && c[k] == (s[i].id, s[i].tid);
    }
    if ClaimedIn(c, s[i].id) {
      var k :| 0 <= k < |c| && c[k].0 == s[i].id;
      assert c[k] in c;
      var j :| ClaimOf(s, j, c[k]);
      assert j == i;
    }
  }

  // No live slot carries the id any more.
  ghost predicate Dead(t: Table, id: int) {
    0 < id <= t.count && forall i | 0 <= i < |t.slots| && t.slots[i].id == id :: t.slots[i].kind == Free
  }

  lemma StepLeavesDead(st: State, step: Step, id: int)
    requires TableOk(st.t) && Possible(st.t, step) && Dead(st.t, id)
    ensures Dead(Next(st, step).t, id)
    ensures ClaimedIn(Next(st, step).claims, id) <==> ClaimedIn(st.claims, id)
  {
    StepKeeps(st, step);
    var st' := Next(st, step);
    forall i | 0 <= i < |st'.t.slots| && st'.t.slots[i].id == id ensures st'.t.slots[i].kind == Free {
      assert Follows(st.t.slots[i], st'.t.slots[i], st.t.count);
    }
    if step.PruneAll? {
      NotClaimed(st.t, id);
      ClaimedInJoin(st.claims, Claimed(st.t.slots), id);
    }
  }

  lemma NotClaimed(t: Table, id: int)
    requires Dead(t, id)
    ensures !ClaimedIn(Claimed(t.slots), id)
  {
    var c := Claimed(t.slots);
    ClaimedAre(t.slots);
    forall k | 0 <= k < |c| ensures c[k].0 != id {
      assert c[k] in c;
      var j :| ClaimOf(t.slots, j, c[k]);
    }
  }

  lemma ClaimedInJoin(a: seq<(int, int)>, b: seq<(int, int)>, id: int)
    ensures ClaimedIn(a + b, id) <==> ClaimedIn(a, id) || ClaimedIn(b, id)
  {
    if ClaimedIn(a, id) {
      var k :| 0 <= k < |a| && a[k].0 == id;
      assert (a + b)[k] == a[k];
    }
    if ClaimedIn(b, id) {
      var k :| 0 <= k < |b| && b[k].0 == id;
      assert (a + b)[|a| + k] == b[k];
    }
  }

  lemma {:induction false} DeadStaysAsClaimed(st: State, steps: seq<Step>, last: State, id: int)
    requires TableOk(st.t) && Run(st, steps, last) && Dead(st.t, id)
    ensures ClaimedIn(last.claims, id) <==> ClaimedIn(st.claims, id)
    decreases |steps|
  {
    if steps != [] {
      StepKeeps(st, steps[0]);
      StepLeavesDead(st, steps[0], id);
      hide Next, TableOk, Dead, ClaimedIn;
      DeadStaysAsClaimed(Next(st, steps[0]), steps[1..], last, id);
    }
  }

  /** A thread is joined exactly if its id was stored in time: when a prune frees its job, the thread is
      among the claims at the end of the run, whatever comes after, if and only if the step that stores
      the id stands before that prune. */
  lemma ThreadIsJoinedIff(before: seq<Step>, st: State, polls: seq<Poll>, after: seq<Step>, last: State, i: nat,
                          tids: int -> int)
    requires Run(State(Empty(), []), before, st) && |polls| == |st.t.slots|
    requires Run(Next(st, PruneAll(polls)), after, last)
    requires StoresOwnTids(before, tids) && forall id: int | id > 0 :: tids(id) != 0
    requires i < |st.t.slots| && st.t.slots[i].kind == Thread && st.t.slots[i].status == Done
    ensures ClaimedIn(last.claims, st.t.slots[i].id) <==> Filled(before, st.t.slots[i].id)
  {
    hide ClaimedIn, Filled, Dead, Prune;
    RunFromEmpty(before, st);
    ClaimedAtPruneIff(before, st, polls, i, tids);
    StepKeeps(st, PruneAll(polls));
    DeadStaysAsClaimed(Next(st, PruneAll(polls)), after, last, st.t.slots[i].id);
  }

  lemma ClaimedAtPruneIff(before: seq<Step>, st: State, polls: seq<Poll>, i: nat, tids: int -> int)
    requires Run(State(Empty(), []), before, st) && |polls| == |st.t.slots|
    requires StoresOwnTids(before, tids) && forall id: int | id > 0 :: tids(id) != 0
    requires i < |st.t.slots| && st.t.slots[i].kind == Thread && st.t.slots[i].status == Done
    ensures var st' := Next(st, PruneAll(polls)); var id := st.t.slots[i].id;
            Dead(st'.t, id) && (ClaimedIn(st'.claims, id) <==> Filled(before, id))
  {
    var id := st.t.slots[i].id;
    StateAfter(before, st, tids);
    PruneClaimsIff(st.t, i);
    ClaimedInJoin(st.claims, Claimed(st.t.slots), id);
    LiveIsUnclaimed(st, i, tids);
    PruneKills(st, polls, i);
    hide TableOk, ClaimsOk, Claimed, ClaimedIn, Filled, Dead;
  }

  // What is known of the state after a run from the empty table.
  lemma StateAfter(before: seq<Step>, st: State, tids: int -> int)
    requires Run(State(Empty(), []), before, st)
    requires StoresOwnTids(before, tids) && forall id: int | id > 0 :: tids(id) != 0
    ensures TableOk(st.t) && FilledOk(st, before) && ClaimsOk(st, tids)
  {
    var empty := State(Empty(), []);
    RunKeeps(empty, before, st);
    FillsArePossible(empty, before, st, tids);
    RunFills(empty, [], before, st);
    assert [] + before == before;
    ClaimsStayOk(empty, before, st, tids);
  }

  lemma LiveIsUnclaimed(st: State, i: nat, tids: int -> int)
    requires ClaimsOk(st, tids) && i < |st.t.slots| && st.t.slots[i].kind != Free
    ensures !ClaimedIn(st.claims, st.t.slots[i].id)
  {
  }

  lemma PruneKills(st: State, polls: seq<Poll>, i: nat)
    requires TableOk(st.t) && |polls| == |st.t.slots| && i < |st.t.slots|
    requires st.t.slots[i].kind == Thread && st.t.slots[i].status == Done
    ensures Dead(Next(st, PruneAll(polls)).t, st.t.slots[i].id)
  {
    var t' := Prune(st.t, polls).0;
    forall j | 0 <= j < |t'.slots| && t'.slots[j].id == st.t.slots[i].id ensures t'.slots[j].kind == Free {
      assert t'.slots[j].id == st.t.slots[j].id;
    }
  }

  // Stored ids were handed out, so they are positive.
  lemma {:induction false} FillsArePossible(st: State, steps: seq<Step>, last: State, tids: int -> int)
    requires Run(st, steps, last) && StoresOwnTids(steps, tids) && forall id: int | id > 0 :: tids(id) != 0
    ensures forall k | 0 <= k < |steps| && steps[k].FillTid? :: steps[k].tid != 0
    decreases |steps|
  {
    if steps != [] {
      assert forall k | 0 <= k < |steps[1..]| :: steps[1..][k] == steps[k + 1];
      FillsArePossible(Next(st, steps[0]), steps[1..], last, tids);
      assert forall k | 0 < k < |steps| :: steps[k] == steps[1..][k - 1];
    }
  }
}
