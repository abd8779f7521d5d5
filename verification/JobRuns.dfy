/** Every interleaving of the sections of the job table: what one step keeps, and what follows for
    the handles that threads hold between steps. */
module JobRuns {
  import opened JobTable

  datatype Step =
    | Add(pid: int, command: string)
    | Reserve(command: string)
    | FillTid(id: int, tid: int)
    | Undo(id: int)
    | Reap(pid: int, code: int)
    | PruneAll(polls: seq<Poll>)
    | ThreadEnds(id: int, result: int)
    | WaitEnds(id: int, code: int)

  // The table and the (job, thread) pairs that prunes have claimed for joining.
  datatype State = State(t: Table, claims: seq<(int, int)>)

  ghost predicate TableOk(t: Table) {
    && |t.slots| == MAX_JOBS && t.count >= 0
    && (forall i | 0 <= i < |t.slots| ::
          0 <= t.slots[i].id <= t.count && (t.slots[i].kind != Free ==> t.slots[i].id > 0))
    && (forall i, j | 0 <= i < j < |t.slots| :: t.slots[i].id != 0 ==> t.slots[i].id != t.slots[j].id)
  }

  /** A step is possible when the job id that its thread holds was handed out earlier; nothing is
      assumed about whether that job still is in the table. */
  ghost predicate Possible(t: Table, step: Step) {
    match step
    case FillTid(id, _) => 0 < id <= t.count
    case Undo(id) => 0 < id <= t.count
    case ThreadEnds(id, _) => 0 < id <= t.count
    case WaitEnds(id, _) => 0 < id <= t.count
    case PruneAll(polls) => |polls| == |t.slots|
    case _ => true
  }

  function Next(st: State, step: Step): State
    requires step.PruneAll? ==> |step.polls| == |st.t.slots|
  {
    match step
    case Add(pid, command) => st.(t := New(st.t, Process, pid, command).0)
    case Reserve(command) => st.(t := New(st.t, Thread, 0, command).0)
    case FillTid(id, tid) => st.(t := SetTid(st.t, id, tid))
    case Undo(id) => st.(t := Rollback(st.t, id))
    case Reap(pid, code) => st.(t := MarkDone(st.t, pid, code))
    case PruneAll(polls) => var (t', claimed) := Prune(st.t, polls); State(t', st.claims + claimed)
    case ThreadEnds(id, result) => st.(t := Cleanup(st.t, id, result))
    case WaitEnds(id, code) => st.(t := WaitDone(st.t, id, code))
  }

  // A run from st to its last state.
  ghost predicate Run(st: State, steps: seq<Step>, last: State)
    decreases |steps|
  {
    if steps == [] then last == st
    else Possible(st.t, steps[0]) && Run(Next(st, steps[0]), steps[1..], last)
  }

  function Empty(): Table {
    Table(seq(MAX_JOBS, i => Slot(0, Free, 0, 0, Running, 0, "")), 0)
  }

  // ----- What a step may do to a slot -----

  /** s became s': it is the same job, which only moved forward, or a job with a new id. */
  ghost predicate Follows(s: Slot, s': Slot, count: int) {
    || s'.id > count
    || (&& s'.id == s.id && s'.pid == s.pid && s'.command == s.command
        && (s'.kind == s.kind || s'.kind == Free)
        && (s.status == Done ==> s'.status == Done))
  }

  ghost predicate Evolves(t: Table, t': Table) {
    && |t.slots| == |t'.slots| && t.count <= t'.count
    && forall i | 0 <= i < |t.slots| :: Follows(t.slots[i], t'.slots[i], t.count)
  }

  lemma EvolvesTransitively(t: Table, t': Table, t'': Table)
    requires Evolves(t, t') && Evolves(t', t'')
    ensures Evolves(t, t'')
  {
    forall i | 0 <= i < |t.slots| ensures Follows(t.slots[i], t''.slots[i], t.count) {
      assert Follows(t.slots[i], t'.slots[i], t.count) && Follows(t'.slots[i], t''.slots[i], t'.count);
    }
  }

  lemma NewKeeps(t: Table, kind: Kind, pid: int, command: string)
    requires TableOk(t) && kind != Free
    ensures var (t', id) := New(t, kind, pid, command);
            TableOk(t') && Evolves(t, t') && (id == -1 || id == t.count + 1 == t'.count)
  {
  }

  // An update of one slot in place.
  lemma UpdateKeeps(t: Table, p: Slot -> bool, f: Slot -> Slot)
    requires TableOk(t)
    requires forall s: Slot | p(s) :: Follows(s, f(s), t.count) && f(s).kind == s.kind && f(s).id == s.id
    ensures TableOk(UpdateFirst(t, p, f)) && Evolves(t, UpdateFirst(t, p, f))
  {
  }

  lemma PruneKeeps(t: Table, polls: seq<Poll>)
    requires TableOk(t) && |polls| == |t.slots|
    ensures TableOk(Prune(t, polls).0) && Evolves(t, Prune(t, polls).0)
  {
    var t' := Prune(t, polls).0;
    forall i | 0 <= i < |t.slots|
      ensures Follows(t.slots[i], t'.slots[i], t.count) && t'.slots[i].id == t.slots[i].id
      ensures t'.slots[i].kind != Free ==> t.slots[i].kind != Free
    {
    }
  }

  lemma StepKeeps(st: State, step: Step)
    requires TableOk(st.t) && Possible(st.t, step)
    ensures TableOk(Next(st, step).t) && Evolves(st.t, Next(st, step).t)
  {
    var t := st.t;
    match step {
      case Add(pid, command) => NewKeeps(t, Process, pid, command);
      case Reserve(command) => NewKeeps(t, Thread, 0, command);
      case FillTid(id, tid) =>
        UpdateKeeps(t, (s: Slot) => s.kind == Thread && s.id == id, (s: Slot) => s.(tid := tid));
      case Undo(id) =>
      case Reap(pid, code) =>
        UpdateKeeps(t, (s: Slot) => s.kind == Process && s.pid == pid,
                    (s: Slot) => s.(status := Done, exitCode := code));
      case PruneAll(polls) => PruneKeeps(t, polls);
      case ThreadEnds(id, result) =>
        UpdateKeeps(t, (s: Slot) => s.kind == Thread && s.id == id,
                    (s: Slot) => s.(status := Done, exitCode := result));
      case WaitEnds(id, code) =>
        UpdateKeeps(t, (s: Slot) => s.id == id, (s: Slot) => s.(status := Done, exitCode := code));
    }
  }

  /** In every run all nonzero slot ids stay distinct and at most the counter, and every slot holds
      the job it held, further along, or one with a newer id. */
  lemma {:induction false} RunKeeps(st: State, steps: seq<Step>, last: State)
    requires TableOk(st.t) && Run(st, steps, last)
    ensures TableOk(last.t) && Evolves(st.t, last.t)
    decreases |steps|
  {
    if steps != [] {
      StepKeeps(st, steps[0]);
      RunKeeps(Next(st, steps[0]), steps[1..], last);
      EvolvesTransitively(st.t, Next(st, steps[0]).t, last.t);
    }
  }

  lemma RunFromEmpty(steps: seq<Step>, last: State)
    requires Run(State(Empty(), []), steps, last)
    ensures TableOk(last.t)
  {
    RunKeeps(State(Empty(), []), steps, last);
  }

  // ----- Handles -----

  ghost predicate Carries(t: Table, i: nat, id: int) {
    i < |t.slots| && t.slots[i].id == id
  }

  /** A job id names one job for ever: wherever it is found later, it is in the same slot, with the
      same process and command, and a done job is still done. */
  lemma IdNamesOneJob(st: State, steps: seq<Step>, last: State, id: int, i: nat, i': nat)
    requires TableOk(st.t) && Run(st, steps, last) && 0 < id <= st.t.count
    requires Carries(st.t, i, id) && Carries(last.t, i', id)
    ensures i' == i
    ensures var s, s' := st.t.slots[i], last.t.slots[i'];
            && s'.pid == s.pid && s'.command == s.command && (s'.kind == s.kind || s'.kind == Free)
            && (s.status == Done ==> s'.status == Done)
  {
    RunKeeps(st, steps, last);
    assert Follows(st.t.slots[i'], last.t.slots[i'], st.t.count);
  }

  // An id that was handed out and is in no slot never comes back.
  lemma GoneForGood(st: State, steps: seq<Step>, last: State, id: int)
    requires TableOk(st.t) && Run(st, steps, last) && 0 < id <= st.t.count
    requires forall i: nat :: !Carries(st.t, i, id)
    ensures forall i: nat :: !Carries(last.t, i, id)
  {
    RunKeeps(st, steps, last);
    forall i: nat ensures !Carries(last.t, i, id) {
      if Carries(last.t, i, id) {
        assert Follows(st.t.slots[i], last.t.slots[i], st.t.count);
        assert Carries(st.t, i, id);
      }
    }
  }

  function Handle(step: Step): int {
    match step
    case FillTid(id, _) => id
    case Undo(id) => id
    case ThreadEnds(id, _) => id
    case WaitEnds(id, _) => id
    case _ => 0
  }

  /** An update through a held id touches only the slot that still carries that id: after the slot
      was pruned and reused by another job, the update changes nothing at all. */
  lemma HandleTouchesOnlyItsJob(st: State, step: Step)
    requires TableOk(st.t) && Possible(st.t, step) && Handle(step) > 0
    ensures forall i | 0 <= i < |st.t.slots| ::
              Next(st, step).t.slots[i] != st.t.slots[i] ==> st.t.slots[i].id == Handle(step)
    ensures (forall i: nat :: !Carries(st.t, i, Handle(step))) ==> Next(st, step) == st
  {
    var id := Handle(step);
    if forall i: nat :: !Carries(st.t, i, id) {
      forall i | 0 <= i < |st.t.slots| ensures st.t.slots[i].id != id {
        assert !Carries(st.t, i, id);
      }
      if step.Undo? {
        assert Rollback(st.t, id).slots == st.t.slots;
      }
    }
  }

  // ----- Joining threads -----

  /** What is known of the claims: a claimed job is in the table no more, and no job is claimed
      twice. tids says which thread was created for which job. */
  ghost predicate ClaimsOk(st: State, tids: int -> int) {
    && (forall k | 0 <= k < |st.claims| :: 0 < st.claims[k].0 <= st.t.count && st.claims[k].1 == tids(st.claims[k].0))
    && (forall k, i | 0 <= k < |st.claims| && 0 <= i < |st.t.slots| ::
          st.t.slots[i].kind != Free ==> st.t.slots[i].id != st.claims[k].0)
    && (forall k, l | 0 <= k < l < |st.claims| :: st.claims[k].0 != st.claims[l].0)
    && (forall i | 0 <= i < |st.t.slots| :: st.t.slots[i].tid == 0 || st.t.slots[i].tid == tids(st.t.slots[i].id))
  }

  ghost predicate ClaimOf(s: seq<Slot>, i: int, c: (int, int)) {
    0 <= i < |s| && Claims(s[i]) && c == (s[i].id, s[i].tid)
  }

  lemma {:induction false} ClaimedAre(s: seq<Slot>)
    ensures forall c | c in Claimed(s) :: exists i :: ClaimOf(s, i, c)
    decreases |s|
  {
    if s != [] {
      var n := |s| - 1;
      ClaimedAre(s[..n]);
      forall c | c in Claimed(s)
        ensures exists i :: ClaimOf(s, i, c)
      {
        if c in Claimed(s[..n]) {
          var i :| ClaimOf(s[..n], i, c);
          assert ClaimOf(s, i, c);
        } else {
          assert ClaimOf(s, n, c);
        }
      }
    }
  }

  lemma {:induction false} ClaimedDistinct(s: seq<Slot>)
    requires forall i, j | 0 <= i < j < |s| && s[i].id != 0 :: s[i].id != s[j].id
    requires forall i | 0 <= i < |s| && Claims(s[i]) :: s[i].id != 0
    ensures forall k, l | 0 <= k < l < |Claimed(s)| :: Claimed(s)[k].0 != Claimed(s)[l].0
    decreases |s|
  {
    if s != [] {
      var n := |s| - 1;
      ClaimedDistinct(s[..n]);
      ClaimedAre(s[..n]);
      forall k, l | 0 <= k < l < |Claimed(s)| ensures Claimed(s)[k].0 != Claimed(s)[l].0 {
        if l == |Claimed(s[..n])| {
          assert Claimed(s)[k] == Claimed(s[..n])[k] && Claimed(s[..n])[k] in Claimed(s[..n]);
          var i :| ClaimOf(s[..n], i, Claimed(s[..n])[k]);
          assert s[i].id != s[n].id;
        }
      }
    }
  }

  // What a step other than a prune makes of the slots: no freed job comes back.
  lemma OtherStepsKeepSlots(st: State, step: Step, tids: int -> int, i: nat)
    requires TableOk(st.t) && Possible(st.t, step) && !step.PruneAll? && i < |st.t.slots|
    requires step.FillTid? ==> step.tid == tids(step.id)
    ensures |Next(st, step).t.slots| == |st.t.slots|
    ensures var s, s' := st.t.slots[i], Next(st, step).t.slots[i];
            && (s'.kind != Free ==> (s'.id == s.id && s.kind != Free) || s'.id > st.t.count)
            && ((s'.tid == s.tid && s'.id == s.id) || s'.tid == 0 || s'.tid == tids(s'.id))
  {
    hide TableOk;
    if step.Undo? {
      assert Next(st, step).t.slots[i] == st.t.slots[i] || Next(st, step).t.slots[i] == st.t.slots[i].(kind := Free);
    }
  }

  // Only a step other than a prune: no claims are made.
  lemma OtherStepsKeepClaims(st: State, step: Step, tids: int -> int)
    requires TableOk(st.t) && ClaimsOk(st, tids) && Possible(st.t, step) && !step.PruneAll?
    requires step.FillTid? ==> step.tid == tids(step.id)
    ensures ClaimsOk(Next(st, step), tids)
  {
    StepKeeps(st, step);
    var st' := Next(st, step);
    assert st'.claims == st.claims;
    hide Next, TableOk, Possible;
    forall i | 0 <= i < |st.t.slots|
      ensures st'.t.slots[i].kind != Free ==>
        (st'.t.slots[i].id == st.t.slots[i].id && st.t.slots[i].kind != Free) || st'.t.slots[i].id > st.t.count
      ensures st'.t.slots[i].tid == 0 || st'.t.slots[i].tid == tids(st'.t.slots[i].id)
    {
      OtherStepsKeepSlots(st, step, tids, i);
    }
  }

  // What a prune adds: jobs that were live and done, and are live no more.
  lemma ClaimedByPrune(st: State, polls: seq<Poll>, tids: int -> int, c: (int, int))
    requires TableOk(st.t) && ClaimsOk(st, tids) && |polls| == |st.t.slots| && c in Claimed(st.t.slots)
    ensures 0 < c.0 <= st.t.count && c.1 == tids(c.0)
    ensures var t' := Prune(st.t, polls).0;
            forall i | 0 <= i < |t'.slots| :: t'.slots[i].kind != Free ==> t'.slots[i].id != c.0
    ensures forall k | 0 <= k < |st.claims| :: st.claims[k].0 != c.0
  {
    ClaimedAre(st.t.slots);
    var j :| ClaimOf(st.t.slots, j, c);
    var t' := Prune(st.t, polls).0;
    assert t'.slots[j].kind == Free;
    forall i | 0 <= i < |t'.slots| ensures t'.slots[i].kind != Free ==> t'.slots[i].id != c.0 {
      assert t'.slots[i].id == st.t.slots[i].id;
    }
  }

  lemma PruneKeepsClaims(st: State, polls: seq<Poll>, tids: int -> int)
    requires TableOk(st.t) && ClaimsOk(st, tids) && |polls| == |st.t.slots|
    ensures ClaimsOk(Next(st, PruneAll(polls)), tids)
  {
    var st' := Next(st, PruneAll(polls));
    var old', new', n := st.claims, Claimed(st.t.slots), |st.claims|;
    ClaimedDistinct(st.t.slots);
    forall c | c in new'
      ensures 0 < c.0 <= st.t.count && c.1 == tids(c.0)
      ensures forall i | 0 <= i < |st'.t.slots| :: st'.t.slots[i].kind != Free ==> st'.t.slots[i].id != c.0
      ensures forall k | 0 <= k < n :: old'[k].0 != c.0
    {
      ClaimedByPrune(st, polls, tids, c);
    }
    forall i | 0 <= i < |st.t.slots|
      ensures st'.t.slots[i].id == st.t.slots[i].id && st'.t.slots[i].tid == st.t.slots[i].tid
      ensures st'.t.slots[i].kind != Free ==> st.t.slots[i].kind != Free
    {
    }
    var cs := st'.claims;
    assert forall k | 0 <= k < |cs| :: cs[k] == if k < n then old'[k] else new'[k - n];
    assert forall k | n <= k < |cs| :: cs[k] in new';
    forall k, l | 0 <= k < l < |cs| ensures cs[k].0 != cs[l].0 {
      hide TableOk, ClaimsOk, Claimed, Pruned;
    }
  }

  // Every thread id that a run stores is that of the thread created for the job.
  ghost predicate StoresOwnTids(steps: seq<Step>, tids: int -> int) {
    forall k | 0 <= k < |steps| && steps[k].FillTid? :: steps[k].tid == tids(steps[k].id)
  }

  lemma {:induction false} ClaimsStayOk(st: State, steps: seq<Step>, last: State, tids: int -> int)
    requires TableOk(st.t) && ClaimsOk(st, tids) && Run(st, steps, last) && StoresOwnTids(steps, tids)
    ensures ClaimsOk(last, tids)
    decreases |steps|
  {
    if steps != [] {
      var st' := Next(st, steps[0]);
      StepKeeps(st, steps[0]);
      if steps[0].PruneAll? {
        PruneKeepsClaims(st, steps[0].polls, tids);
      } else {
        OtherStepsKeepClaims(st, steps[0], tids);
      }
      assert forall k | 0 <= k < |steps[1..]| :: steps[1..][k] == steps[k + 1];
      ClaimsStayOk(st', steps[1..], last, tids);
    }
  }

  /** Over a whole run no two prunes, and no prune twice, claim the thread of the same job; the same
      thread id is claimed twice exactly for two jobs that were given the same one. */
  lemma NoJobIsClaimedTwice(steps: seq<Step>, last: State, tids: int -> int, k: nat, l: nat)
    requires Run(State(Empty(), []), steps, last) && StoresOwnTids(steps, tids) && k < l < |last.claims|
    ensures last.claims[k].0 != last.claims[l].0
    ensures last.claims[k].1 == last.claims[l].1 <==> tids(last.claims[k].0) == tids(last.claims[l].0)
  {
    ClaimsStayOk(State(Empty(), []), steps, last, tids);
  }

  /** So no thread id is claimed twice, provided different jobs were given different ones. */
  lemma NoThreadIsClaimedTwice(steps: seq<Step>, last: State, tids: int -> int)
    requires Run(State(Empty(), []), steps, last) && StoresOwnTids(steps, tids)
    requires forall x: int, y: int | 0 < x <= last.t.count && 0 < y <= last.t.count && x != y :: tids(x) != tids(y)
    ensures forall k, l | 0 <= k < l < |last.claims| :: last.claims[k].1 != last.claims[l].1
  {
    ClaimsStayOk(State(Empty(), []), steps, last, tids);
    forall k, l | 0 <= k < l < |last.claims| ensures last.claims[k].1 != last.claims[l].1 {
      NoJobIsClaimedTwice(steps, last, tids, k, l);
      assert tids(last.claims[k].0) != tids(last.claims[l].0);
    }
  }

  /** A thread may also never be joined: when it ends and a prune frees its slot before its creator
      stored the thread id, the id is claimed by nobody and the store comes too late. */
  lemma EarlyEndIsNeverClaimed(command: string, result: int, tid: int, polls: seq<Poll>)
    requires |polls| == MAX_JOBS
    ensures var steps := [Reserve(command), ThreadEnds(1, result), PruneAll(polls), FillTid(1, tid)];
            exists last :: Run(State(Empty(), []), steps, last) && last.claims == []
                        && |last.t.slots| == MAX_JOBS
                        && forall i | 0 <= i < MAX_JOBS :: last.t.slots[i].kind == Free && last.t.slots[i].tid == 0
  {
    var s0 := State(Empty(), []);
    var steps := [Reserve(command), ThreadEnds(1, result), PruneAll(polls), FillTid(1, tid)];
    var s1 := Next(s0, steps[0]);
    assert s1.t.slots[0] == Slot(1, Thread, 0, 0, Running, 0, command);
    var s2 := Next(s1, steps[1]);
    assert s2.t.slots[0] == Slot(1, Thread, 0, 0, Done, result, command);
    var s3 := Next(s2, steps[2]);
    assert s3.t.slots[0].kind == Free;
    NothingClaimed(s2.t.slots);
    var s4 := Next(s3, steps[3]);
    assert s4 == s3;
    assert Run(s4, [], s4);
    assert steps[3..] == [steps[3]] && steps[2..][1..] == steps[3..] && steps[3..][1..] == [];
    assert Run(s3, steps[3..], s4);
    assert Run(s2, steps[2..], s4);
    assert steps[1..][1..] == steps[2..];
    assert Run(s1, steps[1..], s4);
    assert Run(s0, steps, s4);
  }

  lemma {:induction false} NothingClaimed(s: seq<Slot>)
    requires forall i | 0 <= i < |s| :: s[i].tid == 0
    ensures Claimed(s) == []
    decreases |s|
  {
    if s != [] {
      NothingClaimed(s[..|s| - 1]);
    }
  }
}
