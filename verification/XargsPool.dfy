/** The process pool of xargs and the loops that feed it. Which child ends next, whether one has
    ended when the pool only looks, how it ends and whether a fork succeeds is left open: the
    contracts hold for every such course of events. */
module XargsPool {
  import opened Replace

  datatype Ending = Exited(code: int) | Killed

  type Argv = seq<string>

  // ----- The verdict on a set of endings -----

  predicate Failed(e: Ending) {
    e != Exited(0)
  }

  /** 123 if any child exited with 255, else 1 if any failed or was killed, else 0. */
  ghost function Verdict(endings: multiset<Ending>): int {
    if Exited(255) in endings then 123
    else if exists e :: e in endings && Failed(e) then 1 else 0
  }

  // pool_record's update of the result.
  function Record(rc: int, e: Ending): int {
    match e
    case Killed => if rc == 0 then 1 else rc
    case Exited(code) => if code == 255 then 123 else if code != 0 && rc == 0 then 1 else rc
  }

  lemma RecordIsVerdict(endings: multiset<Ending>, e: Ending)
    ensures Record(Verdict(endings), e) == Verdict(endings + multiset{e})
  {
    var more := endings + multiset{e};
    assert forall d :: d in more <==> d in endings || d == e;
    assert e in more;
  }

  function RecordAll(endings: seq<Ending>): int {
    if endings == [] then 0 else Record(RecordAll(endings[..|endings| - 1]), endings[|endings| - 1])
  }

  lemma {:induction false} RecordAllIsVerdict(endings: seq<Ending>)
    ensures RecordAll(endings) == Verdict(multiset(endings))
  {
    if endings != [] {
      var n := |endings| - 1;
      RecordAllIsVerdict(endings[..n]);
      RecordIsVerdict(multiset(endings[..n]), endings[n]);
      assert endings == endings[..n] + [endings[n]];
    }
  }

  /** The order in which children end does not matter. */
  lemma OrderIsIrrelevant(one: seq<Ending>, other: seq<Ending>)
    requires multiset(one) == multiset(other)
    ensures RecordAll(one) == RecordAll(other)
  {
    RecordAllIsVerdict(one);
    RecordAllIsVerdict(other);
  }

  // ----- Slots -----

  function NonZero(pids: seq<int>): nat {
    if pids == [] then 0 else NonZero(pids[..|pids| - 1]) + (if pids[|pids| - 1] == 0 then 0 else 1)
  }

  lemma {:induction false} NonZeroAfter(pids: seq<int>, i: nat, pid: int)
    requires i < |pids|
    ensures NonZero(pids[i := pid]) == NonZero(pids) - (if pids[i] == 0 then 0 else 1) + (if pid == 0 then 0 else 1)
  {
    var n := |pids| - 1;
    if i < n {
      NonZeroAfter(pids[..n], i, pid);
      assert pids[i := pid][..n] == pids[..n][i := pid];
    } else {
      assert pids[i := pid][..n] == pids[..n];
    }
  }

  lemma {:induction false} NonZeroBounds(pids: seq<int>)
    ensures NonZero(pids) <= |pids|
    ensures NonZero(pids) == |pids| <==> forall i | 0 <= i < |pids| :: pids[i] != 0
    ensures NonZero(pids) == 0 <==> forall i | 0 <= i < |pids| :: pids[i] == 0
  {
    if pids != [] {
      var n := |pids| - 1;
      NonZeroBounds(pids[..n]);
      assert forall i | 0 <= i < n :: pids[..n][i] == pids[i];
    }
  }

  // A fork and exec: it was refused, or the command started and will end somehow.
  datatype Fork = Refused(argv: Argv) | Started(argv: Argv, ending: Ending)

  /** The children that nobody has waited for, with how each will have ended, and all forks so far. */
  class Kernel {
    var children: map<nat, Ending>
    ghost var forks: seq<Fork>

    constructor ()
      ensures children == map[] && forks == []
    {
      children := map[];
      forks := [];
    }

    // fork and exec; the process id may be any that is not in use.
    method Spawn(argv: Argv) returns (pid: int)
      modifies this
      ensures pid < 0 ==> children == old(children) && forks == old(forks) + [Refused(argv)]
      ensures pid >= 0 ==> pid > 0 && pid !in old(children)
      ensures pid >= 0 ==> pid in children && children == old(children)[pid := children[pid]]
                           && forks == old(forks) + [Started(argv, children[pid])]
    {
      pid := *;
      var e: Ending := *;
      if pid <= 0 || pid in children {
        pid := -1;
        forks := forks + [Refused(argv)];
      } else {
        children := children[pid := e];
        forks := forks + [Started(argv, e)];
      }
    }

    // waitpid(-1, &st, options): any child, or none yet when it does not block.
    method WaitAny(block: bool) returns (pid: int, st: Ending)
      modifies this`children
      ensures pid > 0 ==> pid in old(children) && st == old(children)[pid] && children == old(children) - {pid}
      ensures pid <= 0 ==> children == old(children)
      ensures block && old(children) != map[] && (forall p | p in old(children) :: p > 0) ==> pid > 0
    {
      st := Killed;
      pid := 0;
      var ready: bool := *;
      if children.Keys == {} {
        pid := -1;
      } else if block || ready {
        var child: nat :| child in children.Keys;
        if child > 0 {
          pid, st := child, children[child];
          children := children - {child};
        }
      }
    }
  }

  class Pool {
    const pids: array<int>
    const max: nat
    const kernel: Kernel
    var cur: nat
    var rc: int
    ghost var spawned: multiset<Ending>     // of all children added
    ghost var recorded: multiset<Ending>    // of all children waited for

    ghost predicate Valid()
      reads this, pids, kernel`children
    {
      && pids.Length == max > 0
      && cur == NonZero(pids[..]) <= max
      && Slots(pids[..], kernel.children)
      && rc == Verdict(recorded)
      && spawned == recorded + EndingsOf(kernel.children)
    }

    constructor (max: nat, kernel: Kernel)
      requires max > 0 && kernel.children == map[]
      ensures Valid() && fresh(pids) && this.kernel == kernel && this.max == max
      ensures cur == 0 && rc == 0 && spawned == multiset{} && recorded == multiset{}
    {
      pids := new int[max](_ => 0);
      this.max, this.kernel := max, kernel;
      cur, rc := 0, 0;
      spawned, recorded := multiset{}, multiset{};
      new;
      NonZeroBounds(pids[..]);
    }

    // The slot of a child that has ended becomes free.
    method Free(done: int)
      requires pids.Length == max > 0 && cur == NonZero(pids[..]) <= max
      requires done > 0 && done in pids[..] && forall i, j | 0 <= i < j < max && pids[i] != 0 :: pids[i] != pids[j]
      modifies this`cur, pids
      ensures cur == old(cur) - 1 == NonZero(pids[..])
      ensures forall i | 0 <= i < max :: pids[i] == if old(pids[i]) == done then 0 else old(pids[i])
    {
      for i := 0 to max
        invariant cur == old(cur) && pids[..] == old(pids[..]) && forall j | 0 <= j < i :: pids[j] != done
      {
        if pids[i] == done {
          NonZeroAfter(pids[..], i, 0);
          NonZeroBounds(pids[..]);
          ghost var was := pids[..];
          pids[i] := 0;
          assert pids[..] == was[i := 0];
          cur := cur - 1;
          return;
        }
      }
    }

    // What waitpid has reported is taken out of the pool and recorded.
    method Reap(done: int, st: Ending, ghost before: map<nat, Ending>)
      requires pids.Length == max > 0 && cur == NonZero(pids[..]) <= max && rc == Verdict(recorded)
      requires Slots(pids[..], before)
      requires done in before && st == before[done] && kernel.children == before - {done}
      requires spawned == recorded + EndingsOf(before)
      modifies this`cur, this`rc, this`recorded, pids
      ensures Valid() && cur == old(cur) - 1 && recorded == old(recorded) + multiset{st}
    {
      hide NonZero, Verdict, EndingsOf;
      Free(done);
      RecordIsVerdict(recorded, st);
      ChildEnds(before, done);
      rc := Record(rc, st);
      recorded := recorded + multiset{st};
    }

    // Takes what has ended already, then waits until a slot is free.
    method WaitSlot()
      requires Valid()
      modifies this`cur, this`rc, this`recorded, pids, kernel`children
      ensures Valid() && cur < max && spawned == old(spawned) && cur <= old(cur) && old(recorded) <= recorded
    {
      hide NonZero, Verdict, EndingsOf, Slots;
      TakeEnded();
      while cur >= max
        invariant Valid() && spawned == old(spawned) && cur <= old(cur) && old(recorded) <= recorded
        decreases cur
      {
        WaitOne();
      }
    }

    method TakeEnded()
      requires Valid()
      modifies this`cur, this`rc, this`recorded, pids, kernel`children
      ensures Valid() && spawned == old(spawned) && cur <= old(cur) && old(recorded) <= recorded
    {
      hide NonZero, Verdict, EndingsOf, Slots;
      ghost var before := kernel.children;
      var done, st := kernel.WaitAny(false);
      while done > 0
        invariant done <= 0 ==> Valid() && kernel.children == before
        invariant done > 0 ==> Waited(done, st, before)
        invariant spawned == old(spawned) && cur <= old(cur) && old(recorded) <= recorded
        decreases |before|
      {
        Reap(done, st, before);
        FewerChildren(before, done);
        before := kernel.children;
        done, st := kernel.WaitAny(false);
      }
    }

    // Blocks until some child ends.
    method WaitOne()
      requires Valid() && cur > 0
      modifies this`cur, this`rc, this`recorded, pids, kernel`children
      ensures Valid() && spawned == old(spawned) && cur == old(cur) - 1 && old(recorded) <= recorded
    {
      hide NonZero, Verdict, EndingsOf, Slots;
      ghost var before := kernel.children;
      SomeoneRuns();
      var done, st := kernel.WaitAny(true);
      Reap(done, st, before);
    }

    // A child has been waited for and has still to be taken out.
    ghost predicate Waited(done: int, st: Ending, before: map<nat, Ending>)
      reads this, pids, kernel`children
    {
      && pids.Length == max > 0 && cur == NonZero(pids[..]) <= max && rc == Verdict(recorded)
      && Slots(pids[..], before) && done in before && st == before[done] && kernel.children == before - {done}
      && spawned == recorded + EndingsOf(before)
    }

    lemma SomeoneRuns()
      requires Valid() && cur > 0
      ensures kernel.children != map[] && forall p | p in kernel.children :: p > 0
    {
      NonZeroBounds(pids[..]);
    }

    // pool_add of a new child, for which there is a slot.
    method Add(pid: int, ghost ending: Ending, ghost before: map<nat, Ending>)
      requires pids.Length == max > 0 && cur == NonZero(pids[..]) < max && rc == Verdict(recorded)
      requires Slots(pids[..], before) && pid > 0 && pid !in before && kernel.children == before[pid := ending]
      requires spawned == recorded + EndingsOf(before)
      modifies this`cur, this`spawned, pids
      ensures Valid() && cur == old(cur) + 1 && spawned == old(spawned) + multiset{ending}
    {
      hide Verdict, EndingsOf;
      NonZeroBounds(pids[..]);
      ChildStarts(before, pid, ending);
      for i := 0 to max
        invariant cur == old(cur) && spawned == old(spawned) && pids[..] == old(pids[..])
        invariant forall j | 0 <= j < i :: pids[j] != 0
      {
        if pids[i] == 0 {
          ghost var was := pids[..];
          NonZeroAfter(was, i, pid);
          SlotTaken(was, before, i, pid, ending);
          pids[i] := pid;
          assert pids[..] == was[i := pid];
          cur := cur + 1;
          spawned := spawned + multiset{ending};
          return;
        }
      }
    }

    // Waits for everything that still runs.
    method Drain() returns (result: int)
      requires Valid()
      modifies this`cur, this`rc, this`recorded, pids, kernel`children
      ensures Valid() && cur == 0 && kernel.children == map[] && spawned == old(spawned) == recorded
      ensures result == rc == Verdict(spawned)
    {
      hide NonZero, Verdict, EndingsOf, Slots;
      while cur > 0
        invariant Valid() && spawned == old(spawned)
        decreases cur
      {
        WaitOne();
      }
      NobodyRuns();
      result := rc;
    }

    lemma NobodyRuns()
      requires Valid() && cur == 0
      ensures kernel.children == map[] && spawned == recorded
    {
      NonZeroBounds(pids[..]);
      assert forall p :: p !in kernel.children;
    }
  }

  lemma FewerChildren(children: map<nat, Ending>, p: int)
    requires p in children
    ensures |children - {p}| < |children|
  {
    assert (children - {p}).Keys == children.Keys - {p};
  }

  lemma SlotTaken(pids: seq<int>, children: map<nat, Ending>, i: nat, pid: int, ending: Ending)
    requires Slots(pids, children) && i < |pids| && pids[i] == 0 && pid > 0 && pid !in children
    ensures Slots(pids[i := pid], children[pid := ending])
  {
    var pids' := pids[i := pid];
    forall p | p in children ensures exists j :: 0 <= j < |pids'| && pids'[j] == p {
      var j :| 0 <= j < |pids| && pids[j] == p;
      assert pids'[j] == p;
    }
    assert pids'[i] == pid;
  }

  // The nonzero slots are the running children, each in one slot.
  ghost predicate Slots(pids: seq<int>, children: map<nat, Ending>) {
    && (forall i | 0 <= i < |pids| && pids[i] != 0 :: pids[i] in children)
    && (forall p | p in children :: p > 0 && exists i :: 0 <= i < |pids| && pids[i] == p)
    && (forall i, j | 0 <= i < j < |pids| && pids[i] != 0 :: pids[i] != pids[j])
  }

  // Counted with multiplicity.
  ghost function EndingsOf(children: map<nat, Ending>): multiset<Ending> {
    Endings(children, children.Keys)
  }

  ghost function Endings(children: map<nat, Ending>, keys: set<nat>): multiset<Ending>
    requires keys <= children.Keys
    decreases |keys|
  {
    if keys == {} then multiset{} else var p :| p in keys; multiset{children[p]} + Endings(children, keys - {p})
  }

  lemma {:induction false} EndingsWithoutOne(children: map<nat, Ending>, keys: set<nat>, p: int)
    requires keys <= children.Keys && p in keys
    ensures Endings(children, keys) == multiset{children[p]} + Endings(children, keys - {p})
    decreases |keys|
  {
    var q :| q in keys && Endings(children, keys) == multiset{children[q]} + Endings(children, keys - {q});
    if q != p {
      EndingsWithoutOne(children, keys - {q}, p);
      EndingsWithoutOne(children, keys - {p}, q);
      assert keys - {q} - {p} == keys - {p} - {q};
    }
  }

  lemma {:induction false} SameEndings(children: map<nat, Ending>, others: map<nat, Ending>, keys: set<nat>)
    requires keys <= children.Keys && keys <= others.Keys && forall p | p in keys :: children[p] == others[p]
    ensures Endings(children, keys) == Endings(others, keys)
    decreases |keys|
  {
    if keys != {} {
      var p :| p in keys;
      SameEndings(children, others, keys - {p});
      EndingsWithoutOne(children, keys, p);
      EndingsWithoutOne(others, keys, p);
    }
  }

  lemma ChildEnds(children: map<nat, Ending>, p: int)
    requires p in children
    ensures EndingsOf(children) == multiset{children[p]} + EndingsOf(children - {p})
  {
    EndingsWithoutOne(children, children.Keys, p);
    assert (children - {p}).Keys == children.Keys - {p};
    SameEndings(children, children - {p}, children.Keys - {p});
  }

  lemma ChildStarts(children: map<nat, Ending>, p: nat, e: Ending)
    requires p !in children
    ensures EndingsOf(children[p := e]) == EndingsOf(children) + multiset{e}
  {
    ChildEnds(children[p := e], p);
    assert children[p := e] - {p} == children;
  }

  // ----- Batches -----

  /** The items in order in groups of n, the last one possibly smaller. */
  function Batches<T>(items: seq<T>, n: nat): (r: seq<seq<T>>)
    requires n > 0
    decreases |items|
  {
    if items == [] then [] else if |items| <= n then [items] else [items[..n]] + Batches(items[n..], n)
  }

  function Concat<T>(groups: seq<seq<T>>): seq<T> {
    if groups == [] then [] else groups[0] + Concat(groups[1..])
  }

  /** Batches are nonempty and at most n long, all but the last exactly n, and together the items. */
  lemma {:induction false} BatchesPartition<T>(items: seq<T>, n: nat)
    requires n > 0
    ensures var r := Batches(items, n);
            Concat(r) == items && forall i | 0 <= i < |r| :: 0 < |r[i]| <= n && (i < |r| - 1 ==> |r[i]| == n)
    decreases |items|
  {
    if |items| > n {
      var rest := Batches(items[n..], n);
      BatchesPartition(items[n..], n);
      assert Batches(items, n) == [items[..n]] + rest;
      hide Batches;
      ConcatOne(items[..n], rest);
      assert items == items[..n] + items[n..];
      assert forall i | 0 < i < |rest| + 1 :: ([items[..n]] + rest)[i] == rest[i - 1];
    } else if items != [] {
      assert Batches(items, n) == [items];
      hide Batches;
      ConcatOne(items, []);
      assert [items] + [] == [items] && Concat<T>([]) == [];
    }
  }

  lemma ConcatOne<T>(group: seq<T>, rest: seq<seq<T>>)
    ensures Concat([group] + rest) == group + Concat(rest)
  {
    assert ([group] + rest)[1..] == rest;
  }

  // The rest of the batches from item i on.
  lemma BatchesFrom<T>(items: seq<T>, n: nat, i: nat)
    requires n > 0 && i < |items|
    ensures var last := if i + n <= |items| then i + n else |items|;
            Batches(items[i..], n) == [items[i..last]] + Batches(items[last..], n)
  {
    if i + n < |items| {
      assert items[i..][..n] == items[i..i + n] && items[i..][n..] == items[i + n..];
    } else {
      assert items[i..] == items[i..|items|] && items[|items|..] == [];
    }
  }

  // The next batch of the plan.
  lemma OneBatchMore(base: Argv, items: seq<string>, n: nat, taken: seq<seq<string>>, i: nat)
    requires n > 0 && i < |items| && Batches(items, n) == taken + Batches(items[i..], n)
    ensures var last := if i + n <= |items| then i + n else |items|;
            && Batches(items, n) == (taken + [items[i..last]]) + Batches(items[last..], n)
            && |taken| < |BatchPlan(base, items, n)| && BatchPlan(base, items, n)[|taken|] == base + items[i..last]
  {
    BatchesFrom(items, n, i);
    hide Batches;
  }

  // spawn_replace: the item in place of each occurrence of the placeholder.
  function Substituted(base: Argv, rep: string, item: string): (r: Argv)
    ensures |r| == |base|
  {
    seq(|base|, i requires 0 <= i < |base| => if rep == "" then base[i] else Replaced(base[i], rep, item))
  }

  // What the two modes are to run.
  function BatchPlan(base: Argv, items: seq<string>, n: nat): seq<Argv>
    requires n > 0
  {
    WithBase(base, Batches(items, n))
  }

  function WithBase(base: Argv, groups: seq<seq<string>>): (r: seq<Argv>)
    ensures |r| == |groups|
  {
    seq(|groups|, i requires 0 <= i < |groups| => base + groups[i])
  }

  function ReplacePlan(base: Argv, items: seq<string>, rep: string): seq<Argv> {
    seq(|items|, i requires 0 <= i < |items| => Substituted(base, rep, items[i]))
  }

  /** In replace mode each argument is its pieces between the placeholders, in none of which one begins,
      with the item put between them. */
  lemma SubstitutedMeans(base: Argv, rep: string, item: string, i: nat)
    requires i < |base|
    ensures rep == "" ==> Substituted(base, rep, item)[i] == base[i]
    ensures rep != "" ==>
              var pieces := Pieces(base[i], rep);
              && base[i] == Join(pieces, rep) && Clear(pieces, rep)
              && Substituted(base, rep, item)[i] == Join(pieces, item)
  {
    if rep != "" {
      ReplacedMeans(base[i], rep, item);
    }
  }

  /** In batch mode command k is the base followed by its n items in order, or by the rest of them. */
  lemma BatchCommandIs(base: Argv, items: seq<string>, n: nat, k: nat)
    requires n > 0 && k * n < |items|
    ensures k < |BatchPlan(base, items, n)|
    ensures BatchPlan(base, items, n)[k] == base + items[k * n..if k * n + n < |items| then k * n + n else |items|]
  {
    hide BatchPlan;
    BatchAt(base, items, n, k, k * n);
  }

  lemma {:induction false} BatchAt(base: Argv, items: seq<string>, n: nat, k: nat, i: nat)
    requires n > 0 && i == k * n && i < |items|
    ensures k < |BatchPlan(base, items, n)|
    ensures BatchPlan(base, items, n)[k] == base + items[i..if i + n < |items| then i + n else |items|]
    decreases k
  {
    hide *;
    if k == 0 {
      FirstBatch(base, items, n);
    } else {
      OneLess(k, n);
      BatchAt(base, items[n..], n, k - 1, i - n);
      LaterBatch(base, items, n, k);
      SameItems(items, n, i);
    }
  }

  lemma OneLess(k: nat, n: nat)
    requires k > 0
    ensures (k - 1) * n == k * n - n && k * n >= n
  {
  }

  lemma FirstBatch(base: Argv, items: seq<string>, n: nat)
    requires n > 0 && items != []
    ensures |BatchPlan(base, items, n)| > 0
    ensures BatchPlan(base, items, n)[0] == base + items[0..if n < |items| then n else |items|]
  {
    assert items[0..|items|] == items;
  }

  lemma SameItems(items: seq<string>, n: nat, i: nat)
    requires n <= i < |items|
    ensures var rest := items[n..];
            rest[i - n..if i - n + n < |rest| then i - n + n else |rest|]
            == items[i..if i + n < |items| then i + n else |items|]
  {
  }

  lemma LaterBatch(base: Argv, items: seq<string>, n: nat, k: nat)
    requires 0 < n < |items| && 0 < k <= |BatchPlan(base, items[n..], n)|
    ensures |BatchPlan(base, items, n)| == 1 + |BatchPlan(base, items[n..], n)|
    ensures BatchPlan(base, items, n)[k] == BatchPlan(base, items[n..], n)[k - 1]
  {
  }

  // ----- Running a plan -----

  function Argvs(forks: seq<Fork>): (r: seq<Argv>)
    ensures |r| == |forks|
  {
    seq(|forks|, i requires 0 <= i < |forks| => forks[i].argv)
  }

  ghost function EndingsIn(forks: seq<Fork>): multiset<Ending> {
    if forks == [] then multiset{}
    else EndingsIn(forks[..|forks| - 1])
         + (if forks[|forks| - 1].Started? then multiset{forks[|forks| - 1].ending} else multiset{})
  }

  lemma OneForkMore(forks: seq<Fork>, f: Fork)
    ensures EndingsIn(forks + [f]) == EndingsIn(forks) + (if f.Started? then multiset{f.ending} else multiset{})
    ensures Argvs(forks + [f]) == Argvs(forks) + [f.argv]
  {
    assert (forks + [f])[..|forks|] == forks;
  }

  ghost predicate NoneRefused(forks: seq<Fork>) {
    forall f | f in forks :: f.Started?
  }

  ghost predicate OnlyLastRefused(forks: seq<Fork>) {
    NoneRefused(forks) || NoneRefused(forks[..|forks| - 1])
  }

  /** The forks are the plan's first commands in order, and none comes after one that was refused. The
      result is 125 exactly if one was, and else the verdict on how all the children ended; and all of
      the plan was started, unless a fork was refused or a child exited with 255. */
  ghost predicate Followed(plan: seq<Argv>, forks: seq<Fork>, rc: int) {
    && Argvs(forks) <= plan
    && OnlyLastRefused(forks)
    && (rc == 125 <==> !NoneRefused(forks))
    && (rc != 125 ==> rc == Verdict(EndingsIn(forks)))
    && (rc == 125 || Argvs(forks) == plan || Exited(255) in EndingsIn(forks))
  }

  // The k-th command of the plan, wherever it was started, ended as the k-th ending says.
  ghost predicate EndAs(forks: seq<Fork>, endings: seq<Ending>) {
    |forks| <= |endings| && forall k | 0 <= k < |forks| && forks[k].Started? :: forks[k].ending == endings[k]
  }

  lemma {:induction false} EndingsAre(forks: seq<Fork>, endings: seq<Ending>)
    requires EndAs(forks, endings) && NoneRefused(forks)
    ensures EndingsIn(forks) == multiset(endings[..|forks|])
  {
    if forks != [] {
      var n := |forks| - 1;
      assert forks[n] in forks && forall f | f in forks[..n] :: f in forks;
      EndingsAre(forks[..n], endings);
      assert endings[..n + 1] == endings[..n] + [endings[n]];
    }
  }

  /** The exit status depends only on how each command of the plan ends, not on how many run at a time,
      in what order they end or how many were started at all: it is the verdict on the whole plan, even
      when a 255 stopped it early, unless a fork was refused. */
  lemma StatusIsOfWholePlan(plan: seq<Argv>, forks: seq<Fork>, rc: int, endings: seq<Ending>)
    requires Followed(plan, forks, rc) && |endings| == |plan| && EndAs(forks, endings)
    ensures rc == if NoneRefused(forks) then Verdict(multiset(endings)) else 125
  {
    if NoneRefused(forks) {
      EndingsAre(forks, endings);
      hide EndingsIn, EndAs;
      assert endings == endings[..|forks|] + endings[|forks|..];
      if Argvs(forks) == plan {
        assert endings[..|forks|] == endings;
      }
    }
  }

  // One turn of a feeding loop: it goes on exactly if its fork worked.
  method Feed(pool: Pool, argv: Argv) returns (ok: bool)
    requires pool.Valid()
    modifies pool`cur, pool`rc, pool`recorded, pool`spawned, pool.pids, pool.kernel
    ensures pool.Valid()
    ensures |pool.kernel.forks| == |old(pool.kernel.forks)| + 1
    ensures var f := pool.kernel.forks[|old(pool.kernel.forks)|];
            && f.argv == argv && (ok <==> f.Started?) && pool.kernel.forks == old(pool.kernel.forks) + [f]
            && pool.spawned == old(pool.spawned) + (if f.Started? then multiset{f.ending} else multiset{})
  {
    pool.WaitSlot();
    hide NonZero, Verdict, EndingsOf, Slots;
    ghost var before := pool.kernel.children;
    var pid := pool.kernel.Spawn(argv);
    ok := pid >= 0;
    if ok {
      pool.Add(pid, pool.kernel.children[pid], before);
    }
  }

  // The forks so far follow the plan, and the pool has had the children in its care.
  ghost predicate Fed(pool: Pool, plan: seq<Argv>)
    reads pool, pool.pids, pool.kernel
  {
    && pool.Valid() && pool.spawned == EndingsIn(pool.kernel.forks) && Argvs(pool.kernel.forks) <= plan
    && OnlyLastRefused(pool.kernel.forks)
  }

  // The next command of a plan.
  method Turn(pool: Pool, ghost plan: seq<Argv>, argv: Argv) returns (ok: bool)
    requires Fed(pool, plan) && NoneRefused(pool.kernel.forks)
    requires |pool.kernel.forks| < |plan| && argv == plan[|pool.kernel.forks|]
    modifies pool`cur, pool`rc, pool`recorded, pool`spawned, pool.pids, pool.kernel
    ensures Fed(pool, plan) && (ok <==> NoneRefused(pool.kernel.forks))
    ensures |pool.kernel.forks| == |old(pool.kernel.forks)| + 1
  {
    hide NonZero, Verdict, EndingsOf, Slots, Argvs, EndingsIn, NoneRefused;
    ghost var forks := pool.kernel.forks;
    ok := Feed(pool, argv);
    OneTurnMore(forks, pool.kernel.forks[|forks|], plan);
  }

  // Once a child has exited with 255, that is the verdict.
  lemma Final(endings: multiset<Ending>, more: multiset<Ending>)
    requires Verdict(endings) == 123 && endings <= more
    ensures Exited(255) in more
  {
    assert Exited(255) in endings;
    assert more[Exited(255)] >= endings[Exited(255)];
  }

  // The end of both loops, which left early if a fork was refused.
  method Finish(pool: Pool, ok: bool, ghost plan: seq<Argv>) returns (rc: int)
    requires Fed(pool, plan) && (ok <==> NoneRefused(pool.kernel.forks))
    requires |pool.kernel.forks| == |plan| || !ok || pool.rc == 123
    modifies pool`cur, pool`rc, pool`recorded, pool.pids, pool.kernel`children
    ensures pool.kernel.children == map[] && Followed(plan, pool.kernel.forks, rc)
  {
    hide NonZero, EndingsOf, Slots, EndingsIn, Argvs, NoneRefused, OnlyLastRefused, Verdict;
    ghost var recorded, spawned := pool.recorded, pool.spawned;
    var drain := pool.Drain();
    rc := if ok then drain else 125;
    if |pool.kernel.forks| == |plan| {
      AllStarted(pool.kernel.forks, plan);
    }
    if Verdict(recorded) == 123 {
      Final(recorded, spawned);
    }
    VerdictIs(spawned);
  }

  lemma VerdictIs(endings: multiset<Ending>)
    ensures Verdict(endings) in {0, 1, 123}
  {
  }

  // One fork more, whether it worked or not.
  lemma OneTurnMore(forks: seq<Fork>, f: Fork, plan: seq<Argv>)
    requires NoneRefused(forks) && Argvs(forks) <= plan && |forks| < |plan| && f.argv == plan[|forks|]
    ensures Argvs(forks + [f]) <= plan && (f.Started? <==> NoneRefused(forks + [f]))
    ensures OnlyLastRefused(forks + [f])
    ensures EndingsIn(forks + [f]) == EndingsIn(forks) + (if f.Started? then multiset{f.ending} else multiset{})
  {
    hide EndingsIn, NoneRefused, OnlyLastRefused, Argvs;
    OneForkMore(forks, f);
    OneJudgedMore(forks, f);
    PrefixMore(Argvs(forks), plan);
  }

  lemma PrefixMore(argvs: seq<Argv>, plan: seq<Argv>)
    requires argvs <= plan && |argvs| < |plan|
    ensures argvs + [plan[|argvs|]] <= plan
  {
    assert plan[..|argvs| + 1] == argvs + [plan[|argvs|]];
  }

  lemma OneJudgedMore(forks: seq<Fork>, f: Fork)
    requires NoneRefused(forks)
    ensures OnlyLastRefused(forks + [f]) && (f.Started? <==> NoneRefused(forks + [f]))
  {
    assert f in forks + [f];
    assert (forks + [f])[..|forks + [f]| - 1] == forks;
  }

  /** Batch mode. */
  method RunBatches(kernel: Kernel, base: Argv, items: seq<string>, npercmd: int, nprocs: int) returns (rc: int)
    requires items != [] && kernel.children == map[] && kernel.forks == []
    modifies kernel
    ensures kernel.children == map[]
    ensures Followed(BatchPlan(base, items, if npercmd > 0 then npercmd else |items|), kernel.forks, rc)
  {
    hide NonZero, Verdict, EndingsOf, Slots, Batches, Followed, WithBase, BatchPlan, Fed, NoneRefused;
    var batch: nat := if npercmd > 0 then npercmd else |items|;
    ghost var plan, taken: seq<seq<string>> := BatchPlan(base, items, batch), [];
    var pool := new Pool(if nprocs > 0 then nprocs else 1, kernel);
    NothingForked(pool, plan);
    var i, ok := 0, true;
    assert items[0..] == items;
    while i < |items| && pool.rc != 123
      invariant ok && Fed(pool, plan) && NoneRefused(kernel.forks) && pool.kernel == kernel && fresh(pool)
          && fresh(pool.pids)
      invariant |kernel.forks| == |taken|
      invariant Batches(items, batch) == taken + Batches(items[if i < |items| then i else |items|..], batch)
    {
      OneBatchMore(base, items, batch, taken, i);
      var this_n := if i + batch <= |items| then batch else |items| - i;
      ok := Turn(pool, plan, base + items[i..i + this_n]);
      taken := taken + [items[i..i + this_n]];
      if !ok {
        break;
      }
      i := i + batch;
    }
    if i >= |items| {
      AllTaken(base, items, batch, taken, i);
    }
    rc := Finish(pool, ok, plan);
  }

  lemma NothingForked(pool: Pool, plan: seq<Argv>)
    requires pool.Valid() && pool.kernel.forks == [] && pool.spawned == multiset{}
    ensures Fed(pool, plan) && NoneRefused(pool.kernel.forks)
  {
    assert Argvs([]) == [];
  }

  lemma AllStarted(forks: seq<Fork>, plan: seq<Argv>)
    requires Argvs(forks) <= plan && |forks| == |plan|
    ensures Argvs(forks) == plan
  {
  }

  lemma AllTaken(base: Argv, items: seq<string>, n: nat, taken: seq<seq<string>>, i: nat)
    requires n > 0 && i >= |items| && Batches(items, n) == taken + Batches(items[|items|..], n)
    ensures |taken| == |BatchPlan(base, items, n)|
  {
    NoBatches<string>(n);
    hide Batches;
    assert items[|items|..] == [];
  }

  lemma NoBatches<T>(n: nat)
    requires n > 0
    ensures Batches<T>([], n) == []
  {
  }

  /** Replace mode: one command an item. */
  method RunReplacing(kernel: Kernel, base: Argv, items: seq<string>, rep: string, nprocs: int) returns (rc: int)
    requires kernel.children == map[] && kernel.forks == []
    modifies kernel
    ensures kernel.children == map[] && Followed(ReplacePlan(base, items, rep), kernel.forks, rc)
  {
    hide NonZero, Verdict, EndingsOf, Slots, Followed, Substituted, Fed, NoneRefused;
    ghost var plan := ReplacePlan(base, items, rep);
    var pool := new Pool(if nprocs > 0 then nprocs else 1, kernel);
    NothingForked(pool, plan);
    var i, ok := 0, true;
    while i < |items| && pool.rc != 123
      invariant ok && Fed(pool, plan) && NoneRefused(kernel.forks) && pool.kernel == kernel && fresh(pool)
          && fresh(pool.pids)
      invariant i <= |items| && |kernel.forks| == i
    {
      var argv := SubstituteArgv(base, rep, items[i]);
      ok := Turn(pool, plan, argv);
      if !ok {
        break;
      }
      i := i + 1;
    }
    rc := Finish(pool, ok, plan);
  }

  method SubstituteArgv(base: Argv, rep: string, item: string) returns (argv: Argv)
    ensures argv == Substituted(base, rep, item)
  {
    argv := [];
    for i := 0 to |base|
      invariant argv == Substituted(base, rep, item)[..i]
    {
      var arg := ReplaceAll(base[i], rep, item);
      argv := argv + [arg[..arg.Length - 1]];
    }
  }
}
