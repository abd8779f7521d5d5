/** What every interleaving of run_pipeline keeps: who holds which pipe end, that readers see the
    end of their input, that nothing gets stuck, and that the shell's own table comes back. */
module PipelineRuns {
  import opened Pipeline

  // The pipe descriptors from the k-th on and the ends they refer to.
  function Tail(pipes: seq<Pipe>, k: nat): (r: Table)
    requires k <= 2 * |pipes|
    decreases 2 * |pipes| - k
  {
    if k == 2 * |pipes| then map[] else Tail(pipes, k + 1)[Fd(pipes, k) := EndAt(k)]
  }

  ghost predicate Fresh(c: Config, pipes: seq<Pipe>) {
    && (forall k | 0 <= k < 2 * |pipes| :: Fd(pipes, k) !in c.base)
    && (forall k, l | 0 <= k < l < 2 * |pipes| :: Fd(pipes, k) != Fd(pipes, l))
  }

  // The shell's table with a stage's standard input, and then its output, on its pipes.
  function InWired(c: Config, i: nat): Table {
    if 0 < i <= PipeCount(c) then c.base[0 := ReadEnd(i - 1)] else c.base
  }

  function Wired(c: Config, i: nat): Table {
    if i < PipeCount(c) then InWired(c, i)[1 := WriteEnd(i)] else InWired(c, i)
  }

  // The only pipe ends that stage i is for.
  predicate Own(i: nat, e: End) {
    match e
    case ReadEnd(p) => i == p + 1
    case WriteEnd(p) => i == p
    case Other(_) => true
  }

  ghost predicate ChildOk(c: Config, pipes: seq<Pipe>, i: nat, child: Child) {
    && (!child.Absent? ==> i !in c.empty && |pipes| == PipeCount(c))
    && match child
       case Absent => true
       case WiringIn(fds) => fds == c.base + Tail(pipes, 0)
       case WiringOut(fds) => fds == InWired(c, i) + Tail(pipes, 0)
       case Shutting(fds, k) => k <= 2 * |pipes| && fds == Wired(c, i) + Tail(pipes, k)
       case Running(fds) => forall fd | fd in fds :: Own(i, fds[fd])
       case Gone(_) => true
  }

  ghost predicate ParentOk(c: Config, s: State) {
    match s.phase
    case Piping => s.fds == c.base + Tail(s.pipes, 0) && |s.pipes| <= PipeCount(c)
    case Undoing(k) => k <= 2 * |s.pipes| <= 2 * PipeCount(c) && s.fds == c.base + Tail(s.pipes, k)
    case Forking(i) => i <= c.n && s.fds == c.base + Tail(s.pipes, 0) && |s.pipes| == PipeCount(c)
    case Closing(k) => k <= 2 * |s.pipes| == 2 * PipeCount(c) && s.fds == c.base + Tail(s.pipes, k)
    case Waiting(_, _) => s.fds == c.base
    case Returned(_) => s.fds == c.base
  }

  function LastStatus(s: State): int {
    if s.children == [] then 0 else Status(s.children[|s.children| - 1])
  }

  ghost predicate OrderOk(c: Config, s: State)
    requires |s.children| == c.n
  {
    match s.phase
    case Piping => forall i | 0 <= i < c.n :: s.children[i].Absent?
    case Undoing(_) => forall i | 0 <= i < c.n :: s.children[i].Absent?
    case Forking(next) => forall i | next <= i < c.n :: s.children[i].Absent?
    case Closing(_) => true
    case Waiting(next, last) =>
      && next <= c.n && (forall i | 0 <= i < next :: Done(s.children[i]))
      && (next == c.n ==> last == LastStatus(s))
    case Returned(status) =>
      || (status == 1 && forall i | 0 <= i < c.n :: s.children[i].Absent?)
      || (status == LastStatus(s) && forall i | 0 <= i < c.n :: Done(s.children[i]))
  }

  ghost predicate Inv(c: Config, s: State)
    requires |s.children| == c.n
  {
    && Fresh(c, s.pipes) && ParentOk(c, s) && OrderOk(c, s)
    && forall i | 0 <= i < c.n :: ChildOk(c, s.pipes, i, s.children[i])
  }

  ghost predicate Good(c: Config, s: State) {
    |s.children| == c.n && Inv(c, s)
  }

  // ----- Tables -----

  lemma {:induction false} TailKeys(pipes: seq<Pipe>, k: nat, fd: nat)
    requires k <= 2 * |pipes|
    ensures fd in Tail(pipes, k) ==>
              exists l :: k <= l < 2 * |pipes| && fd == Fd(pipes, l) && Tail(pipes, k)[fd] == EndAt(l)
    decreases 2 * |pipes| - k
  {
    if k < 2 * |pipes| {
      TailKeys(pipes, k + 1, fd);
    }
  }

  // Closing the k-th pipe descriptor leaves those after it.
  lemma CloseNext(c: Config, pipes: seq<Pipe>, k: nat, low: Table)
    requires Fresh(c, pipes) && k < 2 * |pipes| && low.Keys <= c.base.Keys
    ensures Close(low + Tail(pipes, k), Fd(pipes, k)) == low + Tail(pipes, k + 1)
  {
    TailKeys(pipes, k + 1, Fd(pipes, k));
  }

  // Each descriptor of the list still refers to its end.
  lemma {:induction false} TailAt(c: Config, pipes: seq<Pipe>, k: nat, l: nat)
    requires Fresh(c, pipes) && k <= l < 2 * |pipes|
    ensures Fd(pipes, l) in Tail(pipes, k) && Tail(pipes, k)[Fd(pipes, l)] == EndAt(l)
    decreases l - k
  {
    if k < l {
      TailAt(c, pipes, k + 1, l);
    }
  }

  // dup2 of a pipe descriptor onto one of the shell's own.
  lemma WireOne(c: Config, pipes: seq<Pipe>, low: Table, l: nat, to: nat)
    requires Fresh(c, pipes) && l < 2 * |pipes| && low.Keys <= c.base.Keys && to in c.base
    ensures Dup2(low + Tail(pipes, 0), Fd(pipes, l), to) == low[to := EndAt(l)] + Tail(pipes, 0)
  {
    TailAt(c, pipes, 0, l);
    TailKeys(pipes, 0, to);
  }

  lemma {:induction false} TailGrows(pipes: seq<Pipe>, p: Pipe, k: nat)
    requires k <= 2 * |pipes|
    ensures Tail(pipes + [p], k) == Tail(pipes + [p], 2 * |pipes|) + Tail(pipes, k)
    decreases 2 * |pipes| - k
  {
    var more := pipes + [p];
    if k < 2 * |pipes| {
      TailGrows(pipes, p, k + 1);
      assert more[k / 2] == pipes[k / 2];
    }
  }

  // A new pipe extends the list.
  lemma OnePipeMore(c: Config, pipes: seq<Pipe>, p: Pipe)
    requires Fresh(c, pipes) && p.rd != p.wr
    requires p.rd !in c.base + Tail(pipes, 0) && p.wr !in c.base + Tail(pipes, 0)
    ensures Fresh(c, pipes + [p])
    ensures (c.base + Tail(pipes, 0))[p.rd := ReadEnd(|pipes|)][p.wr := WriteEnd(|pipes|)]
        == c.base + Tail(pipes + [p], 0)
  {
    NewIsFresh(c, pipes, p);
    TailGrows(pipes, p, 0);
    LastPair(pipes, p);
    hide *;
    TwoMore(c.base, Tail(pipes, 0), p.rd, ReadEnd(|pipes|), p.wr, WriteEnd(|pipes|));
  }

  lemma TwoMore<V>(base: map<nat, V>, tail: map<nat, V>, k: nat, v: V, l: nat, w: V)
    requires k != l && k !in base + tail && l !in base + tail
    ensures (base + tail)[k := v][l := w] == base + (map[l := w, k := v] + tail)
  {
  }

  lemma LastPair(pipes: seq<Pipe>, p: Pipe)
    requires p.rd != p.wr
    ensures Tail(pipes + [p], 2 * |pipes|) == map[p.wr := WriteEnd(|pipes|), p.rd := ReadEnd(|pipes|)]
  {
    hide Tail;
    var more, n := pipes + [p], 2 * |pipes|;
    assert Fd(more, n) == p.rd && Fd(more, n + 1) == p.wr;
    assert EndAt(n) == ReadEnd(|pipes|) && EndAt(n + 1) == WriteEnd(|pipes|);
    TailOpens(more, n);
    TailOpens(more, n + 1);
    TailOpens(more, n + 2);
  }

  // One level of the definition.
  lemma TailOpens(pipes: seq<Pipe>, k: nat)
    requires k <= 2 * |pipes|
    ensures Tail(pipes, k) == if k == 2 * |pipes| then map[] else Tail(pipes, k + 1)[Fd(pipes, k) := EndAt(k)]
  {
  }

  lemma NewIsFresh(c: Config, pipes: seq<Pipe>, p: Pipe)
    requires Fresh(c, pipes) && p.rd != p.wr
    requires p.rd !in c.base + Tail(pipes, 0) && p.wr !in c.base + Tail(pipes, 0)
    ensures Fresh(c, pipes + [p])
  {
    var more, n := pipes + [p], 2 * |pipes|;
    assert Fd(more, n) == p.rd && Fd(more, n + 1) == p.wr;
    forall k | 0 <= k < n ensures Fd(more, k) == Fd(pipes, k) && Fd(pipes, k) != p.rd && Fd(pipes, k) != p.wr {
      TailAt(c, pipes, 0, k);
    }
    hide Fd;
    forall k, l | 0 <= k < l < n + 2 ensures Fd(more, k) != Fd(more, l) {
    }
  }

  // ----- One step -----

  lemma PipeStepKeeps(c: Config, s: State, e: Event)
    requires Proper(c) && Good(c, s) && Enabled(c, s, e) && (e.MakePipe? || e.UndoStep? || e.CloseStep?)
    ensures Good(c, Apply(c, s, e))
  {
    hide Tail, Fd;
    if e.MakePipe? {
      OnePipeMore(c, s.pipes, Pipe(e.rd, e.wr));
    } else {
      var k := s.phase.closed;
      if k < 2 * |s.pipes| {
        CloseNext(c, s.pipes, k, c.base);
      } else {
        NothingLeft(c, s.pipes, c.base);
      }
    }
  }

  lemma NothingLeft(c: Config, pipes: seq<Pipe>, low: Table)
    ensures low + Tail(pipes, 2 * |pipes|) == low
  {
  }

  // A wired stage keeps exactly the read end of the pipe before it and the write end of the one after.
  lemma WiredIsOwn(c: Config, i: nat)
    requires Proper(c)
    ensures forall fd | fd in Wired(c, i) :: Own(i, Wired(c, i)[fd])
  {
  }

  lemma SetupKeeps(c: Config, pipes: seq<Pipe>, i: nat, child: Child)
    requires Proper(c) && Fresh(c, pipes) && ChildOk(c, pipes, i, child) && InSetup(child) && i < c.n
    ensures ChildOk(c, pipes, i, SetUp(c, pipes, i, child))
  {
    hide Tail;
    match child
    case WiringIn(fds) =>
      if 0 < i <= |pipes| {
        WireOne(c, pipes, c.base, 2 * (i - 1), 0);
      }
    case WiringOut(fds) =>
      if i < |pipes| {
        WireOne(c, pipes, InWired(c, i), 2 * i + 1, 1);
      }
    case Shutting(fds, k) =>
      if k < 2 * |pipes| {
        CloseNext(c, pipes, k, Wired(c, i));
      } else {
        NothingLeft(c, pipes, Wired(c, i));
        WiredIsOwn(c, i);
      }
  }

  lemma ChildStepKeeps(c: Config, s: State, e: Event)
    requires Proper(c) && Good(c, s) && Enabled(c, s, e) && (e.Setup? || e.Use? || e.Exit?)
    ensures Good(c, Apply(c, s, e))
  {
    hide Tail, Fd, Fresh, SetUp, InWired, Wired;
    var i := e.stage;
    var s' := Apply(c, s, e);
    if e.Setup? {
      SetupKeeps(c, s.pipes, i, s.children[i]);
    }
    assert !s.children[i].Absent? && !Done(s.children[i]);
    assert forall j | 0 <= j < c.n :: ChildOk(c, s.pipes, j, s'.children[j]);
    assert forall j | 0 <= j < c.n && j != i :: s'.children[j] == s.children[j];
    hide ChildOk;
  }

  lemma ShellStepKeeps(c: Config, s: State, e: Event)
    requires Proper(c) && Good(c, s) && Enabled(c, s, e)
    requires e.PipeFails? || e.StartForking? || e.Skip? || e.Fork? || e.ForkFails? || e.StartClosing? || e.WaitStep?
    ensures Good(c, Apply(c, s, e))
  {
    hide Tail, Fd, Fresh, InWired, Wired;
  }

  lemma StepKeeps(c: Config, s: State, e: Event)
    requires Proper(c) && Good(c, s) && Enabled(c, s, e)
    ensures Good(c, Apply(c, s, e))
  {
    hide Good, Enabled, Apply;
    if e.MakePipe? || e.UndoStep? || e.CloseStep? {
      PipeStepKeeps(c, s, e);
    } else if e.Setup? || e.Use? || e.Exit? {
      ChildStepKeeps(c, s, e);
    } else {
      ShellStepKeeps(c, s, e);
    }
  }

  lemma {:induction false} RunKeeps(c: Config, s: State, events: seq<Event>, last: State)
    requires Proper(c) && Good(c, s) && Run(c, s, events, last)
    ensures Good(c, last)
    decreases |events|
  {
    hide Good, Enabled, Apply;
    if events != [] {
      StepKeeps(c, s, events[0]);
      RunKeeps(c, Apply(c, s, events[0]), events[1..], last);
    }
  }

  lemma ReachableIsGood(c: Config, s: State)
    requires Proper(c) && Reachable(c, s)
    ensures Good(c, s)
  {
    var events :| Run(c, Start(c), events, s);
    assert c.base + Tail([], 0) == c.base;
    assert Good(c, Start(c));
    RunKeeps(c, Start(c), events, s);
  }

  // ----- Who holds which end -----

  ghost predicate ShellHasClosed(s: State) {
    s.phase.Waiting? || s.phase.Returned?
  }

  // Every child that was forked is past its close loop.
  ghost predicate AllWired(s: State) {
    forall i | 0 <= i < |s.children| :: !InSetup(s.children[i])
  }

  /** Once the shell's close loop and the children's are done, a pipe's write end is open only in
      the stage before it and its read end only in the stage after it. */
  lemma OnlyOwnersHold(c: Config, s: State, i: nat, e: End)
    requires Proper(c) && Reachable(c, s) && ShellHasClosed(s) && AllWired(s) && !e.Other?
    ensures e !in s.fds.Values
    ensures i < c.n && |s.children| == c.n && e in Fds(s.children[i]).Values ==> Own(i, e)
  {
    ReachableIsGood(c, s);
  }

  /** At that moment the stage itself does hold them, on its standard input and output and nowhere else. */
  lemma StageIsWired(c: Config, s: State, i: nat)
    requires Proper(c) && Reachable(c, s) && i < |s.children| && s.children[i].Shutting?
    requires s.children[i].closed == 2 * |s.pipes|
    ensures var fds := s.children[i].fds;
            && (forall fd :: fd in fds <==> fd in c.base)
            && fds[0] == (if i > 0 then ReadEnd(i - 1) else c.base[0])
            && fds[1] == (if i < c.n - 1 then WriteEnd(i) else c.base[1])
            && forall fd | fd in fds && fd > 1 :: fds[fd] == c.base[fd]
  {
    ReachableIsGood(c, s);
    NothingLeft(c, s.pipes, Wired(c, i));
  }

  // No process has a write end of pipe p: whoever reads from it sees the end of the data.
  ghost predicate AtEnd(s: State, p: nat) {
    && WriteEnd(p) !in s.fds.Values
    && forall i | 0 <= i < |s.children| :: WriteEnd(p) !in Fds(s.children[i]).Values
  }

  /** A reader's input ends exactly when the stage that writes it has closed its end; it has once
      that stage is gone, or was never started. */
  lemma ReaderSeesEnd(c: Config, s: State, p: nat)
    requires Proper(c) && Reachable(c, s) && ShellHasClosed(s) && AllWired(s) && p < c.n
    ensures |s.children| == c.n
    ensures AtEnd(s, p) <==> WriteEnd(p) !in Fds(s.children[p]).Values
    ensures Done(s.children[p]) ==> AtEnd(s, p)
  {
    ReachableIsGood(c, s);
    forall i | 0 <= i < c.n && i != p ensures WriteEnd(p) !in Fds(s.children[i]).Values {
      OnlyOwnersHold(c, s, i, WriteEnd(p));
    }
    OnlyOwnersHold(c, s, p, WriteEnd(p));
  }

  // ----- Nothing gets stuck -----

  // Standard input is at its end, or is not a pipe of this pipeline.
  ghost predicate InputEnds(s: State, i: nat)
    requires i < |s.children|
  {
    forall p: nat | ReadEnd(p) in Fds(s.children[i]).Values :: AtEnd(s, p)
  }

  /** Steps that come without waiting for anyone's good will: those of the shell, those of a child
      that wires itself up, and the exit of a program whose input has ended. */
  ghost predicate Driven(c: Config, s: State, e: Event) {
    match e
    case Setup(_) => true
    case Use(_, _) => false
    case Exit(i, _) => i < |s.children| && s.children[i].Running? && InputEnds(s, i)
    case _ => true
  }

  // The first stage that is not done.
  lemma FirstBusy(children: seq<Child>) returns (k: nat)
    requires exists i :: 0 <= i < |children| && !Done(children[i])
    ensures k < |children| && !Done(children[k]) && forall j | 0 <= j < k :: Done(children[j])
  {
    k := 0;
    while Done(children[k])
      invariant k < |children| && (forall j | 0 <= j < k :: Done(children[j]))
      invariant exists i :: k <= i < |children| && !Done(children[i])
      decreases |children| - k
    {
      k := k + 1;
    }
  }

  lemma FreeDescriptors(fds: Table) returns (rd: nat, wr: nat)
    ensures rd !in fds && wr !in fds && rd != wr
  {
    rd := Above(fds.Keys);
    wr := rd + 1;
  }

  lemma Above(keys: set<nat>) returns (n: nat)
    ensures forall k | k in keys :: k < n
    decreases keys
  {
    n := 0;
    if keys != {} {
      var k :| k in keys;
      var below := Above(keys - {k});
      n := if k < below then below else k + 1;
      assert forall j | j in keys :: j == k || j in keys - {k};
    }
  }

  /** Before the shell has returned there is always a driven step: no pipeline of programs that read
      their input to the end waits for itself. */
  lemma NoDeadlock(c: Config, s: State)
    requires Proper(c) && Reachable(c, s) && !s.phase.Returned?
    ensures exists e :: Enabled(c, s, e) && Driven(c, s, e)
  {
    ReachableIsGood(c, s);
    match s.phase
    case Piping =>
      if |s.pipes| == PipeCount(c) {
        Witness(c, s, StartForking);
      } else {
        var rd, wr := FreeDescriptors(s.fds);
        Witness(c, s, MakePipe(rd, wr));
      }
    case Undoing(_) => Witness(c, s, UndoStep);
    case Forking(i) =>
      Witness(c, s, if i >= c.n then StartClosing else if i in c.empty then Skip else Fork);
    case Closing(_) => Witness(c, s, CloseStep);
    case Waiting(i, _) =>
      if i < c.n && !Done(s.children[i]) {
        BusyStageMoves(c, s);
      } else {
        Witness(c, s, WaitStep);
      }
  }

  lemma Witness(c: Config, s: State, e: Event)
    requires Enabled(c, s, e) && Driven(c, s, e)
    ensures exists e :: Enabled(c, s, e) && Driven(c, s, e)
  {
  }

  lemma BusyStageMoves(c: Config, s: State)
    requires Proper(c) && Reachable(c, s) && s.phase.Waiting?
    requires exists i :: 0 <= i < |s.children| && !Done(s.children[i])
    ensures exists e :: Enabled(c, s, e) && Driven(c, s, e)
  {
    ReachableIsGood(c, s);
    if i :| 0 <= i < |s.children| && InSetup(s.children[i]) {
      Witness(c, s, Setup(i));
    } else {
      var k := FirstBusy(s.children);
      forall p: nat | ReadEnd(p) in Fds(s.children[k]).Values ensures AtEnd(s, p) {
        OnlyOwnersHold(c, s, k, ReadEnd(p));
        ReaderSeesEnd(c, s, p);
      }
      Witness(c, s, Exit(k, Code(0)));
    }
  }

  // ----- Every run ends -----

  // A bound on the steps that the shell has still to take, with those of the children it will fork.
  function ShellWork(n: nat, s: State): int {
    match s.phase
    case Piping => n * (2 * n + 5) + 4 * n + 6 - |s.pipes|
    case Undoing(k) => 2 * n + 2 - k
    case Forking(i) => (n - i) * (2 * n + 5) + 3 * n + 4
    case Closing(k) => 3 * n + 3 - k
    case Waiting(i, _) => n + 1 - i
    case Returned(_) => 0
  }

  function ChildWork(n: nat, child: Child): int {
    match child
    case WiringIn(_) => 2 * n + 4
    case WiringOut(_) => 2 * n + 3
    case Shutting(_, k) => 2 * n + 2 - k
    case Running(_) => 1
    case _ => 0
  }

  function ChildrenWork(n: nat, children: seq<Child>): int {
    if children == [] then 0 else ChildWork(n, children[0]) + ChildrenWork(n, children[1..])
  }

  function Work(c: Config, s: State): int {
    ShellWork(c.n, s) + ChildrenWork(c.n, s.children)
  }

  lemma {:induction false} WorkOfOne(n: nat, children: seq<Child>, i: nat, child: Child)
    requires i < |children|
    ensures ChildrenWork(n, With(children, i, child))
        == ChildrenWork(n, children) - ChildWork(n, children[i]) + ChildWork(n, child)
    decreases |children|
  {
    var r := With(children, i, child);
    if i == 0 {
      assert r[1..] == children[1..];
    } else {
      WorkOfOne(n, children[1..], i - 1, child);
      assert r[1..] == With(children[1..], i - 1, child);
    }
  }

  lemma {:induction false} WorkIsNatural(n: nat, children: seq<Child>)
    requires forall i | 0 <= i < |children| :: ChildWork(n, children[i]) >= 0
    ensures ChildrenWork(n, children) >= 0
    decreases |children|
  {
    if children != [] {
      WorkIsNatural(n, children[1..]);
    }
  }

  lemma GoodWorkIsNatural(c: Config, s: State)
    requires Good(c, s)
    ensures Work(c, s) >= 0
  {
    hide Tail, Fresh, Fd, Wired, InWired;
    forall i | 0 <= i < c.n ensures ChildWork(c.n, s.children[i]) >= 0 {
      assert ChildOk(c, s.pipes, i, s.children[i]);
    }
    WorkIsNatural(c.n, s.children);
    hide ChildOk, ChildrenWork;
    NaturalProduct(c.n, 2 * c.n + 5);
    if s.phase.Forking? {
      NaturalProduct(c.n - s.phase.next, 2 * c.n + 5);
    }
  }

  lemma NaturalProduct(x: nat, y: nat)
    ensures x * y >= 0
  {
  }

  // Every step but a program's own use of its descriptors brings the end nearer.
  lemma StepShrinks(c: Config, s: State, e: Event)
    requires Good(c, s) && Enabled(c, s, e) && !e.Use?
    ensures Work(c, Apply(c, s, e)) < Work(c, s)
  {
    hide ChildrenWork, ChildWork, SetUp;
    match e
    case Setup(i) => ChildStepShrinks(c, s, e);
    case Exit(i, ending) => ChildStepShrinks(c, s, e);
    case Fork => ForkStepShrinks(c, s, e);
    case Skip => ForkStepShrinks(c, s, e);
    case ForkFails => ForkStepShrinks(c, s, e);
    case PipeFails => NaturalProduct(c.n, 2 * c.n + 5);
    case StartForking => assert (c.n - 0) * (2 * c.n + 5) == c.n * (2 * c.n + 5);
    case _ => hide Tail, Fresh, Wired, InWired, Fd, ChildOk;
  }

  lemma ChildStepShrinks(c: Config, s: State, e: Event)
    requires Good(c, s) && Enabled(c, s, e) && (e.Setup? || e.Exit?)
    ensures Work(c, Apply(c, s, e)) < Work(c, s)
  {
    hide Tail, Fresh, Wired, InWired, ChildrenWork, Fd;
    var i := e.stage;
    assert ChildOk(c, s.pipes, i, s.children[i]);
    WorkOfOne(c.n, s.children, i, if e.Exit? then Gone(e.ending) else SetUp(c, s.pipes, i, s.children[i]));
  }

  lemma ForkStepShrinks(c: Config, s: State, e: Event)
    requires Good(c, s) && Enabled(c, s, e) && (e.Fork? || e.Skip? || e.ForkFails?)
    ensures Work(c, Apply(c, s, e)) < Work(c, s)
  {
    hide Tail, Fresh, Wired, InWired, ChildrenWork, Fd, ChildOk;
    NextTerm(c.n, s.phase.next);
    if e.Fork? {
      WorkOfOne(c.n, s.children, s.phase.next, WiringIn(s.fds));
    }
  }

  lemma NextTerm(n: nat, i: nat)
    requires i < n
    ensures (n - i) * (2 * n + 5) == (n - (i + 1)) * (2 * n + 5) + 2 * n + 5
    ensures (n - i) * (2 * n + 5) >= 2 * n + 5
  {
  }

  function Steps(events: seq<Event>): nat {
    if events == [] then 0 else (if events[0].Use? then 0 else 1) + Steps(events[1..])
  }

  /** Use steps apart, no run of a pipeline of n stages is longer than this; with NoDeadlock, a
      pipeline whose programs stop at the end of their input comes to its end. */
  lemma {:induction false} RunsEnd(c: Config, s: State, events: seq<Event>, last: State)
    requires Proper(c) && Good(c, s) && Run(c, s, events, last)
    ensures Steps(events) <= Work(c, s) - Work(c, last)
    ensures Work(c, last) >= 0
    decreases |events|
  {
    hide Good, Enabled, Apply, Work;
    if events == [] {
      GoodWorkIsNatural(c, s);
    } else {
      var s' := Apply(c, s, events[0]);
      StepKeeps(c, s, events[0]);
      RunsEnd(c, s', events[1..], last);
      if events[0].Use? {
        UseCosts(c, s, events[0]);
      } else {
        StepShrinks(c, s, events[0]);
      }
    }
  }

  lemma UseCosts(c: Config, s: State, e: Event)
    requires Enabled(c, s, e) && e.Use?
    ensures Work(c, Apply(c, s, e)) == Work(c, s)
  {
    WorkOfOne(c.n, s.children, e.stage, Running(e.fds));
  }

  /** The bound from the start. */
  lemma PipelineEnds(c: Config, events: seq<Event>, last: State)
    requires Proper(c) && Run(c, Start(c), events, last)
    ensures Steps(events) <= c.n * (2 * c.n + 5) + 4 * c.n + 6
  {
    assert c.base + Tail([], 0) == c.base;
    assert Good(c, Start(c));
    RunsEnd(c, Start(c), events, last);
    NoChildrenYet(c.n, Start(c).children);
  }

  lemma {:induction false} NoChildrenYet(n: nat, children: seq<Child>)
    requires forall i | 0 <= i < |children| :: children[i].Absent?
    ensures ChildrenWork(n, children) == 0
  {
    if children != [] {
      NoChildrenYet(n, children[1..]);
    }
  }

  /** What run_pipeline leaves: the shell's descriptors as they were, no stage still running, and the
      status of the last stage, which is its exit code, or 128 and its signal's number, or 0 if it was
      skipped; or 1 with no stage started. */
  lemma Outcome(c: Config, s: State)
    requires Proper(c) && Reachable(c, s) && s.phase.Returned?
    ensures s.fds == c.base && |s.children| == c.n
    ensures forall i | 0 <= i < c.n :: Done(s.children[i])
    ensures s.phase.status == LastStatus(s) || (s.phase.status == 1 && forall i | 0 <= i < c.n :: s.children[i].Absent?)
    ensures forall code | c.n > 0 && s.children[c.n - 1] == Gone(Code(code)) :: s.phase.status == code
    ensures forall number | c.n > 0 && s.children[c.n - 1] == Gone(Signal(number)) :: s.phase.status == 128 + number
    ensures c.n > 0 && s.children[c.n - 1].Absent? && (exists i :: 0 <= i < c.n && !s.children[i].Absent?) ==>
              s.phase.status == 0
  {
    ReachableIsGood(c, s);
  }

  // ----- Every pipeline can be driven to its end -----

  ghost predicate AllDriven(c: Config, s: State, events: seq<Event>)
    decreases |events|
  {
    events == [] || (Enabled(c, s, events[0]) && Driven(c, s, events[0])
        && AllDriven(c, Apply(c, s, events[0]), events[1..]))
  }

  lemma {:induction false} OneEventMore(c: Config, s: State, events: seq<Event>, last: State, e: Event)
    requires Run(c, s, events, last) && Enabled(c, last, e)
    ensures Run(c, s, events + [e], Apply(c, last, e))
    decreases |events|
  {
    hide Enabled, Apply;
    var more := events + [e];
    if events == [] {
      assert more[0] == e && more[1..] == [];
    } else {
      assert more[0] == events[0] && more[1..] == events[1..] + [e];
      OneEventMore(c, Apply(c, s, events[0]), events[1..], last, e);
    }
  }

  lemma ReachableNext(c: Config, s: State, e: Event)
    requires Reachable(c, s) && Enabled(c, s, e)
    ensures Reachable(c, Apply(c, s, e))
  {
    var events :| Run(c, Start(c), events, s);
    OneEventMore(c, Start(c), events, s, e);
  }

  /** From every reachable state driven steps alone lead to the return of the shell, and no run of them
      is longer than the work that is left: programs that read to the end of their input and then exit
      never keep a pipeline from finishing. */
  lemma {:induction false} DrivenToTheEnd(c: Config, s: State)
    requires Proper(c) && Reachable(c, s)
    ensures Work(c, s) >= 0
    ensures exists events, last :: Run(c, s, events, last) && AllDriven(c, s, events)
                                   && last.phase.Returned? && |events| <= Work(c, s)
    decreases Work(c, s)
  {
    hide Enabled, Apply, Work, Driven, Good, Reachable;
    ReachableIsGood(c, s);
    GoodWorkIsNatural(c, s);
    if s.phase.Returned? {
      assert Run(c, s, [], s) && AllDriven(c, s, []);
    } else {
      NoDeadlock(c, s);
      var e :| Enabled(c, s, e) && Driven(c, s, e);
      DrivenShrinks(c, s, e);
      ReachableNext(c, s, e);
      var s' := Apply(c, s, e);
      ReachableIsGood(c, s');
      GoodWorkIsNatural(c, s');
      DrivenToTheEnd(c, s');
      var events, last :| Run(c, s', events, last) && AllDriven(c, s', events) && last.phase.Returned?
          && |events| <= Work(c, s');
      var more := [e] + events;
      assert more[0] == e && more[1..] == events;
      assert Run(c, s, more, last) && AllDriven(c, s, more);
    }
  }

  lemma DrivenShrinks(c: Config, s: State, e: Event)
    requires Good(c, s) && Enabled(c, s, e) && Driven(c, s, e)
    ensures Work(c, Apply(c, s, e)) < Work(c, s)
  {
    StepShrinks(c, s, e);
  }
}
