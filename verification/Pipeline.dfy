/** run_pipeline as a protocol: the shell creates pipes, forks one process a stage, closes its own
    pipe descriptors and waits, while every child wires itself up at its own speed. Every stage is
    a forked one. A step is one system call of one process. */
module Pipeline {

  const MAX_PIPELINE := 16

  // What a descriptor refers to: an end of one of the pipeline's pipes, or anything else.
  datatype End = ReadEnd(pipe: nat) | WriteEnd(pipe: nat) | Other(file: int)

  type Table = map<nat, End>

  datatype Pipe = Pipe(rd: nat, wr: nat)

  datatype Ending = Code(code: int) | Signal(number: int)

  datatype Child =
    | Absent                                  // not forked, yet or ever
    | WiringIn(fds: Table)                    // before dup2 onto standard input
    | WiringOut(fds: Table)                   // before dup2 onto standard output
    | Shutting(fds: Table, closed: nat)       // that many of the pipe descriptors are closed
    | Running(fds: Table)
    | Gone(ending: Ending)

  datatype Phase =
    | Piping
    | Undoing(closed: nat)                    // a pipe could not be created
    | Forking(next: nat)
    | Closing(closed: nat)
    | Waiting(next: nat, last: int)
    | Returned(status: int)

  datatype State = State(pipes: seq<Pipe>, fds: Table, phase: Phase, children: seq<Child>)

  /** A pipeline of n stages, of which some have no words; base is the shell's table beforehand. */
  datatype Config = Config(n: nat, empty: set<nat>, base: Table)

  function PipeCount(c: Config): nat {
    if c.n == 0 then 0 else c.n - 1
  }

  // Standard input and output are open, and there are no other pipelines' ends among the descriptors.
  ghost predicate Proper(c: Config) {
    0 in c.base && 1 in c.base && forall fd | fd in c.base :: c.base[fd].Other?
  }

  // The pipe descriptors in the order in which the close loops go through them.
  function Fd(pipes: seq<Pipe>, k: nat): nat
    requires k < 2 * |pipes|
  {
    if k % 2 == 0 then pipes[k / 2].rd else pipes[k / 2].wr
  }

  function EndAt(k: nat): End {
    if k % 2 == 0 then ReadEnd(k / 2) else WriteEnd(k / 2)
  }

  // dup2: the new descriptor refers to what the old one refers to.
  function Dup2(fds: Table, from: nat, to: nat): Table {
    if from in fds then fds[to := fds[from]] else fds
  }

  function Close(fds: Table, fd: nat): Table {
    fds - {fd}
  }

  function Fds(child: Child): Table {
    if child.Absent? || child.Gone? then map[] else child.fds
  }

  function Start(c: Config): State {
    State([], c.base, if c.n > MAX_PIPELINE then Returned(1) else Piping, seq(c.n, _ => Absent))
  }

  datatype Event =
    | MakePipe(rd: nat, wr: nat)
    | PipeFails
    | UndoStep
    | StartForking
    | Skip
    | Fork
    | ForkFails
    | StartClosing
    | CloseStep
    | WaitStep
    | Setup(stage: nat)
    | Use(stage: nat, fds: Table)
    | Exit(stage: nat, ending: Ending)

  // A program may close, copy and open descriptors, but it gains no pipe end.
  ghost predicate Rearranged(old_fds: Table, fds: Table) {
    forall fd | fd in fds :: fds[fd].Other? || fds[fd] in old_fds.Values
  }

  ghost predicate Enabled(c: Config, s: State, e: Event) {
    match e
    case MakePipe(rd, wr) => s.phase.Piping? && |s.pipes| < PipeCount(c) && rd !in s.fds && wr !in s.fds && rd != wr
    case PipeFails => s.phase.Piping? && |s.pipes| < PipeCount(c)
    case UndoStep => s.phase.Undoing?
    case StartForking => s.phase.Piping? && |s.pipes| == PipeCount(c)
    case Skip => s.phase.Forking? && s.phase.next < c.n && s.phase.next in c.empty
    case Fork => s.phase.Forking? && s.phase.next < c.n && s.phase.next !in c.empty
    case ForkFails => s.phase.Forking? && s.phase.next < c.n && s.phase.next !in c.empty
    case StartClosing => s.phase.Forking? && s.phase.next >= c.n
    case CloseStep => s.phase.Closing?
    case WaitStep => s.phase.Waiting? && (s.phase.next < |s.children| ==> Done(s.children[s.phase.next]))
    case Setup(i) => i < |s.children| && InSetup(s.children[i])
    case Use(i, fds) => i < |s.children| && s.children[i].Running? && Rearranged(s.children[i].fds, fds)
    case Exit(i, _) => i < |s.children| && !Done(s.children[i])
  }

  predicate Done(child: Child) {
    child.Absent? || child.Gone?
  }

  predicate InSetup(child: Child) {
    child.WiringIn? || child.WiringOut? || child.Shutting?
  }

  function Apply(c: Config, s: State, e: Event): State
    requires Enabled(c, s, e)
  {
    match e
    case MakePipe(rd, wr) =>
      s.(pipes := s.pipes + [Pipe(rd, wr)],
         fds := s.fds[rd := ReadEnd(|s.pipes|)][wr := WriteEnd(|s.pipes|)])
    case PipeFails => s.(phase := Undoing(0))
    case UndoStep =>
      var k := s.phase.closed;
      if k < 2 * |s.pipes| then s.(fds := Close(s.fds, Fd(s.pipes, k)), phase := Undoing(k + 1))
      else s.(phase := Returned(1))
    case StartForking => s.(phase := Forking(0))
    case Skip => s.(phase := Forking(s.phase.next + 1))
    case Fork =>
      var i := s.phase.next;
      s.(phase := Forking(i + 1), children := With(s.children, i, WiringIn(s.fds)))
    case ForkFails => s.(phase := Closing(0))
    case StartClosing => s.(phase := Closing(0))
    case CloseStep =>
      var k := s.phase.closed;
      if k < 2 * |s.pipes| then s.(fds := Close(s.fds, Fd(s.pipes, k)), phase := Closing(k + 1))
      else s.(phase := Waiting(0, 0))
    case WaitStep =>
      var i := s.phase.next;
      if i < |s.children| then
        s.(phase := Waiting(i + 1, if i == |s.children| - 1 then Status(s.children[i]) else s.phase.last))
      else s.(phase := Returned(s.phase.last))
    case Setup(i) => s.(children := With(s.children, i, SetUp(c, s.pipes, i, s.children[i])))
    case Use(i, fds) => s.(children := With(s.children, i, Running(fds)))
    case Exit(i, ending) => s.(children := With(s.children, i, Gone(ending)))
  }

  function With(children: seq<Child>, i: nat, child: Child): (r: seq<Child>)
    ensures |r| == |children|
    ensures forall j | 0 <= j < |r| :: r[j] == if j == i then child else children[j]
  {
    if i < |children| then children[i := child] else children
  }

  // The next step of a child that wires up stage i.
  function SetUp(c: Config, pipes: seq<Pipe>, i: nat, child: Child): Child
    requires InSetup(child)
  {
    match child
    case WiringIn(fds) => WiringOut(if 0 < i <= |pipes| then Dup2(fds, pipes[i - 1].rd, 0) else fds)
    case WiringOut(fds) => Shutting(if i < |pipes| then Dup2(fds, pipes[i].wr, 1) else fds, 0)
    case Shutting(fds, k) =>
      if k < 2 * |pipes| then Shutting(Close(fds, Fd(pipes, k)), k + 1) else Running(fds)
  }

  // What the shell makes of a finished stage; a stage that was never forked leaves 0.
  function Status(child: Child): int {
    if child.Gone? then (match child.ending case Code(code) => code case Signal(number) => 128 + number) else 0
  }

  // A run of the protocol from s to its last state.
  ghost predicate Run(c: Config, s: State, events: seq<Event>, last: State)
    decreases |events|
  {
    if events == [] then last == s
    else Enabled(c, s, events[0]) && Run(c, Apply(c, s, events[0]), events[1..], last)
  }

  ghost predicate Reachable(c: Config, s: State) {
    exists events :: Run(c, Start(c), events, s)
  }
}
