/** What the evaluator of aishell_main.c computes: break and continue are two global flags,
    and only the entry of eval_job and the loops look at them. */
module ShellFlags {
  import opened Wrappers
  import opened ShellSyntax

  datatype Flagged<S> = Flagged(s: S, brk: bool, cont: bool) {
    predicate Set() { brk || cont }
    predicate Both() { brk && cont }
  }

  // Fuel bounds the iterations of while and until; None means it ran out.
  type Run<S> = Option<(Flagged<S>, int)>

  function FlagJob<S>(m: Machine<S>, fuel: nat, job: Job, g: Flagged<S>): (r: Run<S>)
    ensures !g.Both() && r.Some? ==> !r.value.0.Both()
    decreases fuel, job, 1, 0
  {
    if g.Set() then Some((g, 0)) else
    match job
    case Foreground(c) =>
      var (g1, rc) :- FlagCond(m, fuel, c, g);
      Some((g1.(s := m.setStatus(rc, g1.s)), rc))
    case Background(c) =>
      if c.Single? && c.neg.Plain? then
        var (s1, rc) := m.launch(c.neg.command, g.s);
        Some((g.(s := s1), rc))
      else
        FlagCond(m, fuel, c, g)
    case Assign(raw) => Some((g.(s := m.assign(raw, g.s)), 0))
    case If(c, thn, els) =>
      var (g1, rc) :- FlagCond(m, fuel, c, g);
      var (g2, _) :- if rc == 0 then FlagJobs(m, fuel, thn, 0, g1) else Some((g1, 0));
      var g3 :- FlagElse(m, fuel, els, rc != 0, g2);
      Some((g3, 0))
    case For(word, words, _) =>
      FlagFor(m, fuel, job, m.expand(word, g.s), words, 0, g)
    case While(_, _) => FlagLoop(m, fuel, job, 0, g)
    case Until(_, _) => FlagLoop(m, fuel, job, 0, g)
    case Break => Some((g.(brk := true), 0))
    case Continue => Some((g.(cont := true), 0))
  }

  // Every job in turn, keeping the last status: groups, subshells, branches, the top level.
  function FlagJobs<S>(m: Machine<S>, fuel: nat, jobs: Jobs, rc: int, g: Flagged<S>): (r: Run<S>)
    ensures !g.Both() && r.Some? ==> !r.value.0.Both()
    decreases fuel, jobs, 0, 0
  {
    match jobs
    case Nil => Some((g, rc))
    case Cons(j, rest) =>
      var (g1, rc1) :- FlagJob(m, fuel, j, g);
      FlagJobs(m, fuel, rest, rc1, g1)
  }

  // The body of a loop, which stops at the first job that leaves a flag set.
  function FlagBody<S>(m: Machine<S>, fuel: nat, jobs: Jobs, ret: int, g: Flagged<S>): (r: Run<S>)
    ensures !g.Both() && r.Some? ==> !r.value.0.Both()
    decreases fuel, jobs, 0, 0
  {
    match jobs
    case Nil => Some((g, ret))
    case Cons(j, rest) =>
      var (g1, rc) :- FlagJob(m, fuel, j, g);
      if g1.Set() then Some((g1, rc)) else FlagBody(m, fuel, rest, rc, g1)
  }

  function FlagFor<S>(m: Machine<S>, fuel: nat, job: Job, name: string, words: seq<string>,
                      ret: int, g: Flagged<S>): (r: Run<S>)
    requires job.For?
    ensures !g.Set() && r.Some? ==> !r.value.0.Set()
    ensures !g.Both() && r.Some? ==> !r.value.0.Both()
    decreases fuel, job, 0, |words|
  {
    if words == [] then Some((g, ret)) else
    var g0 := g.(s := m.bind(name, m.expand(words[0], g.s), g.s));
    var (g1, ret1) :- FlagBody(m, fuel, job.body, ret, g0);
    if g1.brk then Some((g1.(brk := false), ret1))
    else FlagFor(m, fuel, job, name, words[1..], ret1, g1.(cont := false))
  }

  // while runs its body as long as the status is 0, until as long as it is not.
  function FlagLoop<S>(m: Machine<S>, fuel: nat, job: Job, ret: int, g: Flagged<S>): (r: Run<S>)
    requires job.While? || job.Until?
    ensures !g.Both() && r.Some? ==> !r.value.0.Both()
    decreases fuel, job, 0, 0
  {
    if fuel == 0 then None else
    var (g0, rc) :- FlagCond(m, fuel, job.cond, g);
    if (rc == 0) != job.While? then Some((g0, ret)) else
    var (g1, ret1) :- FlagBody(m, fuel, job.body, ret, g0);
    if g1.brk then Some((g1.(brk := false), ret1))
    else FlagLoop(m, fuel - 1, job, ret1, g1.(cont := false))
  }

  function FlagElse<S>(m: Machine<S>, fuel: nat, els: OptElse, failed: bool, g: Flagged<S>)
    : (r: Option<Flagged<S>>)
    ensures !g.Both() && r.Some? ==> !r.value.Both()
    decreases fuel, els, 0, 0
  {
    if !failed then Some(g) else
    match els
    case NoElse => Some(g)
    case Else(body) =>
      var (g1, _) :- FlagJobs(m, fuel, body, 0, g);
      Some(g1)
    case Elif(c, thn, rest) =>
      var (g1, rc) :- FlagCond(m, fuel, c, g);
      var (g2, _) :- if rc == 0 then FlagJobs(m, fuel, thn, 0, g1) else Some((g1, 0));
      FlagElse(m, fuel, rest, rc != 0, g2)
  }

  function FlagCond<S>(m: Machine<S>, fuel: nat, c: Condition, g: Flagged<S>): (r: Run<S>)
    ensures !g.Both() && r.Some? ==> !r.value.0.Both()
    decreases fuel, c, 0, 0
  {
    match c
    case Single(n) => FlagNeg(m, fuel, n, g)
    case And(n, right) =>
      var (g1, rc) :- FlagNeg(m, fuel, n, g);
      if rc == 0 then FlagCond(m, fuel, right, g1) else Some((g1, rc))
    case Or(n, right) =>
      var (g1, rc) :- FlagNeg(m, fuel, n, g);
      if rc != 0 then FlagCond(m, fuel, right, g1) else Some((g1, rc))
  }

  function FlagNeg<S>(m: Machine<S>, fuel: nat, n: NegCmd, g: Flagged<S>): (r: Run<S>)
    ensures !g.Both() && r.Some? ==> !r.value.0.Both()
    decreases fuel, n, 0, 0
  {
    match n
    case Plain(cmd) =>
      var (s1, rc) := m.run(cmd, g.s);
      Some((g.(s := s1), rc))
    case Not(inner) =>
      var (g1, rc) :- FlagNeg(m, fuel, inner, g);
      Some((g1, if rc == 0 then 1 else 0))
    case Time(inner) => FlagNeg(m, fuel, inner, g)
    case Subshell(jobs) =>
      var fate := m.fate(jobs, g.s);
      if fate.Lost? then Some((g.(s := fate.s), 1)) else
      // The child has its own copy of the flags; exit keeps the low eight bits.
      var (g1, rc) :- FlagJobs(m, fuel, jobs, 0, g);
      Some((g.(s := m.rejoin(g.s, g1.s)), rc % 256))
    case Group(jobs) => FlagJobs(m, fuel, jobs, 0, g)
  }

  /** The evaluator itself: recursive methods over shared state, with the loops of the source.
      Each call leaves exactly the state and status that the functions above describe. */
  class Shell<S(!new)> {
    const m: Machine<S>
    var s: S
    var breakFlag: bool
    var continueFlag: bool

    constructor (m: Machine<S>, s: S, breakFlag: bool, continueFlag: bool)
      ensures this.m == m && Snap() == Flagged(s, breakFlag, continueFlag)
    {
      this.m, this.s, this.breakFlag, this.continueFlag := m, s, breakFlag, continueFlag;
    }

    function Snap(): Flagged<S>
      reads this
    {
      Flagged(s, breakFlag, continueFlag)
    }

    ghost predicate Reached(expected: Run<S>, r: Option<int>)
      reads this
    {
      if expected.None? then r.None? else r == Some(expected.value.1) && Snap() == expected.value.0
    }

    method EvalJob(fuel: nat, job: Job) returns (r: Option<int>)
      modifies this
      ensures Reached(FlagJob(m, fuel, job, old(Snap())), r)
      decreases fuel, job, 1, 0
    {
      if breakFlag || continueFlag { return Some(0); }
      match job {
        case Foreground(c) =>
          var rc :- EvalCondition(fuel, c);
          s := m.setStatus(rc, s);
          return Some(rc);
        case Background(c) =>
          if c.Single? && c.neg.Plain? {
            var (s1, rc) := m.launch(c.neg.command, s);
            s := s1;
            return Some(rc);
          }
          r := EvalCondition(fuel, c);
        case Assign(raw) =>
          s := m.assign(raw, s);
          return Some(0);
        case If(c, thn, els) =>
          var rc :- EvalCondition(fuel, c);
          if rc == 0 {
            var _ :- EvalJobs(fuel, thn);
          }
          var _ :- EvalOptElse(fuel, els, rc != 0);
          return Some(0);
        case For(_, _, _) =>
          r := EvalFor(fuel, job);
        case While(_, _) =>
          r := EvalLoop(fuel, job);
        case Until(_, _) =>
          r := EvalLoop(fuel, job);
        case Break =>
          breakFlag := true;
          return Some(0);
        case Continue =>
          continueFlag := true;
          return Some(0);
      }
    }

    method EvalJobs(fuel: nat, jobs: Jobs) returns (r: Option<int>)
      modifies this
      ensures Reached(FlagJobs(m, fuel, jobs, 0, old(Snap())), r)
      decreases fuel, jobs, 0, 0
    {
      var rc, lj := 0, jobs;
      while lj.Cons?
        invariant FlagJobs(m, fuel, lj, rc, Snap()) == FlagJobs(m, fuel, jobs, 0, old(Snap()))
        invariant lj == jobs || lj < jobs
        decreases lj
      {
        rc :- EvalJob(fuel, lj.job);
        lj := lj.rest;
      }
      return Some(rc);
    }

    method EvalBody(fuel: nat, jobs: Jobs, ret: int) returns (r: Option<int>)
      modifies this
      ensures Reached(FlagBody(m, fuel, jobs, ret, old(Snap())), r)
      decreases fuel, jobs, 0, 0
    {
      var rc, body := ret, jobs;
      while body.Cons?
        invariant FlagBody(m, fuel, body, rc, Snap()) == FlagBody(m, fuel, jobs, ret, old(Snap()))
        invariant body == jobs || body < jobs
        decreases body
      {
        rc :- EvalJob(fuel, body.job);
        body := body.rest;
        if breakFlag || continueFlag { break; }
      }
      return Some(rc);
    }

    method EvalFor(fuel: nat, job: Job) returns (r: Option<int>)
      requires job.For?
      modifies this
      ensures var g := old(Snap());
              Reached(FlagFor(m, fuel, job, m.expand(job.word, g.s), job.words, 0, g), r)
      decreases fuel, job, 0, 0
    {
      var name, lw, ret := m.expand(job.word, s), job.words, 0;
      while lw != []
        invariant FlagFor(m, fuel, job, name, lw, ret, Snap())
               == FlagFor(m, fuel, job, name, job.words, 0, old(Snap()))
      {
        s := m.bind(name, m.expand(lw[0], s), s);
        ret :- EvalBody(fuel, job.body, ret);
        if breakFlag { breakFlag := false; return Some(ret); }
        if continueFlag { continueFlag := false; }
        lw := lw[1..];
      }
      return Some(ret);
    }

    method EvalLoop(fuel: nat, job: Job) returns (r: Option<int>)
      requires job.While? || job.Until?
      modifies this
      ensures Reached(FlagLoop(m, fuel, job, 0, old(Snap())), r)
      decreases fuel, job, 0, 0
    {
      var left: nat, ret := fuel, 0;
      while left > 0
        invariant left <= fuel
        invariant FlagLoop(m, left, job, ret, Snap()) == FlagLoop(m, fuel, job, 0, old(Snap()))
      {
        var rc :- EvalCondition(left, job.cond);
        if (rc == 0) != job.While? { return Some(ret); }
        ret :- EvalBody(left, job.body, ret);
        if breakFlag { breakFlag := false; return Some(ret); }
        if continueFlag { continueFlag := false; }
        left := left - 1;
      }
      return None;
    }

    method EvalOptElse(fuel: nat, els: OptElse, failed: bool) returns (r: Option<()>)
      modifies this
      ensures var expected := FlagElse(m, fuel, els, failed, old(Snap()));
              r.Some? == expected.Some? && (r.Some? ==> Snap() == expected.value)
      decreases fuel, els, 0, 0
    {
      if !failed { return Some(()); }
      match els {
        case NoElse =>
        case Else(body) =>
          var _ :- EvalJobs(fuel, body);
        case Elif(c, thn, rest) =>
          var rc :- EvalCondition(fuel, c);
          if rc == 0 {
            var _ :- EvalJobs(fuel, thn);
          }
          r := EvalOptElse(fuel, rest, rc != 0);
          return r;
      }
      return Some(());
    }

    method EvalCondition(fuel: nat, c: Condition) returns (r: Option<int>)
      modifies this
      ensures Reached(FlagCond(m, fuel, c, old(Snap())), r)
      decreases fuel, c, 0, 0
    {
      match c {
        case Single(n) =>
          r := EvalNegCmd(fuel, n);
        case And(n, right) =>
          var rc :- EvalNegCmd(fuel, n);
          if rc == 0 {
            r := EvalCondition(fuel, right);
          } else {
            r := Some(rc);
          }
        case Or(n, right) =>
          var rc :- EvalNegCmd(fuel, n);
          if rc != 0 {
            r := EvalCondition(fuel, right);
          } else {
            r := Some(rc);
          }
      }
    }

    method EvalNegCmd(fuel: nat, n: NegCmd) returns (r: Option<int>)
      modifies this
      ensures Reached(FlagNeg(m, fuel, n, old(Snap())), r)
      decreases fuel, n, 0, 0
    {
      match n {
        case Plain(cmd) =>
          var (s1, rc) := m.run(cmd, s);
          s := s1;
          return Some(rc);
        case Not(inner) =>
          var rc :- EvalNegCmd(fuel, inner);
          return Some(if rc == 0 then 1 else 0);
        case Time(inner) =>
          r := EvalNegCmd(fuel, inner);
        case Subshell(jobs) =>
          var fate := m.fate(jobs, s);
          if fate.Lost? {
            s := fate.s;
            return Some(1);
          }
          var child := new Shell(m, s, breakFlag, continueFlag);   // fork
          var rc :- child.EvalJobs(fuel, jobs);
          s := m.rejoin(s, child.s);
          return Some(rc % 256);
        case Group(jobs) =>
          r := EvalJobs(fuel, jobs);
      }
    }
  }
}
