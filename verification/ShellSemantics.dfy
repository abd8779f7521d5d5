/** A structured semantics of the same programs, in which break and continue are outcomes that
    unwind to the nearest loop, and the proof that the two flags implement it. */
module ShellSemantics {
  import opened Wrappers
  import opened ShellSyntax
  import opened ShellFlags

  datatype Kind = Breaking | Continuing

  // A construct either ends normally with a status, or jumps towards an enclosing loop.
  datatype Outcome<S> = Done(s: S, rc: int) | Jump(s: S, kind: Kind)

  type Sem<S> = Option<Outcome<S>>

  // ----- Which constructs a jump can leave -----

  predicate MayJump(job: Job) {
    match job
    case Foreground(c) => CondMayJump(c)
    case Background(c) => CondMayJump(c)
    case If(c, thn, els) => CondMayJump(c) || JobsMayJump(thn) || ElseMayJump(els)
    case Break => true
    case Continue => true
    case _ => false
  }

  predicate JobsMayJump(jobs: Jobs) {
    jobs.Cons? && (MayJump(jobs.job) || JobsMayJump(jobs.rest))
  }

  predicate ElseMayJump(els: OptElse) {
    match els
    case NoElse => false
    case Else(body) => JobsMayJump(body)
    case Elif(c, thn, rest) => CondMayJump(c) || JobsMayJump(thn) || ElseMayJump(rest)
  }

  predicate CondMayJump(c: Condition) {
    match c
    case Single(n) => NegMayJump(n)
    case And(n, right) => NegMayJump(n) || CondMayJump(right)
    case Or(n, right) => NegMayJump(n) || CondMayJump(right)
  }

  predicate NegMayJump(n: NegCmd) {
    match n
    case Plain(_) => false
    case Not(inner) => NegMayJump(inner)
    case Time(inner) => NegMayJump(inner)
    case Subshell(_) => false
    case Group(jobs) => JobsMayJump(jobs)
  }

  // ----- The structured semantics -----

  function SemJob<S>(m: Machine<S>, fuel: nat, job: Job, s: S): (r: Sem<S>)
    ensures r.Some? && r.value.Jump? ==> MayJump(job)
    decreases fuel, job, 1, 0
  {
    match job
    case Foreground(c) =>
      var o :- SemCond(m, fuel, c, s);
      Some(match o
           case Done(s1, rc) => Done(m.setStatus(rc, s1), rc)
           case Jump(s1, kind) => Jump(m.setStatus(0, s1), kind))
    case Background(c) =>
      if c.Single? && c.neg.Plain? then
        var (s1, rc) := m.launch(c.neg.command, s);
        Some(Done(s1, rc))
      else
        SemCond(m, fuel, c, s)
    case Assign(raw) => Some(Done(m.assign(raw, s), 0))
    case If(c, thn, els) =>
      var o :- SemCond(m, fuel, c, s);
      if o.Jump? then Some(o)
      else if o.rc == 0 then
        var b :- SemJobs(m, fuel, thn, 0, o.s);
        Some(Succeed(b))
      else
        SemElse(m, fuel, els, o.s)
    case For(word, words, _) => SemFor(m, fuel, job, m.expand(word, s), words, 0, s)
    case While(_, _) => SemLoop(m, fuel, job, 0, s)
    case Until(_, _) => SemLoop(m, fuel, job, 0, s)
    case Break => Some(Jump(s, Breaking))
    case Continue => Some(Jump(s, Continuing))
  }

  function SemJobs<S>(m: Machine<S>, fuel: nat, jobs: Jobs, rc: int, s: S): (r: Sem<S>)
    ensures r.Some? && r.value.Jump? ==> JobsMayJump(jobs)
    decreases fuel, jobs, 0, 0
  {
    match jobs
    case Nil => Some(Done(s, rc))
    case Cons(j, rest) =>
      var o :- SemJob(m, fuel, j, s);
      if o.Jump? then Some(o) else SemJobs(m, fuel, rest, o.rc, o.s)
  }

  // An if returns 0 whichever branch ran, unless that branch jumped.
  function Succeed<S>(o: Outcome<S>): Outcome<S> {
    if o.Done? then Done(o.s, 0) else o
  }

  function SemElse<S>(m: Machine<S>, fuel: nat, els: OptElse, s: S): (r: Sem<S>)
    ensures r.Some? && r.value.Jump? ==> ElseMayJump(els)
    decreases fuel, els, 0, 0
  {
    match els
    case NoElse => Some(Done(s, 0))
    case Else(body) =>
      var b :- SemJobs(m, fuel, body, 0, s);
      Some(Succeed(b))
    case Elif(c, thn, rest) =>
      var o :- SemCond(m, fuel, c, s);
      if o.Jump? then Some(o)
      else if o.rc == 0 then
        var b :- SemJobs(m, fuel, thn, 0, o.s);
        Some(Succeed(b))
      else
        SemElse(m, fuel, rest, o.s)
  }

  function SemFor<S>(m: Machine<S>, fuel: nat, job: Job, name: string, words: seq<string>,
                     ret: int, s: S): (r: Sem<S>)
    requires job.For?
    ensures r.Some? ==> r.value.Done?
    decreases fuel, job, 0, |words|
  {
    if words == [] then Some(Done(s, ret)) else
    var o :- SemJobs(m, fuel, job.body, ret, m.bind(name, m.expand(words[0], s), s));
    match o
    case Done(s1, ret1) => SemFor(m, fuel, job, name, words[1..], ret1, s1)
    case Jump(s1, Breaking) => Some(Done(s1, 0))
    case Jump(s1, Continuing) => SemFor(m, fuel, job, name, words[1..], 0, s1)
  }

  // A jump out of the condition belongs to this loop, as one out of the body does.
  function SemLoop<S>(m: Machine<S>, fuel: nat, job: Job, ret: int, s: S): (r: Sem<S>)
    requires job.While? || job.Until?
    ensures r.Some? ==> r.value.Done?
    decreases fuel, job, 0, 0
  {
    if fuel == 0 then None else
    var c :- SemCond(m, fuel, job.cond, s);
    if c.Done? && (c.rc == 0) != job.While? then Some(Done(c.s, ret)) else
    var o :- if c.Jump? then Some(c) else SemJobs(m, fuel, job.body, ret, c.s);
    match o
    case Done(s1, ret1) => SemLoop(m, fuel - 1, job, ret1, s1)
    case Jump(s1, Breaking) => Some(Done(s1, 0))
    case Jump(s1, Continuing) => SemLoop(m, fuel - 1, job, 0, s1)
  }

  function SemCond<S>(m: Machine<S>, fuel: nat, c: Condition, s: S): (r: Sem<S>)
    ensures r.Some? && r.value.Jump? ==> CondMayJump(c)
    decreases fuel, c, 0, 0
  {
    match c
    case Single(n) => SemNeg(m, fuel, n, s)
    case And(n, right) =>
      var o :- SemNeg(m, fuel, n, s);
      if o.Done? && o.rc == 0 then SemCond(m, fuel, right, o.s) else Some(o)
    case Or(n, right) =>
      var o :- SemNeg(m, fuel, n, s);
      if o.Done? && o.rc != 0 then SemCond(m, fuel, right, o.s) else Some(o)
  }

  function SemNeg<S>(m: Machine<S>, fuel: nat, n: NegCmd, s: S): (r: Sem<S>)
    ensures r.Some? && r.value.Jump? ==> NegMayJump(n)
    decreases fuel, n, 0, 0
  {
    match n
    case Plain(cmd) =>
      var (s1, rc) := m.run(cmd, s);
      Some(Done(s1, rc))
    case Not(inner) =>
      var o :- SemNeg(m, fuel, inner, s);
      Some(if o.Done? then o.(rc := if o.rc == 0 then 1 else 0) else o)
    case Time(inner) => SemNeg(m, fuel, inner, s)
    case Subshell(jobs) =>
      var fate := m.fate(jobs, s);
      if fate.Lost? then Some(Done(fate.s, 1)) else
      var o :- SemJobs(m, fuel, jobs, 0, s);
      Some(Done(m.rejoin(s, o.s), if o.Done? then o.rc % 256 else 0))
    case Group(jobs) => SemJobs(m, fuel, jobs, 0, s)
  }

  /** A program is clean when no jump can leave the operand of '!', the left operand of '&&' or
      the condition of an until: exactly the places where the evaluator acts on the status 0
      that a jumping construct returns. Everywhere else a jump may leave a group freely. */
  predicate Clean(job: Job) {
    match job
    case Foreground(c) => CleanCond(c)
    case Background(c) => CleanCond(c)
    case If(c, thn, els) => CleanCond(c) && CleanJobs(thn) && CleanElse(els)
    case For(_, _, body) => CleanJobs(body)
    case While(c, body) => CleanCond(c) && CleanJobs(body)
    case Until(c, body) => CleanCond(c) && !CondMayJump(c) && CleanJobs(body)
    case _ => true
  }

  predicate CleanJobs(jobs: Jobs) {
    jobs.Nil? || (Clean(jobs.job) && CleanJobs(jobs.rest))
  }

  predicate CleanElse(els: OptElse) {
    match els
    case NoElse => true
    case Else(body) => CleanJobs(body)
    case Elif(c, thn, rest) => CleanCond(c) && CleanJobs(thn) && CleanElse(rest)
  }

  predicate CleanCond(c: Condition) {
    match c
    case Single(n) => CleanNeg(n)
    case And(n, right) => CleanNeg(n) && !NegMayJump(n) && CleanCond(right)
    case Or(n, right) => CleanNeg(n) && CleanCond(right)
  }

  predicate CleanNeg(n: NegCmd) {
    match n
    case Plain(_) => true
    case Not(inner) => CleanNeg(inner) && !NegMayJump(inner)
    case Time(inner) => CleanNeg(inner)
    case Subshell(jobs) => CleanJobs(jobs)
    case Group(jobs) => CleanJobs(jobs)
  }

  // ----- The flags implement the structured semantics -----

  function Clear<S>(s: S): Flagged<S> {
    Flagged(s, false, false)
  }

  // How the flags represent an outcome: a jump is a set flag and status 0.
  function AsFlags<S>(o: Outcome<S>): (Flagged<S>, int) {
    match o
    case Done(s, rc) => (Clear(s), rc)
    case Jump(s, kind) => (Flagged(s, kind == Breaking, kind == Continuing), 0)
  }

  function Flags<S>(o: Sem<S>): Run<S> {
    if o.None? then None else Some(AsFlags(o.value))
  }

  // Once a flag is set, the jobs that follow do nothing and return 0.
  lemma {:induction false} FlaggedJobsSkip<S>(m: Machine<S>, fuel: nat, jobs: Jobs, rc: int, g: Flagged<S>)
    requires g.Set()
    ensures FlagJobs(m, fuel, jobs, rc, g) == Some((g, if jobs.Nil? then rc else 0))
    decreases jobs
  {
    if jobs.Cons? {
      FlaggedJobsSkip(m, fuel, jobs.rest, 0, g);
    }
  }

  lemma {:induction false} JobAgrees<S>(m: Machine<S>, fuel: nat, job: Job, s: S)
    requires Clean(job)
    ensures FlagJob(m, fuel, job, Clear(s)) == Flags(SemJob(m, fuel, job, s))
    decreases fuel, job, 1, 0
  {
    match job {
      case Foreground(c) => CondAgrees(m, fuel, c, s);
      case Background(c) => CondAgrees(m, fuel, c, s);
      case If(c, thn, els) =>
        CondAgrees(m, fuel, c, s);
        var o := SemCond(m, fuel, c, s);
        if o.Some? {
          FlaggedOrAgree(m, fuel, o.value, thn);
          ElseAgrees(m, fuel, els, o.value.s);
        }
      case For(word, words, _) => ForAgrees(m, fuel, job, m.expand(word, s), words, 0, s);
      case While(_, _) => LoopAgrees(m, fuel, job, 0, s);
      case Until(_, _) => LoopAgrees(m, fuel, job, 0, s);
      case _ =>
    }
  }

  lemma {:induction false} JobsAgree<S>(m: Machine<S>, fuel: nat, jobs: Jobs, rc: int, s: S)
    requires CleanJobs(jobs)
    ensures FlagJobs(m, fuel, jobs, rc, Clear(s)) == Flags(SemJobs(m, fuel, jobs, rc, s))
    ensures FlagBody(m, fuel, jobs, rc, Clear(s)) == Flags(SemJobs(m, fuel, jobs, rc, s))
    decreases fuel, jobs, 0, 0
  {
    if jobs.Cons? {
      JobAgrees(m, fuel, jobs.job, s);
      var o := SemJob(m, fuel, jobs.job, s);
      if o.Some? && o.value.Done? {
        JobsAgree(m, fuel, jobs.rest, o.value.rc, o.value.s);
      } else if o.Some? {
        FlaggedJobsSkip(m, fuel, jobs.rest, 0, AsFlags(o.value).0);
      }
    }
  }

  // The evaluator enters the branch also after a jump in the condition, and skips all of it.
  lemma {:induction false} FlaggedOrAgree<S>(m: Machine<S>, fuel: nat, o: Outcome<S>, thn: Jobs)
    requires CleanJobs(thn)
    ensures FlagJobs(m, fuel, thn, 0, AsFlags(o).0)
         == Flags(if o.Jump? then Some(o) else SemJobs(m, fuel, thn, 0, o.s))
    decreases fuel, thn, 1, 0
  {
    if o.Jump? {
      FlaggedJobsSkip(m, fuel, thn, 0, AsFlags(o).0);
    } else {
      JobsAgree(m, fuel, thn, 0, o.s);
    }
  }

  lemma {:induction false} ElseAgrees<S>(m: Machine<S>, fuel: nat, els: OptElse, s: S)
    requires CleanElse(els)
    ensures var o := SemElse(m, fuel, els, s);
            FlagElse(m, fuel, els, true, Clear(s)) == (if o.None? then None else Some(AsFlags(o.value).0))
    ensures var o := SemElse(m, fuel, els, s); o.Some? && o.value.Done? ==> o.value.rc == 0
    decreases fuel, els, 0, 0
  {
    match els {
      case NoElse =>
      case Else(body) => JobsAgree(m, fuel, body, 0, s);
      case Elif(c, thn, rest) =>
        CondAgrees(m, fuel, c, s);
        var o := SemCond(m, fuel, c, s);
        if o.Some? {
          FlaggedOrAgree(m, fuel, o.value, thn);
          ElseAgrees(m, fuel, rest, o.value.s);
        }
    }
  }

  lemma {:induction false} ForAgrees<S>(m: Machine<S>, fuel: nat, job: Job, name: string,
                                        words: seq<string>, ret: int, s: S)
    requires job.For? && CleanJobs(job.body)
    ensures FlagFor(m, fuel, job, name, words, ret, Clear(s))
         == Flags(SemFor(m, fuel, job, name, words, ret, s))
    decreases fuel, job, 0, |words|
  {
    if words != [] {
      var s0 := m.bind(name, m.expand(words[0], s), s);
      JobsAgree(m, fuel, job.body, ret, s0);
      var o := SemJobs(m, fuel, job.body, ret, s0);
      if o.Some? {
        ForAgrees(m, fuel, job, name, words[1..], if o.value.Done? then o.value.rc else 0, o.value.s);
      }
    }
  }

  // An empty body keeps the status, which is then the initial 0.
  lemma {:induction false} LoopAgrees<S>(m: Machine<S>, fuel: nat, job: Job, ret: int, s: S)
    requires (job.While? || job.Until?) && Clean(job)
    requires job.body.Nil? ==> ret == 0
    ensures FlagLoop(m, fuel, job, ret, Clear(s)) == Flags(SemLoop(m, fuel, job, ret, s))
    decreases fuel, job, 0, 0
  {
    if fuel > 0 {
      CondAgrees(m, fuel, job.cond, s);
      var c := SemCond(m, fuel, job.cond, s);
      if c.Some? && c.value.Jump? {
        var (g, rc) := AsFlags(c.value);
        assert FlagBody(m, fuel, job.body, ret, g) == Some((g, 0));
        LoopAgrees(m, fuel - 1, job, 0, c.value.s);
      } else if c.Some? && (c.value.rc == 0) == job.While? {
        JobsAgree(m, fuel, job.body, ret, c.value.s);
        var o := SemJobs(m, fuel, job.body, ret, c.value.s);
        if o.Some? {
          LoopAgrees(m, fuel - 1, job, if o.value.Done? then o.value.rc else 0, o.value.s);
        }
      }
    }
  }

  lemma {:induction false} CondAgrees<S>(m: Machine<S>, fuel: nat, c: Condition, s: S)
    requires CleanCond(c)
    ensures FlagCond(m, fuel, c, Clear(s)) == Flags(SemCond(m, fuel, c, s))
    decreases fuel, c, 0, 0
  {
    var n := if c.Single? then c.neg else c.left;
    NegAgrees(m, fuel, n, s);
    if !c.Single? {
      var o := SemNeg(m, fuel, n, s);
      if o.Some? && o.value.Done? { CondAgrees(m, fuel, c.right, o.value.s); }
    }
  }

  lemma {:induction false} NegAgrees<S>(m: Machine<S>, fuel: nat, n: NegCmd, s: S)
    requires CleanNeg(n)
    ensures FlagNeg(m, fuel, n, Clear(s)) == Flags(SemNeg(m, fuel, n, s))
    decreases fuel, n, 0, 0
  {
    match n {
      case Plain(_) =>
      case Not(inner) => NegAgrees(m, fuel, inner, s);
      case Time(inner) => NegAgrees(m, fuel, inner, s);
      case Subshell(jobs) => JobsAgree(m, fuel, jobs, 0, s);
      case Group(jobs) => JobsAgree(m, fuel, jobs, 0, s);
    }
  }
}
