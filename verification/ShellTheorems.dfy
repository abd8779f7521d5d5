/** What the agreement of the two semantics means for whole runs: the exact places where the
    flags differ, sessions of many lines, and independence of the fuel. */
module ShellTheorems {
  import opened Wrappers
  import opened ShellSyntax
  import opened ShellFlags
  import opened ShellSemantics

  // ----- Loops and the flags -----

  /** What the evaluation of the condition that ends a while or until leaves; None when a break ends
      it, or nothing does. */
  function EndingCondition<S>(m: Machine<S>, fuel: nat, job: Job, ret: int, g: Flagged<S>): Option<Flagged<S>>
    requires job.While? || job.Until?
    decreases fuel
  {
    if fuel == 0 then None else
    var (g0, rc) :- FlagCond(m, fuel, job.cond, g);
    if (rc == 0) != job.While? then Some(g0) else
    var (g1, ret1) :- FlagBody(m, fuel, job.body, ret, g0);
    if g1.brk then None else EndingCondition(m, fuel - 1, job, ret1, g1.(cont := false))
  }

  lemma {:induction false} LoopEndsAs<S>(m: Machine<S>, fuel: nat, job: Job, ret: int, g: Flagged<S>)
    requires (job.While? || job.Until?) && !g.Both()
    ensures var r, last := FlagLoop(m, fuel, job, ret, g), EndingCondition(m, fuel, job, ret, g);
            r.Some? ==> (r.value.0.Set() <==> last.Some? && last.value.Set())
    decreases fuel
  {
    if fuel > 0 && FlagCond(m, fuel, job.cond, g).Some? {
      var (g0, rc) := FlagCond(m, fuel, job.cond, g).value;
      if (rc == 0) == job.While? && FlagBody(m, fuel, job.body, ret, g0).Some? {
        var (g1, ret1) := FlagBody(m, fuel, job.body, ret, g0).value;
        LoopEndsAs(m, fuel - 1, job, ret1, g1.(cont := false));
      }
    }
  }

  /** A loop that ends leaves a flag set exactly when the evaluation of its condition that ended it
      left one set; a for never does. This holds of all programs, clean or not. */
  lemma LoopLeavesFlagIff<S>(m: Machine<S>, fuel: nat, job: Job, s: S)
    requires job.For? || job.While? || job.Until?
    ensures var r := FlagJob(m, fuel, job, Clear(s));
            r.Some? ==> (r.value.0.Set() <==>
              !job.For? && var last := EndingCondition(m, fuel, job, 0, Clear(s)); last.Some? && last.value.Set())
  {
    if !job.For? {
      LoopEndsAs(m, fuel, job, 0, Clear(s));
    }
  }

  // A clean loop that ends has cleared both flags.
  lemma LoopClearsFlags<S>(m: Machine<S>, fuel: nat, job: Job, s: S)
    requires (job.For? || job.While? || job.Until?) && Clean(job)
    ensures var r := FlagJob(m, fuel, job, Clear(s)); r.Some? ==> !r.value.0.Set()
  {
    JobAgrees(m, fuel, job, s);
  }

  // A while loop that is not clean: when its condition negates a jump, the flag outlives the loop.
  lemma WhileConditionLeak<S>(m: Machine<S>, fuel: nat, n: NegCmd, body: Jobs, s: S)
    requires fuel > 0 && CleanNeg(n)
    requires var o := SemNeg(m, fuel, n, s); o.Some? && o.value.Jump?
    ensures var r := FlagJob(m, fuel, While(Single(Not(n)), body), Clear(s));
            r.Some? && r.value.0 == AsFlags(SemNeg(m, fuel, n, s).value).0 && r.value.0.Set()
  {
    NegAgrees(m, fuel, n, s);
    var (g, rc) := AsFlags(SemNeg(m, fuel, n, s).value);
    assert FlagNeg(m, fuel, Not(n), Clear(s)) == Some((g, 1));
    assert FlagCond(m, fuel, Single(Not(n)), Clear(s)) == Some((g, 1));
    assert FlagLoop(m, fuel, While(Single(Not(n)), body), 0, Clear(s)) == Some((g, 0));
  }

  // ----- The three places that are not clean, exactly -----

  // '!': the two semantics agree iff the operand does not jump.
  lemma NotAgreesIff<S>(m: Machine<S>, fuel: nat, n: NegCmd, s: S)
    requires CleanNeg(n) && SemNeg(m, fuel, n, s).Some?
    ensures FlagNeg(m, fuel, Not(n), Clear(s)) == Flags(SemNeg(m, fuel, Not(n), s))
       <==> SemNeg(m, fuel, n, s).value.Done?
  {
    NegAgrees(m, fuel, n, s);
  }

  // '&&': after a jump in the left operand the evaluator still runs the right one, so the two
  // agree iff that run returns status 0 without an effect, flag or jump of its own.
  lemma AndAgreesIff<S>(m: Machine<S>, fuel: nat, n: NegCmd, right: Condition, s: S)
    requires CleanNeg(n) && CleanCond(right) && SemNeg(m, fuel, n, s).Some?
    ensures FlagCond(m, fuel, And(n, right), Clear(s)) == Flags(SemCond(m, fuel, And(n, right), s))
       <==> var o := SemNeg(m, fuel, n, s).value;
            o.Jump? ==> FlagCond(m, fuel, right, AsFlags(o).0) == Some((AsFlags(o).0, 0))
  {
    NegAgrees(m, fuel, n, s);
    var o := SemNeg(m, fuel, n, s).value;
    if o.Done? && o.rc == 0 {
      CondAgrees(m, fuel, right, o.s);
    }
  }

  // With a plain command on the right: iff that command, run after the jump, does nothing and succeeds.
  lemma AndPlainAgreesIff<S>(m: Machine<S>, fuel: nat, n: NegCmd, x: Command, s: S)
    requires CleanNeg(n) && SemNeg(m, fuel, n, s).Some?
    ensures var c := And(n, Single(Plain(x))); var o := SemNeg(m, fuel, n, s).value;
            FlagCond(m, fuel, c, Clear(s)) == Flags(SemCond(m, fuel, c, s)) <==> (o.Jump? ==> m.run(x, o.s) == (o.s, 0))
  {
    AndAgreesIff(m, fuel, n, Single(Plain(x)), s);
    var o := SemNeg(m, fuel, n, s).value;
    if o.Jump? {
      var g := AsFlags(o).0;
      assert FlagCond(m, fuel, Single(Plain(x)), g) == FlagNeg(m, fuel, Plain(x), g);
      assert FlagNeg(m, fuel, Plain(x), g) == Some((g.(s := m.run(x, g.s).0), m.run(x, g.s).1));
    }
  }

  // Whether some evaluation of a loop's condition jumps, in the structured run of the loop.
  function ConditionJumps<S>(m: Machine<S>, fuel: nat, job: Job, ret: int, s: S): bool
    requires job.While? || job.Until?
    decreases fuel
  {
    if fuel == 0 then false
    else match SemCond(m, fuel, job.cond, s)
      case None => false
      case Some(Jump(_, _)) => true
      case Some(Done(s1, rc)) =>
        if (rc == 0) != job.While? then false
        else match SemJobs(m, fuel, job.body, ret, s1)
          case None => false
          case Some(Done(s2, ret2)) => ConditionJumps(m, fuel - 1, job, ret2, s2)
          case Some(Jump(s2, Breaking)) => false
          case Some(Jump(s2, Continuing)) => ConditionJumps(m, fuel - 1, job, 0, s2)
  }

  lemma {:induction false} UntilLoopAgreesIff<S>(m: Machine<S>, fuel: nat, job: Job, ret: int, s: S)
    requires job.Until? && CleanCond(job.cond) && CleanJobs(job.body)
    ensures FlagLoop(m, fuel, job, ret, Clear(s)) == Flags(SemLoop(m, fuel, job, ret, s))
       <==> !ConditionJumps(m, fuel, job, ret, s)
    ensures ConditionJumps(m, fuel, job, ret, s) ==>
            var r := FlagLoop(m, fuel, job, ret, Clear(s)); r.Some? && r.value.0.Set()
    decreases fuel
  {
    if fuel > 0 {
      CondAgrees(m, fuel, job.cond, s);
      var c := SemCond(m, fuel, job.cond, s);
      if c.Some? && c.value.Done? && c.value.rc != 0 {
        JobsAgree(m, fuel, job.body, ret, c.value.s);
        var o := SemJobs(m, fuel, job.body, ret, c.value.s);
        if o.Some? {
          UntilLoopAgreesIff(m, fuel - 1, job, if o.value.Done? then o.value.rc else 0, o.value.s);
        }
      }
    }
  }

  /** until: the two agree exactly if no evaluation of the condition jumps, in any of the loop's turns.
      One that does ends the loop at once and leaves its flag set. */
  lemma UntilAgreesIff<S>(m: Machine<S>, fuel: nat, c: Condition, body: Jobs, s: S)
    requires CleanCond(c) && CleanJobs(body)
    ensures var job := Until(c, body);
            FlagJob(m, fuel, job, Clear(s)) == Flags(SemJob(m, fuel, job, s)) <==> !ConditionJumps(m, fuel, job, 0, s)
    ensures var job := Until(c, body); var r := FlagJob(m, fuel, job, Clear(s));
            r.Some? ==> (r.value.0.Set() <==> ConditionJumps(m, fuel, job, 0, s))
  {
    UntilLoopAgreesIff(m, fuel, Until(c, body), 0, s);
    LoopEndsClear(m, fuel, Until(c, body), s);
  }

  lemma LoopEndsClear<S>(m: Machine<S>, fuel: nat, job: Job, s: S)
    requires job.While? || job.Until?
    ensures var r := Flags(SemJob(m, fuel, job, s)); r.Some? ==> !r.value.0.Set()
  {
  }

  // { break ; } && x  runs x, whatever x is and whatever it does.
  lemma GroupBreakAndRuns<S>(m: Machine<S>, fuel: nat, x: Command, s: S)
    ensures var c := And(Group(Cons(Break, Nil)), Single(Plain(x)));
            && FlagCond(m, fuel, c, Clear(s)) == Some((Flagged(m.run(x, s).0, true, false), m.run(x, s).1))
            && SemCond(m, fuel, c, s) == Some(Jump(s, Breaking))
  {
    assert FlagJobs(m, fuel, Cons(Break, Nil), 0, Clear(s)) == Some((Flagged(s, true, false), 0));
    assert SemJobs(m, fuel, Cons(Break, Nil), 0, s) == Some(Jump(s, Breaking));
    assert FlagNeg(m, fuel, Group(Cons(Break, Nil)), Clear(s)) == Some((Flagged(s, true, false), 0));
    assert SemNeg(m, fuel, Group(Cons(Break, Nil)), s) == Some(Jump(s, Breaking));
    assert FlagCond(m, fuel, Single(Plain(x)), Flagged(s, true, false))
        == FlagNeg(m, fuel, Plain(x), Flagged(s, true, false));
  }

  // ----- Sessions: one line after another in the same process -----

  // The prompt evaluates each line's jobs and stores the last status.
  function FlagSession<S>(m: Machine<S>, fuel: nat, lines: seq<Jobs>, g: Flagged<S>): Option<Flagged<S>> {
    if lines == [] then Some(g) else
    var (g1, rc) :- FlagJobs(m, fuel, lines[0], 0, g);
    FlagSession(m, fuel, lines[1..], g1.(s := m.setStatus(rc, g1.s)))
  }

  /** A subshell that is entered with a flag set skips all of its jobs and returns 0. */
  lemma FlaggedSubshell<S>(m: Machine<S>, fuel: nat, jobs: Jobs, g: Flagged<S>)
    requires g.Set() && m.fate(jobs, g.s).Exits?
    ensures FlagNeg(m, fuel, Subshell(jobs), g) == Some((g.(s := m.rejoin(g.s, g.s)), 0))
  {
    FlaggedJobsSkip(m, fuel, jobs, 0, g);
  }

  /** So behind a group that breaks, && and a subshell the subshell does nothing, whatever is in it, and
      the flag stays set. */
  lemma GroupBreakAndSubshell<S>(m: Machine<S>, fuel: nat, jobs: Jobs, s: S)
    requires m.fate(jobs, s).Exits?
    ensures var c := And(Group(Cons(Break, Nil)), Single(Subshell(jobs)));
            FlagCond(m, fuel, c, Clear(s)) == Some((Flagged(m.rejoin(s, s), true, false), 0))
  {
    var broken := Flagged(s, true, false);
    FlaggedSubshell(m, fuel, jobs, broken);
    assert FlagNeg(m, fuel, Group(Cons(Break, Nil)), Clear(s)) == Some((broken, 0)) by {
      assert FlagJobs(m, fuel, Cons(Break, Nil), 0, Clear(s)) == Some((broken, 0));
    }
  }

  // A top-level line leaves the flags clear iff it does not jump.
  lemma LineClearsFlagsIff<S>(m: Machine<S>, fuel: nat, line: Jobs, s: S)
    requires CleanJobs(line) && SemJobs(m, fuel, line, 0, s).Some?
    ensures var r := FlagJobs(m, fuel, line, 0, Clear(s));
            r.Some? && (!r.value.0.Set() <==> SemJobs(m, fuel, line, 0, s).value.Done?)
    ensures !JobsMayJump(line) ==> !FlagJobs(m, fuel, line, 0, Clear(s)).value.0.Set()
  {
    JobsAgree(m, fuel, line, 0, s);
  }

  function ZeroStatus<S>(m: Machine<S>, n: nat, s: S): S {
    if n == 0 then s else ZeroStatus(m, n - 1, m.setStatus(0, s))
  }

  /** Nothing clears a flag outside a loop body: after a top-level break or continue, every later
      line of the session is skipped whole, and only $? is set, to 0. */
  lemma {:induction false} FlaggedSessionIsStuck<S>(m: Machine<S>, fuel: nat, lines: seq<Jobs>, g: Flagged<S>)
    requires g.Set()
    ensures FlagSession(m, fuel, lines, g) == Some(g.(s := ZeroStatus(m, |lines|, g.s)))
    decreases |lines|
  {
    if lines != [] {
      FlaggedJobsSkip(m, fuel, lines[0], 0, g);
      FlaggedSessionIsStuck(m, fuel, lines[1..], g.(s := m.setStatus(0, g.s)));
    }
  }

  function SemSession<S>(m: Machine<S>, fuel: nat, lines: seq<Jobs>, s: S): Option<S> {
    if lines == [] then Some(s) else
    var o :- SemJobs(m, fuel, lines[0], 0, s);
    SemSession(m, fuel, lines[1..], m.setStatus(if o.Done? then o.rc else 0, o.s))
  }

  // Without a top-level jump a whole session behaves as the structured semantics says.
  lemma {:induction false} SessionAgrees<S>(m: Machine<S>, fuel: nat, lines: seq<Jobs>, s: S)
    requires forall l | l in lines :: CleanJobs(l) && !JobsMayJump(l)
    ensures var o := SemSession(m, fuel, lines, s);
            FlagSession(m, fuel, lines, Clear(s)) == (if o.None? then None else Some(Clear(o.value)))
    decreases |lines|
  {
    if lines != [] {
      JobsAgree(m, fuel, lines[0], 0, s);
      var o := SemJobs(m, fuel, lines[0], 0, s);
      if o.Some? {
        SessionAgrees(m, fuel, lines[1..], m.setStatus(o.value.rc, o.value.s));
      }
    }
  }

  // ----- Fuel only decides whether a run ends, never how -----

  lemma {:induction false} JobMore<S>(m: Machine<S>, fuel: nat, more: nat, job: Job, g: Flagged<S>)
    requires fuel <= more && FlagJob(m, fuel, job, g).Some?
    ensures FlagJob(m, more, job, g) == FlagJob(m, fuel, job, g)
    decreases fuel, job, 1, 0
  {
    if !g.Set() {
      match job {
        case Foreground(c) => CondMore(m, fuel, more, c, g);
        case Background(c) => if !(c.Single? && c.neg.Plain?) { CondMore(m, fuel, more, c, g); }
        case If(c, thn, els) =>
          CondMore(m, fuel, more, c, g);
          var (g1, rc) := FlagCond(m, fuel, c, g).value;
          if rc == 0 { JobsMore(m, fuel, more, thn, 0, g1); } else { ElseMore(m, fuel, more, els, g1); }
        case For(word, words, _) => ForMore(m, fuel, more, job, m.expand(word, g.s), words, 0, g);
        case While(_, _) => LoopMore(m, fuel, more, job, 0, g);
        case Until(_, _) => LoopMore(m, fuel, more, job, 0, g);
        case _ =>
      }
    }
  }

  lemma {:induction false} JobsMore<S>(m: Machine<S>, fuel: nat, more: nat, jobs: Jobs, rc: int, g: Flagged<S>)
    requires fuel <= more
    ensures FlagJobs(m, fuel, jobs, rc, g).Some? ==> FlagJobs(m, more, jobs, rc, g) == FlagJobs(m, fuel, jobs, rc, g)
    ensures FlagBody(m, fuel, jobs, rc, g).Some? ==> FlagBody(m, more, jobs, rc, g) == FlagBody(m, fuel, jobs, rc, g)
    decreases fuel, jobs, 0, 0
  {
    if jobs.Cons? && FlagJob(m, fuel, jobs.job, g).Some? {
      JobMore(m, fuel, more, jobs.job, g);
      var (g1, rc1) := FlagJob(m, fuel, jobs.job, g).value;
      JobsMore(m, fuel, more, jobs.rest, rc1, g1);
    }
  }

  lemma {:induction false} ForMore<S>(m: Machine<S>, fuel: nat, more: nat, job: Job, name: string,
                                      words: seq<string>, ret: int, g: Flagged<S>)
    requires job.For? && fuel <= more && FlagFor(m, fuel, job, name, words, ret, g).Some?
    ensures FlagFor(m, more, job, name, words, ret, g) == FlagFor(m, fuel, job, name, words, ret, g)
    decreases fuel, job, 0, |words|
  {
    if words != [] {
      var g0 := g.(s := m.bind(name, m.expand(words[0], g.s), g.s));
      JobsMore(m, fuel, more, job.body, ret, g0);
      var (g1, ret1) := FlagBody(m, fuel, job.body, ret, g0).value;
      if !g1.brk { ForMore(m, fuel, more, job, name, words[1..], ret1, g1.(cont := false)); }
    }
  }

  lemma {:induction false} LoopMore<S>(m: Machine<S>, fuel: nat, more: nat, job: Job, ret: int, g: Flagged<S>)
    requires (job.While? || job.Until?) && fuel <= more && FlagLoop(m, fuel, job, ret, g).Some?
    ensures FlagLoop(m, more, job, ret, g) == FlagLoop(m, fuel, job, ret, g)
    decreases fuel, job, 0, 0
  {
    CondMore(m, fuel, more, job.cond, g);
    var (g0, rc) := FlagCond(m, fuel, job.cond, g).value;
    if (rc == 0) == job.While? {
      JobsMore(m, fuel, more, job.body, ret, g0);
      var (g1, ret1) := FlagBody(m, fuel, job.body, ret, g0).value;
      if !g1.brk { LoopMore(m, fuel - 1, more - 1, job, ret1, g1.(cont := false)); }
    }
  }

  lemma {:induction false} ElseMore<S>(m: Machine<S>, fuel: nat, more: nat, els: OptElse, g: Flagged<S>)
    requires fuel <= more && FlagElse(m, fuel, els, true, g).Some?
    ensures FlagElse(m, more, els, true, g) == FlagElse(m, fuel, els, true, g)
    decreases fuel, els, 0, 0
  {
    match els {
      case NoElse =>
      case Else(body) => JobsMore(m, fuel, more, body, 0, g);
      case Elif(c, thn, rest) =>
        CondMore(m, fuel, more, c, g);
        var (g1, rc) := FlagCond(m, fuel, c, g).value;
        if rc == 0 { JobsMore(m, fuel, more, thn, 0, g1); } else { ElseMore(m, fuel, more, rest, g1); }
    }
  }

  lemma {:induction false} CondMore<S>(m: Machine<S>, fuel: nat, more: nat, c: Condition, g: Flagged<S>)
    requires fuel <= more && FlagCond(m, fuel, c, g).Some?
    ensures FlagCond(m, more, c, g) == FlagCond(m, fuel, c, g)
    decreases fuel, c, 0, 0
  {
    var n := if c.Single? then c.neg else c.left;
    NegMore(m, fuel, more, n, g);
    var (g1, rc) := FlagNeg(m, fuel, n, g).value;
    if (c.And? && rc == 0) || (c.Or? && rc != 0) { CondMore(m, fuel, more, c.right, g1); }
  }

  lemma {:induction false} NegMore<S>(m: Machine<S>, fuel: nat, more: nat, n: NegCmd, g: Flagged<S>)
    requires fuel <= more && FlagNeg(m, fuel, n, g).Some?
    ensures FlagNeg(m, more, n, g) == FlagNeg(m, fuel, n, g)
    decreases fuel, n, 0, 0
  {
    match n {
      case Plain(_) =>
      case Not(inner) => NegMore(m, fuel, more, inner, g);
      case Time(inner) => NegMore(m, fuel, more, inner, g);
      case Subshell(jobs) => if m.fate(jobs, g.s).Exits? { JobsMore(m, fuel, more, jobs, 0, g); }
      case Group(jobs) => JobsMore(m, fuel, more, jobs, 0, g);
    }
  }

  /** The evaluator ends, in this state with this status: a statement without fuel. */
  ghost predicate Ends<S(!new)>(m: Machine<S>, job: Job, s: S, g: Flagged<S>, rc: int) {
    exists fuel: nat :: FlagJob(m, fuel, job, Clear(s)) == Some((g, rc))
  }

  ghost predicate Means<S(!new)>(m: Machine<S>, job: Job, s: S, o: Outcome<S>) {
    exists fuel: nat :: SemJob(m, fuel, job, s) == Some(o)
  }

  // A run ends in at most one way.
  lemma EndsOnce<S(!new)>(m: Machine<S>, job: Job, s: S, g: Flagged<S>, rc: int, g': Flagged<S>, rc': int)
    requires Ends(m, job, s, g, rc) && Ends(m, job, s, g', rc')
    ensures g' == g && rc' == rc
  {
    var f: nat :| FlagJob(m, f, job, Clear(s)) == Some((g, rc));
    var f': nat :| FlagJob(m, f', job, Clear(s)) == Some((g', rc'));
    if f <= f' { JobMore(m, f, f', job, Clear(s)); } else { JobMore(m, f', f, job, Clear(s)); }
  }

  /** For every clean program, the evaluator ends in a state iff the structured semantics gives
      the outcome which that state represents; and it ends in at most one way. */
  lemma EvaluatorImplementsSemantics<S(!new)>(m: Machine<S>, job: Job, s: S, g: Flagged<S>, rc: int)
    requires Clean(job)
    ensures Ends(m, job, s, g, rc) <==> exists o :: Means(m, job, s, o) && AsFlags(o) == (g, rc)
    ensures forall g', rc' :: Ends(m, job, s, g, rc) && Ends(m, job, s, g', rc') ==> g' == g && rc' == rc
  {
    hide FlagJob, SemJob, Clean;
    if Ends(m, job, s, g, rc) {
      var fuel: nat :| FlagJob(m, fuel, job, Clear(s)) == Some((g, rc));
      JobAgrees(m, fuel, job, s);
      assert Means(m, job, s, SemJob(m, fuel, job, s).value);
    }
    if o :| Means(m, job, s, o) && AsFlags(o) == (g, rc) {
      var fuel: nat :| SemJob(m, fuel, job, s) == Some(o);
      JobAgrees(m, fuel, job, s);
      assert FlagJob(m, fuel, job, Clear(s)) == Some((g, rc));
    }
    forall g', rc' | Ends(m, job, s, g, rc) && Ends(m, job, s, g', rc') ensures g' == g && rc' == rc {
      EndsOnce(m, job, s, g, rc, g', rc');
    }
  }
}
