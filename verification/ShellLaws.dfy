/** What the control structures make of plain commands, in terms of the commands' own effects: programs
    whose meaning can be written down without an evaluator. */
module ShellLaws {
  import opened Wrappers
  import opened ShellSyntax
  import opened ShellFlags
  import opened ShellSemantics

  function Cmd(x: Command): Condition {
    Single(Plain(x))
  }

  function Do(x: Command): Job {
    Foreground(Cmd(x))
  }

  // The state after a foreground command, and its status.
  function After<S>(m: Machine<S>, x: Command, s: S): S {
    m.setStatus(m.run(x, s).1, m.run(x, s).0)
  }

  /** && and || run their right command exactly if the left one succeeds, or fails, and ! turns success into
      1 and failure into 0. */
  lemma Connectives<S>(m: Machine<S>, fuel: nat, x: Command, y: Command, s: S)
    ensures var (s1, rc) := m.run(x, s); var (s2, rc2) := m.run(y, s1);
            && FlagCond(m, fuel, And(Plain(x), Cmd(y)), Clear(s))
               == Some(if rc == 0 then (Clear(s2), rc2) else (Clear(s1), rc))
            && FlagCond(m, fuel, Or(Plain(x), Cmd(y)), Clear(s))
               == Some(if rc == 0 then (Clear(s1), 0) else (Clear(s2), rc2))
            && FlagNeg(m, fuel, Not(Plain(x)), Clear(s)) == Some((Clear(s1), if rc == 0 then 1 else 0))
  {
    var (s1, rc) := m.run(x, s);
    assert FlagCond(m, fuel, Cmd(y), Clear(s1)) == FlagNeg(m, fuel, Plain(y), Clear(s1));
    assert FlagNeg(m, fuel, Plain(x), Clear(s)) == Some((Clear(s1), rc));
  }

  /** if runs the first branch exactly if its condition succeeds, and else the other one. */
  lemma IfRuns<S>(m: Machine<S>, fuel: nat, x: Command, y: Command, z: Command, s: S)
    ensures var (s1, rc) := m.run(x, s);
            FlagJob(m, fuel, If(Cmd(x), Cons(Do(y), Nil), Else(Cons(Do(z), Nil))), Clear(s))
            == Some((Clear(After(m, if rc == 0 then y else z, s1)), 0))
  {
    var (s1, rc) := m.run(x, s);
    DoRuns(m, fuel, y, s1);
    DoRuns(m, fuel, z, s1);
    assert FlagCond(m, fuel, Cmd(x), Clear(s)) == FlagNeg(m, fuel, Plain(x), Clear(s)) == Some((Clear(s1), rc));
  }

  lemma DoRuns<S>(m: Machine<S>, fuel: nat, x: Command, s: S)
    ensures FlagJob(m, fuel, Do(x), Clear(s)) == Some((Clear(After(m, x, s)), m.run(x, s).1))
    ensures FlagJobs(m, fuel, Cons(Do(x), Nil), 0, Clear(s)) == Some((Clear(After(m, x, s)), m.run(x, s).1))
    ensures forall ret :: FlagBody(m, fuel, Cons(Do(x), Nil), ret, Clear(s))
                          == Some((Clear(After(m, x, s)), m.run(x, s).1))
  {
    var (s1, rc) := m.run(x, s);
    assert FlagCond(m, fuel, Cmd(x), Clear(s)) == FlagNeg(m, fuel, Plain(x), Clear(s)) == Some((Clear(s1), rc));
    assert FlagJob(m, fuel, Do(x), Clear(s)) == Some((Clear(After(m, x, s)), rc));
  }

  // ----- Loops -----

  // The state after k turns of a loop that runs x as its condition and y as its body.
  function Turns<S>(m: Machine<S>, x: Command, y: Command, k: nat, s: S): S {
    if k == 0 then s else Turns(m, x, y, k - 1, After(m, y, m.run(x, s).0))
  }

  // The status of a loop after k turns.
  function LastOf<S>(m: Machine<S>, x: Command, y: Command, k: nat, ret: int, s: S): int {
    if k == 0 then ret else LastOf(m, x, y, k - 1, m.run(y, m.run(x, s).0).1, After(m, y, m.run(x, s).0))
  }

  /** A while goes on as long as its condition succeeds, and stops the first time it does not. */
  lemma {:induction false} WhileRuns<S>(m: Machine<S>, fuel: nat, x: Command, y: Command, k: nat, ret: int, s: S)
    requires fuel > k && m.run(x, Turns(m, x, y, k, s)).1 != 0
    requires forall j | 0 <= j < k :: m.run(x, Turns(m, x, y, j, s)).1 == 0
    ensures FlagLoop(m, fuel, While(Cmd(x), Cons(Do(y), Nil)), ret, Clear(s))
         == Some((Clear(m.run(x, Turns(m, x, y, k, s)).0), LastOf(m, x, y, k, ret, s)))
    decreases k
  {
    var (s1, rc) := m.run(x, s);
    assert FlagCond(m, fuel, Cmd(x), Clear(s)) == FlagNeg(m, fuel, Plain(x), Clear(s)) == Some((Clear(s1), rc));
    if k > 0 {
      assert Turns(m, x, y, 0, s) == s;
      DoRuns(m, fuel, y, s1);
      var s2 := After(m, y, s1);
      forall j | 0 <= j < k - 1 ensures m.run(x, Turns(m, x, y, j, s2)).1 == 0 {
        assert Turns(m, x, y, j + 1, s) == Turns(m, x, y, j, s2);
      }
      WhileRuns(m, fuel - 1, x, y, k - 1, m.run(y, s1).1, s2);
    }
  }

  /** until is while with its condition negated, whatever they contain. */
  lemma {:induction false} UntilIsWhileNot<S>(m: Machine<S>, fuel: nat, n: NegCmd, body: Jobs, ret: int, g: Flagged<S>)
    ensures FlagLoop(m, fuel, Until(Single(n), body), ret, g) == FlagLoop(m, fuel, While(Single(Not(n)), body), ret, g)
    decreases fuel
  {
    if fuel > 0 {
      assert FlagCond(m, fuel, Single(n), g) == FlagNeg(m, fuel, n, g);
      assert FlagCond(m, fuel, Single(Not(n)), g) == FlagNeg(m, fuel, Not(n), g);
      if FlagNeg(m, fuel, n, g).Some? {
        var (g0, rc) := FlagNeg(m, fuel, n, g).value;
        if rc != 0 && FlagBody(m, fuel, body, ret, g0).Some? {
          var (g1, ret1) := FlagBody(m, fuel, body, ret, g0).value;
          UntilIsWhileNot(m, fuel - 1, n, body, ret1, g1.(cont := false));
        }
      }
    }
  }

  // The state after a command was run for each word in turn, with the variable bound to it.
  function ForEach<S>(m: Machine<S>, name: string, words: seq<string>, x: Command, s: S): S {
    if words == [] then s
    else ForEach(m, name, words[1..], x, After(m, x, m.bind(name, m.expand(words[0], s), s)))
  }

  lemma {:induction false} ForLoopRuns<S>(m: Machine<S>, fuel: nat, job: Job, name: string, words: seq<string>,
                                          x: Command, ret: int, s: S)
    requires job.For? && job.body == Cons(Do(x), Nil)
    ensures var r := FlagFor(m, fuel, job, name, words, ret, Clear(s));
            r.Some? && r.value.0 == Clear(ForEach(m, name, words, x, s))
    decreases |words|
  {
    if words != [] {
      var s0 := m.bind(name, m.expand(words[0], s), s);
      DoRuns(m, fuel, x, s0);
      ForLoopRuns(m, fuel, job, name, words[1..], x, m.run(x, s0).1, After(m, x, s0));
    }
  }

  /** A for runs its body once for each word, in their order. */
  lemma ForRuns<S>(m: Machine<S>, fuel: nat, word: string, words: seq<string>, x: Command, s: S)
    ensures var r := FlagJob(m, fuel, For(word, words, Cons(Do(x), Nil)), Clear(s));
            r.Some? && r.value.0 == Clear(ForEach(m, m.expand(word, s), words, x, s))
  {
    ForLoopRuns(m, fuel, For(word, words, Cons(Do(x), Nil)), m.expand(word, s), words, x, 0, s);
  }

  // ----- break and continue -----

  lemma JumpBody<S>(m: Machine<S>, fuel: nat, x: Command, jump: Job, rest: Jobs, ret: int, s: S)
    requires jump.Break? || jump.Continue?
    ensures FlagBody(m, fuel, Cons(Do(x), Cons(jump, rest)), ret, Clear(s))
         == Some((Flagged(After(m, x, s), jump.Break?, jump.Continue?), 0))
  {
    DoRuns(m, fuel, x, s);
    var g := Clear(After(m, x, s));
    assert FlagBody(m, fuel, Cons(jump, rest), m.run(x, s).1, g)
        == Some((Flagged(g.s, jump.Break?, jump.Continue?), 0));
  }

  /** A break ends its loop at once: of a for only the first word is taken, and nothing behind the break is
      run. */
  lemma BreakEndsLoop<S>(m: Machine<S>, fuel: nat, word: string, words: seq<string>, x: Command, rest: Jobs, s: S)
    requires words != []
    ensures FlagJob(m, fuel, For(word, words, Cons(Do(x), Cons(Break, rest))), Clear(s))
         == Some((Clear(ForEach(m, m.expand(word, s), words[..1], x, s)), 0))
  {
    var name := m.expand(word, s);
    var s0 := m.bind(name, m.expand(words[0], s), s);
    JumpBody(m, fuel, x, Break, rest, 0, s0);
    assert words[..1][1..] == [] && words[..1][0] == words[0];
    assert ForEach(m, name, [], x, After(m, x, s0)) == After(m, x, s0);
  }

  lemma {:induction false} ContinueLoop<S>(m: Machine<S>, fuel: nat, job: Job, name: string, words: seq<string>,
                                           x: Command, rest: Jobs, ret: int, s: S)
    requires job.For? && job.body == Cons(Do(x), Cons(Continue, rest))
    ensures var r := FlagFor(m, fuel, job, name, words, ret, Clear(s));
            r.Some? && r.value.0 == Clear(ForEach(m, name, words, x, s))
    decreases |words|
  {
    if words != [] {
      var s0 := m.bind(name, m.expand(words[0], s), s);
      JumpBody(m, fuel, x, Continue, rest, ret, s0);
      ContinueLoop(m, fuel, job, name, words[1..], x, rest, 0, After(m, x, s0));
    }
  }

  /** A continue skips the rest of the body, and the loop goes on with the next word. */
  lemma ContinueSkipsRest<S>(m: Machine<S>, fuel: nat, word: string, words: seq<string>, x: Command, rest: Jobs, s: S)
    ensures var r := FlagJob(m, fuel, For(word, words, Cons(Do(x), Cons(Continue, rest))), Clear(s));
            r.Some? && r.value.0 == Clear(ForEach(m, m.expand(word, s), words, x, s))
  {
    ContinueLoop(m, fuel, For(word, words, Cons(Do(x), Cons(Continue, rest))), m.expand(word, s), words, x, rest, 0, s);
  }
}
