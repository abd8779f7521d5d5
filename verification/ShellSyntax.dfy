/** The abstract syntax that the shell's evaluator walks, constructor by constructor as in
    bnfc/Grammar.cf, and the environment that simple commands act on. */
module ShellSyntax {

  // The text of a pipeline with its redirections; what it does is given by a Machine.
  type Command = string

  datatype Jobs = Nil | Cons(job: Job, rest: Jobs)

  datatype Job =
    | Foreground(cond: Condition)
    | Background(cond: Condition)
    | Assign(raw: string)
    | If(cond: Condition, thn: Jobs, els: OptElse)
    | For(word: string, words: seq<string>, body: Jobs)
    | While(cond: Condition, body: Jobs)
    | Until(cond: Condition, body: Jobs)
    | Break
    | Continue

  datatype OptElse =
    | NoElse
    | Else(body: Jobs)
    | Elif(cond: Condition, thn: Jobs, els: OptElse)

  datatype Condition =
    | Single(neg: NegCmd)
    | And(left: NegCmd, right: Condition)
    | Or(left: NegCmd, right: Condition)

  datatype NegCmd =
    | Plain(command: Command)
    | Not(neg: NegCmd)
    | Time(neg: NegCmd)
    | Subshell(jobs: Jobs)
    | Group(jobs: Jobs)

  // What becomes of a subshell: it runs to its exit, or the fork failed or a signal killed the child.
  datatype Fate<!S> = Exits | Lost(s: S)

  /** Everything the evaluator calls but does not define. S is all state other than the two
      flags: variables, $?, the working directory, files and the terminal. */
  datatype Machine<!S> = Machine(
    run: (Command, S) -> (S, int),       // a foreground pipeline and its exit status
    launch: (Command, S) -> (S, int),    // the same command with a trailing &
    assign: (string, S) -> S,            // NAME=VALUE, or nothing when there is no '='
    expand: (string, S) -> string,       // expand_and_unquote
    bind: (string, string, S) -> S,      // setenv and var_set of the loop variable
    setStatus: (int, S) -> S,            // g_last_status
    fate: (Jobs, S) -> Fate<S>,          // a lost child may have left any effects outside the shell
    rejoin: (S, S) -> S)                 // the parent's own state and the child's last one
}
