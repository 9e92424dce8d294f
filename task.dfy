/** A task of src/task.ts: its constructor defaults, the normalisation of a
    command into one shell line, and running the commands in order with the
    subprocess given as an oracle. */
module Tasks {
  import opened Records
  import opened Strings
  import opened Values

  /** Environment variables handed to a subprocess. */
  type Env = map<string, string>

  /** What the shell reports for one command: its exit code and its combined
      stdout/stderr bytes. */
  datatype ExecResult = ExecResult(code: int, output: seq<Byte>)

  /** The subprocess: what running a shell line under an environment yields. */
  type Exec = (string, Env) -> ExecResult

  /** What can be observed while tasks run, in order: a command echoed to the
      console, a shell line executed under an environment, a task body about to
      run, the code generation pipeline invoked, an error logged. */
  datatype Event =
    | Echo(text: string)
    | Exec(cmd: string, env: Env)
    | Started(task: string)
    | Generate
    | Log(msg: string)

  /** The only runner, `TaskRunner.Dax`. */
  const Dax := "dax"

  /** `{ cmd, output }` recorded for a captured command. */
  datatype CmdOutput = CmdOutput(cmd: string, output: seq<Byte>)

  /** Why `Task.run` throws: a command exited non-zero (`RunError` with that
      code), or the runner is not `dax` (the runner's string form is the one
      in the message). */
  datatype TaskError = RunError(code: int) | UnknownRunner(runner: string)

  /** How `Task.run` ends: the capture record, or the error it throws. */
  datatype Outcome = Completed(output: Rec<CmdOutput>) | Failed(error: TaskError)

  /** `{ capture, quiet }` of the options passed to `Task.run`. */
  datatype RunOptions = RunOptions(capture: bool, quiet: bool)

  // ---------------------------------------------------------------------------
  // reading a task definition

  /** `def[name]` for a task definition: the entry's value on an object,
      `undefined` for a missing entry and for any other kind of value (a
      string, number or list has no such own property). */
  function Field(def: Value, name: string): (v: Value)
    ensures !def.Obj? ==> v == Undefined
  {
    if def.Obj? then EntryValue(def.entries, name) else Undefined
  }

  /** The value of the last entry named `name`, or `undefined`. */
  function EntryValue(entries: seq<(string, Value)>, name: string): (v: Value)
    ensures (forall i :: 0 <= i < |entries| ==> entries[i].0 != name) ==> v == Undefined
    ensures |entries| > 0 && entries[|entries| - 1].0 == name ==> v == entries[|entries| - 1].1
  {
    if |entries| == 0 then Undefined
    else if entries[|entries| - 1].0 == name then entries[|entries| - 1].1
    else EntryValue(entries[..|entries| - 1], name)
  }

  /** The strings a list-valued field iterates over. */
  function StringsOf(v: Value): (r: seq<string>)
    ensures v.Arr? ==> |r| == |v.items|
    ensures !v.Arr? ==> r == []
  {
    if v.Arr? then ArrayElementStrings(v.items) else []
  }

  /** The fields of a task built from `def`: each takes the definition's
      value when that is truthy, else its default (`"dax"`, `""`, `[]`, `[]`). */
  predicate BuiltFrom(t: Task, def: Value) {
    && t.runner == (if Truthy(Field(def, "runner")) then Field(def, "runner") else Str(Dax))
    && t.description == (if Truthy(Field(def, "description")) then Field(def, "description") else Str(""))
    && t.deps == (if Truthy(Field(def, "deps")) then StringsOf(Field(def, "deps")) else [])
    && t.cmds == (if Truthy(Field(def, "cmds")) then StringsOf(Field(def, "cmds")) else [])
  }

  /** A definition without fields, `{}` or a list, gives the defaults: the
      `dax` runner, no deps, no commands and an empty description. */
  lemma BuiltFromEmpty(t: Task, def: Value)
    requires def == Obj([]) || def.Arr? || def.Str?
    requires BuiltFrom(t, def)
    ensures t.runner == Str(Dax) && t.deps == [] && t.cmds == [] && t.description == Str("")
  {
  }

  /** A definition whose `cmds` is a list of strings gives those commands, in
      order, and keeps the defaults for the other fields; an empty list is
      truthy and gives no commands. */
  lemma BuiltFromCmds(t: Task, cmds: seq<string>)
    requires BuiltFrom(t, Obj([("cmds", Arr(seq(|cmds|, i requires 0 <= i < |cmds| => Str(cmds[i]))))]))
    ensures t.cmds == cmds && t.runner == Str(Dax) && t.deps == []
  {
    var items := seq(|cmds|, i requires 0 <= i < |cmds| => Str(cmds[i]));
    assert Field(Obj([("cmds", Arr(items))]), "cmds") == Arr(items);
  }

  /** A task object; it is never changed after construction. */
  class Task {
    const runner: Value
    const description: Value
    const deps: seq<string>
    const cmds: seq<string>

    /** `new Task(def)`. A `null` definition makes the constructor throw, so
        it is excluded here and reported by the caller. */
    constructor (def: Value)
      requires def != Null
      ensures BuiltFrom(this, def)
    {
      var r := Field(def, "runner");
      var d := Field(def, "description");
      var ds := Field(def, "deps");
      var cs := Field(def, "cmds");
      runner := if Truthy(r) then r else Str(Dax);
      description := if Truthy(d) then d else Str("");
      deps := if Truthy(ds) then StringsOf(ds) else [];
      cmds := if Truthy(cs) then StringsOf(cs) else [];
    }

    /** What `task.run(opts)` shows: the echoes and executions of the
        commands it gets to run, and nothing for an unknown runner. */
    function Trace(opts: RunOptions, env: Env, exec: Exec): (r: seq<Event>)
      ensures forall i :: 0 <= i < |r| ==> r[i].Echo? || r[i].Exec?
      ensures runner != Str(Dax) ==> r == []
    {
      if runner == Str(Dax) then
        var ps := PrepareAll(cmds);
        CmdEvents(ps[..Executed(ps, env, exec)], opts, env)
      else []
    }

    /** How `task.run(opts)` settles: with the `dax` runner, `RunError` with
        the exit code of the first failing command, or the capture record
        (empty without capture); any other runner, `unknown runner`. */
    function Result(opts: RunOptions, env: Env, exec: Exec): Outcome {
      if runner == Str(Dax) then
        var ps := PrepareAll(cmds);
        var n := FirstFailure(ps, env, exec);
        if n < |ps| then Failed(RunError(exec(ps[n].line, env).code))
        else Completed(if opts.capture then Captured(ps, env, exec) else Empty())
      else Failed(UnknownRunner(ToJsString(runner)))
    }

    /** `task.run(opts)`: with the `dax` runner, runs the commands in order,
        stops at the first non-zero exit with `RunError(code)`, and otherwise
        returns the capture record (empty without capture). Any other runner
        throws before anything runs. */
    method Run(opts: RunOptions, env: Env, exec: Exec) returns (outcome: Outcome, trace: seq<Event>)
      ensures trace == Trace(opts, env, exec) && outcome == Result(opts, env, exec)
      ensures runner != Str(Dax) ==> outcome == Failed(UnknownRunner(ToJsString(runner)))
      ensures runner == Str(Dax) ==>
        var ps := PrepareAll(cmds);
        var n := FirstFailure(ps, env, exec);
        && (n < |ps| ==> outcome == Failed(RunError(exec(ps[n].line, env).code)))
        && (n == |ps| ==> outcome == Completed(if opts.capture then Captured(ps, env, exec) else Empty()))
    {
      var output := Empty<CmdOutput>();
      if runner == Str(Dax) {
        ghost var ps := PrepareAll(cmds);
        trace := [];
        for i := 0 to |cmds|
          invariant i <= FirstFailure(ps, env, exec)
          invariant trace == CmdEvents(ps[..i], opts, env)
          invariant opts.capture ==> output == Captured(ps[..i], env, exec)
          invariant !opts.capture ==> output == Empty()
        {
          var result, events;
          result, output, events := RunCommand(cmds[i], opts, env, exec, output);
          trace := trace + events;
          CmdEventsStep(ps, opts, env, i);
          if opts.capture {
            CapturedStep(ps, env, exec, i);
          }
          FirstFailureStep(ps, env, exec, i);
          if result.code != 0 {
            outcome := Failed(RunError(result.code));
            return;
          }
        }
        assert ps[..|cmds|] == ps;
        outcome := Completed(output);
        return;
      }
      outcome := Failed(UnknownRunner(ToJsString(runner)));
      trace := [];
    }
  }

  /** One pass of the command loop: trims the command, echoes it unless
      capturing or quiet, executes its shell line and, when capturing,
      records `{ cmd, output }` under the shell line. */
  method RunCommand(cmd: string, opts: RunOptions, env: Env, exec: Exec, output: Rec<CmdOutput>)
    returns (result: ExecResult, output': Rec<CmdOutput>, events: seq<Event>)
    ensures result == exec(Prepare(cmd).line, env)
    ensures events == StepEvents(Prepare(cmd), opts, env)
    ensures opts.capture ==> output' == output.Put(Prepare(cmd).line, CmdOutput(Prepare(cmd).text, result.output))
    ensures !opts.capture ==> output' == output
  {
    var c := Trim(cmd);
    var joined := Join(TrimAll(Split(c, '\n')), " ");
    output' := output;
    events := [];
    if opts.capture {
      result := exec(joined, env);
      output' := output'.Put(joined, CmdOutput(c, result.output));
      events := events + [Exec(joined, env)];
    } else {
      if !opts.quiet {
        events := events + [Echo(c)];
      }
      result := exec(joined, env);
      events := events + [Exec(joined, env)];
    }
  }

  // ---------------------------------------------------------------------------
  // command normalisation

  function TrimAll(lines: seq<string>): (r: seq<string>)
    ensures |r| == |lines|
    ensures forall i :: 0 <= i < |lines| ==> r[i] == Trim(lines[i])
  {
    if |lines| == 0 then [] else [Trim(lines[0])] + TrimAll(lines[1..])
  }

  /** The shell line a command runs as: trimmed, then each of its lines
      trimmed, and the lines joined with one space. */
  function Normalize(c: string): string {
    Join(TrimAll(Split(Trim(c), '\n')), " ")
  }

  /** Joining pieces free of `x` with a separator free of `x` gives a string
      free of `x`. */
  lemma {:induction false} JoinAvoids(parts: seq<string>, sep: string, x: char)
    requires x !in sep
    requires forall i :: 0 <= i < |parts| ==> x !in parts[i]
    ensures x !in Join(parts, sep)
  {
    if |parts| > 1 {
      JoinAvoids(parts[1..], sep, x);
      assert Join(parts, sep) == parts[0] + sep + Join(parts[1..], sep);
    }
  }

  /** The line a command runs as holds no line break. */
  lemma NormalizeSingleLine(c: string)
    ensures '\n' !in Normalize(c)
  {
    var pieces := Split(Trim(c), '\n');
    var lines := TrimAll(pieces);
    forall i | 0 <= i < |lines| ensures '\n' !in lines[i] {
      if '\n' in lines[i] {
        TrimWithin(pieces[i], '\n');
      }
    }
    JoinAvoids(lines, " ", '\n');
  }

  /** A command already on one trimmed line runs as written. */
  lemma NormalizeOneLine(c: string)
    requires '\n' !in c
    requires c == [] || (!IsSpace(c[0]) && !IsSpace(c[|c| - 1]))
    ensures Normalize(c) == c
  {
    TrimOfTrimmed(c);
    assert Split(c, '\n') == [c];
  }

  // ---------------------------------------------------------------------------
  // what a run does

  /** A command as the loop prepares it: the trimmed text that is echoed and
      recorded, and the shell line that is executed. */
  datatype Prepared = Prepared(text: string, line: string)

  function Prepare(c: string): Prepared {
    Prepared(Trim(c), Normalize(c))
  }

  function PrepareAll(cmds: seq<string>): (r: seq<Prepared>)
    ensures |r| == |cmds|
    ensures forall i :: 0 <= i < |cmds| ==> r[i] == Prepare(cmds[i])
  {
    seq(|cmds|, i requires 0 <= i < |cmds| => Prepare(cmds[i]))
  }

  /** The index of the first command that exits non-zero, or `|ps|`. */
  function FirstFailure(ps: seq<Prepared>, env: Env, exec: Exec): (n: nat)
    ensures n <= |ps|
    ensures forall i :: 0 <= i < n ==> exec(ps[i].line, env).code == 0
    ensures n < |ps| ==> exec(ps[n].line, env).code != 0
  {
    if |ps| == 0 then 0
    else if exec(ps[0].line, env).code != 0 then 0
    else 1 + FirstFailure(ps[1..], env, exec)
  }

  /** How many commands a run executes: up to and including the first that
      fails, or all of them. */
  function Executed(ps: seq<Prepared>, env: Env, exec: Exec): (m: nat)
    ensures m <= |ps|
  {
    var n := FirstFailure(ps, env, exec);
    if n < |ps| then n + 1 else n
  }

  /** What running one command shows: the echo of its trimmed text unless
      capturing or quiet, then the execution of its shell line. */
  function StepEvents(p: Prepared, opts: RunOptions, env: Env): seq<Event> {
    (if !opts.capture && !opts.quiet then [Echo(p.text)] else []) + [Exec(p.line, env)]
  }

  /** What running the given commands one after another shows. */
  function CmdEvents(ps: seq<Prepared>, opts: RunOptions, env: Env): (r: seq<Event>)
    ensures forall i :: 0 <= i < |r| ==> r[i].Echo? || r[i].Exec?
  {
    if |ps| == 0 then []
    else CmdEvents(ps[..|ps| - 1], opts, env) + StepEvents(ps[|ps| - 1], opts, env)
  }

  /** The events grow by one step per command, as the loop produces them. */
  lemma CmdEventsStep(ps: seq<Prepared>, opts: RunOptions, env: Env, i: nat)
    requires i < |ps|
    ensures CmdEvents(ps[..i + 1], opts, env) == CmdEvents(ps[..i], opts, env) + StepEvents(ps[i], opts, env)
  {
    assert ps[..i + 1][..i] == ps[..i];
  }

  /** A command before the first failure that exits zero lets the run go on;
      one that exits non-zero is the first failure. */
  lemma FirstFailureStep(ps: seq<Prepared>, env: Env, exec: Exec, i: nat)
    requires i < |ps| && i <= FirstFailure(ps, env, exec)
    ensures exec(ps[i].line, env).code == 0 ==> i + 1 <= FirstFailure(ps, env, exec)
    ensures exec(ps[i].line, env).code != 0 ==> i == FirstFailure(ps, env, exec) && Executed(ps, env, exec) == i + 1
  {
  }

  /** Echoing run: command `i` is echoed at `2i` and executed at `2i + 1`, so
      each echo comes right before its own command and the commands keep
      their order. */
  lemma {:induction false} CmdEventsEchoed(ps: seq<Prepared>, opts: RunOptions, env: Env)
    requires !opts.capture && !opts.quiet
    ensures |CmdEvents(ps, opts, env)| == 2 * |ps|
    ensures forall i :: 0 <= i < |ps| ==>
      CmdEvents(ps, opts, env)[2 * i] == Echo(ps[i].text)
      && CmdEvents(ps, opts, env)[2 * i + 1] == Exec(ps[i].line, env)
  {
    if |ps| > 0 {
      var init := ps[..|ps| - 1];
      CmdEventsEchoed(init, opts, env);
      assert forall i :: 0 <= i < |init| ==> init[i] == ps[i];
    }
  }

  /** Quiet or capturing run: nothing is echoed and command `i` is executed
      at `i`. */
  lemma {:induction false} CmdEventsSilent(ps: seq<Prepared>, opts: RunOptions, env: Env)
    requires opts.capture || opts.quiet
    ensures |CmdEvents(ps, opts, env)| == |ps|
    ensures forall i :: 0 <= i < |ps| ==> CmdEvents(ps, opts, env)[i] == Exec(ps[i].line, env)
  {
    if |ps| > 0 {
      var init := ps[..|ps| - 1];
      CmdEventsSilent(init, opts, env);
      assert forall i :: 0 <= i < |init| ==> init[i] == ps[i];
    }
  }

  /** The pairs a capturing run assigns, one per command, in order. */
  function CapturePairs(ps: seq<Prepared>, env: Env, exec: Exec): (r: seq<(string, CmdOutput)>)
    ensures |r| == |ps|
    ensures forall i :: 0 <= i < |ps| ==>
      r[i] == (ps[i].line, CmdOutput(ps[i].text, exec(ps[i].line, env).output))
  {
    seq(|ps|, i requires 0 <= i < |ps| => (ps[i].line, CmdOutput(ps[i].text, exec(ps[i].line, env).output)))
  }

  /** The capture record after running all of `ps`. */
  function Captured(ps: seq<Prepared>, env: Env, exec: Exec): (r: Rec<CmdOutput>)
    ensures r.Valid()
  {
    FromPairs(CapturePairs(ps, env, exec))
  }

  /** The capture record holds an entry for every command run, keyed by its
      shell line and holding its trimmed text and output; when two commands
      run as the same shell line, the later one's entry is kept. */
  lemma CapturedAt(ps: seq<Prepared>, env: Env, exec: Exec, i: nat)
    requires i < |ps|
    requires forall j :: i < j < |ps| ==> ps[j].line != ps[i].line
    ensures ps[i].line in Captured(ps, env, exec).vals
    ensures Captured(ps, env, exec).vals[ps[i].line] == CmdOutput(ps[i].text, exec(ps[i].line, env).output)
  {
    FromPairsLastWins(CapturePairs(ps, env, exec), i);
  }

  /** Only shell lines of commands are keys of the capture record. */
  lemma CapturedKeys(ps: seq<Prepared>, env: Env, exec: Exec, k: string)
    ensures k in Captured(ps, env, exec).vals <==> exists i :: 0 <= i < |ps| && ps[i].line == k
  {
    var pairs := CapturePairs(ps, env, exec);
    if k in Captured(ps, env, exec).vals {
      var i :| 0 <= i < |pairs| && pairs[i].0 == k;
      assert ps[i].line == k;
    }
    if exists i :: 0 <= i < |ps| && ps[i].line == k {
      var i :| 0 <= i < |ps| && ps[i].line == k;
      assert pairs[i].0 == k;
    }
  }

  /** The capture record grows by one assignment per command, as the loop
      writes it. */
  lemma CapturedStep(ps: seq<Prepared>, env: Env, exec: Exec, i: nat)
    requires i < |ps|
    ensures Captured(ps[..i + 1], env, exec)
      == Captured(ps[..i], env, exec).Put(ps[i].line, CmdOutput(ps[i].text, exec(ps[i].line, env).output))
  {
    var p := CapturePairs(ps[..i + 1], env, exec);
    assert p[..i] == CapturePairs(ps[..i], env, exec);
  }
}
