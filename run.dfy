/** The task runner of src/commands/run.ts: building task objects from the
    `tasks` map, choosing what to run, and walking the dependency graph with
    one shared set of visited names per invocation. */
module Executor {
  import opened Records
  import opened Strings
  import opened Values
  import opened ConfigUtils
  import opened Tasks

  /** Why a run stops: a missing task in strict mode (`task not defined`), a
      task that threw (`RunError` or `unknown runner`), the code generation
      pipeline failing, or a `null` task definition that the `Task`
      constructor cannot read. */
  datatype RunFailure =
    | TaskNotDefined(name: string)
    | TaskFailed(task: string, error: TaskError)
    | GenerateFailed(reason: string)
    | NullDefinition(key: string)

  /** What `parseTasks` ends with: the task map, or the key whose `null`
      definition made it throw. */
  datatype Parsed = TaskMap(tasks: Rec<Task>) | BadDefinition(key: string)

  /** `parseTasks`: `config.tasks ||= {}`, then the task map built from it. */
  method ParseTasks(config: Configuration) returns (r: Parsed)
    requires config.Valid()
    modifies config
    ensures config.Valid()
    ensures config.tasks == Some(OrEmpty(old(config.tasks)))
    ensures config.spec == old(config.spec) && config.config == old(config.config)
    ensures config.generates == old(config.generates)
    ensures Builds(config.tasks.value, r)
  {
    if config.tasks.None? {
      config.tasks := Some(Empty());
    }
    r := BuildTasks(config.tasks.value);
  }

  /** `r` is what building tasks from `defs` yields: a task map with exactly
      the keys of `defs`, each task read from its definition, when no
      definition is `null`; otherwise the first key, in key order, whose
      definition is `null`. */
  ghost predicate Builds(defs: Rec<Value>, r: Parsed)
    requires defs.Valid()
  {
    && (r.TaskMap? <==> forall k :: k in defs.vals ==> defs.vals[k] != Null)
    && (r.TaskMap? ==>
          && r.tasks.Valid() && r.tasks.keys == defs.keys
          && forall k :: k in r.tasks.vals ==> BuiltFrom(r.tasks.vals[k], defs.vals[k]))
    && (r.BadDefinition? ==>
          exists i :: (0 <= i < |defs.keys| && defs.keys[i] == r.key && defs.vals[r.key] == Null
            && forall j :: 0 <= j < i ==> defs.vals[defs.keys[j]] != Null))
  }

  /** The loop of `parseTasks`: one new task per key, in key order, under the
      same key; the `Task` constructor throws on a `null` definition. */
  method BuildTasks(defs: Rec<Value>) returns (r: Parsed)
    requires defs.Valid()
    ensures Builds(defs, r)
  {
    var taskMap := Empty<Task>();
    for i := 0 to |defs.keys|
      invariant taskMap.Valid() && taskMap.keys == defs.keys[..i]
      invariant forall k :: k in taskMap.vals ==> k in defs.vals && BuiltFrom(taskMap.vals[k], defs.vals[k])
      invariant forall j :: 0 <= j < i ==> defs.vals[defs.keys[j]] != Null
    {
      var key := defs.keys[i];
      var def := defs.vals[key];
      if def == Null {
        BuildsBad(defs, i);
        return BadDefinition(key);
      }
      var t := new Task(def);
      BuiltPut(defs, taskMap, i, t);
      taskMap := taskMap.Put(key, t);
    }
    BuildsAll(defs, taskMap);
    return TaskMap(taskMap);
  }

  lemma BuiltPut(defs: Rec<Value>, tm: Rec<Task>, i: nat, t: Task)
    requires defs.Valid() && i < |defs.keys|
    requires tm.Valid() && tm.keys == defs.keys[..i]
    requires forall k :: k in tm.vals ==> k in defs.vals && BuiltFrom(tm.vals[k], defs.vals[k])
    requires BuiltFrom(t, defs.vals[defs.keys[i]])
    ensures var tm' := tm.Put(defs.keys[i], t);
      && tm'.Valid() && tm'.keys == defs.keys[..i + 1]
      && forall k :: k in tm'.vals ==> k in defs.vals && BuiltFrom(tm'.vals[k], defs.vals[k])
  {
    var key := defs.keys[i];
    assert key !in tm.keys by {
      assert forall j :: 0 <= j < i ==> defs.keys[..i][j] == defs.keys[j];
    }
    assert defs.keys[..i + 1] == defs.keys[..i] + [key];
  }

  lemma BuildsBad(defs: Rec<Value>, i: nat)
    requires defs.Valid() && i < |defs.keys| && defs.vals[defs.keys[i]] == Null
    requires forall j :: 0 <= j < i ==> defs.vals[defs.keys[j]] != Null
    ensures Builds(defs, BadDefinition(defs.keys[i]))
  {
  }

  lemma BuildsAll(defs: Rec<Value>, tm: Rec<Task>)
    requires defs.Valid() && tm.Valid() && tm.keys == defs.keys[..|defs.keys|]
    requires forall k :: k in tm.vals ==> k in defs.vals && BuiltFrom(tm.vals[k], defs.vals[k])
    requires forall j :: 0 <= j < |defs.keys| ==> defs.vals[defs.keys[j]] != Null
    ensures Builds(defs, TaskMap(tm))
  {
    assert defs.keys[..|defs.keys|] == defs.keys;
    forall k | k in defs.vals ensures defs.vals[k] != Null {
      var j :| 0 <= j < |defs.keys| && defs.keys[j] == k;
    }
  }

  /** `loadTasks(config, options)`: the configuration the plugins derive
      (given here) is merged into `config`, whose tasks are then parsed. */
  method LoadTasks(config: Configuration, generated: Configuration) returns (r: Parsed)
    requires config.Valid() && generated.Valid()
    modifies config
    ensures config.Valid() && config.spec == old(config.spec)
    ensures config.config == Some(Merged(OrEmpty(old(config.config)), OrEmpty(old(generated.config))))
    ensures config.generates == Some(Merged(OrEmpty(old(config.generates)), OrEmpty(old(generated.generates))))
    ensures config.tasks == Some(Merged(OrEmpty(old(config.tasks)), OrEmpty(old(generated.tasks))))
    ensures Builds(config.tasks.value, r)
    ensures Snap(config) == Loaded(old(Snap(config)), old(Snap(generated)))
  {
    var updated := MergeConfigurations(config, generated);
    r := ParseTasks(updated);
  }

  /** The task definitions `loadTasks` leaves in `config`. */
  ghost function MergedTasks(config: Configuration, generated: Configuration): Rec<Value>
    reads config, generated
    requires config.Valid() && generated.Valid()
  {
    Merged(OrEmpty(config.tasks), OrEmpty(generated.tasks))
  }

  /** `config.config` as the value `flatten` receives. */
  function ConfigValue(config: Option<Rec<Value>>): Value
    requires config.Some? ==> config.value.Valid()
  {
    if config.Some? then ObjOf(config.value) else Undefined
  }

  /** The environment of every task: `apex_spec` set to the spec path, then
      every variable `flatten("apex_config", config.config)` produces. */
  function TaskEnv(spec: string, config: Option<Rec<Value>>): Env
    requires config.Some? ==> config.value.Valid()
  {
    map["apex_spec" := spec] + Flatten("apex_config", ConfigValue(config))
  }

  /** The flattened names all start with `apex_config`, so they never hide
      `apex_spec`: the environment holds the spec path and exactly the
      flattened configuration besides. */
  lemma TaskEnvSpec(spec: string, config: Option<Rec<Value>>)
    requires config.Some? ==> config.value.Valid()
    ensures var env := TaskEnv(spec, config);
      && "apex_spec" in env && env["apex_spec"] == spec
      && (forall k :: k in env <==> k == "apex_spec" || k in Flatten("apex_config", ConfigValue(config)))
      && forall k :: k in Flatten("apex_config", ConfigValue(config)) ==>
           env[k] == Flatten("apex_config", ConfigValue(config))[k]
  {
    FlattenPrefixed("apex_config", ConfigValue(config));
    assert !StartsWith("apex_spec", "apex_config");
  }

  // ---------------------------------------------------------------------------
  // the walk of `run` over the dependency graph, as a function of its state

  /** What one `runTasks` invocation holds fixed: the task map, whether a
      missing task is an error, the quiet flag, the command oracle, the
      outcome of the code generation pipeline (None when it succeeds), and
      the `spec` and `config` fields of the configuration. */
  datatype Context = Context(tm: Rec<Task>, fatal: bool, quiet: bool, exec: Exec,
                             generate: Option<string>, spec: string, config: Option<Rec<Value>>)
  {
    ghost predicate Valid() {
      config.Some? ==> config.value.Valid()
    }

    /** The environment `run` builds for a task body. */
    function Env(): Env
      requires Valid()
    {
      TaskEnv(spec, config)
    }
  }

  /** The shared `hasRun` set, what has been observed, and the error `run`
      throws, if any. */
  datatype RunState = RunState(hasRun: set<string>, trace: seq<Event>, err: Option<RunFailure>)

  /** `run(config, hasRun, taskMap, name, ...)` from the given state. */
  function Visit(c: Context, name: string, hasRun: set<string>, trace: seq<Event>): (r: RunState)
    requires c.Valid()
    ensures hasRun + {name} <= r.hasRun && trace <= r.trace
    decreases c.tm.vals.Keys - hasRun, 0, 0
  {
    if name in hasRun then RunState(hasRun, trace, None)
    else if name in c.tm.vals then VisitFound(c, name, hasRun + {name}, trace)
    else if name == "generate" then
      RunState(hasRun + {name}, trace + [Generate],
               if c.generate.Some? then Some(GenerateFailed(c.generate.value)) else None)
    else RunState(hasRun + {name}, trace, if c.fatal then Some(TaskNotDefined(name)) else None)
  }

  /** The rest of `run` once a defined `name` is marked: its deps, then its
      own body. */
  function VisitFound(c: Context, name: string, hasRun: set<string>, trace: seq<Event>): (r: RunState)
    requires c.Valid()
    requires name in c.tm.vals && name in hasRun
    ensures hasRun <= r.hasRun && trace <= r.trace
    decreases c.tm.vals.Keys - hasRun, 2, 0
  {
    var t := c.tm.vals[name];
    var d := VisitDeps(c, name, 0, hasRun, trace);
    if d.err.Some? then d
    else
      var opts := RunOptions(false, c.quiet);
      var outcome := t.Result(opts, c.Env(), c.exec);
      RunState(d.hasRun, d.trace + [Started(name)] + t.Trace(opts, c.Env(), c.exec),
               if outcome.Failed? then Some(TaskFailed(name, outcome.error)) else None)
  }

  /** The loop of `run` over the deps of `name` from the `i`-th on. */
  function VisitDeps(c: Context, name: string, i: nat, hasRun: set<string>, trace: seq<Event>): (r: RunState)
    requires c.Valid()
    requires name in c.tm.vals && i <= |c.tm.vals[name].deps|
    ensures hasRun <= r.hasRun && trace <= r.trace
    decreases c.tm.vals.Keys - hasRun, 1, |c.tm.vals[name].deps| - i
  {
    if i == |c.tm.vals[name].deps| then RunState(hasRun, trace, None)
    else
      var s := Visit(c, c.tm.vals[name].deps[i], hasRun, trace);
      if s.err.Some? then s else VisitDeps(c, name, i + 1, s.hasRun, s.trace)
  }

  // ---------------------------------------------------------------------------
  // what the walk keeps

  /** The names still being visited (`open`) have been marked, every task
      body started so far belongs to a marked, defined name whose visit has
      finished, and no task body has started twice. */
  ghost predicate Memo(tm: Rec<Task>, hasRun: set<string>, open: set<string>, trace: seq<Event>) {
    && open <= hasRun
    && (forall i :: 0 <= i < |trace| && trace[i].Started? ==>
          trace[i].task in hasRun && trace[i].task !in open && trace[i].task in tm.vals)
    && (forall i, j :: 0 <= i < j < |trace| && trace[i].Started? && trace[j].Started? ==> trace[i].task != trace[j].task)
  }

  /** A ranking under which every defined dependency ranks below the task
      listing it; one exists exactly when the dependency graph has no cycle. */
  ghost predicate Ranked(tm: Rec<Task>, rank: string -> nat) {
    forall n, d :: n in tm.vals && d in tm.vals[n].deps && d in tm.vals ==> rank(d) < rank(n)
  }

  /** Every task body started after the bodies of all its defined deps. */
  ghost predicate DepsFirst(tm: Rec<Task>, trace: seq<Event>) {
    forall i, d ::
      (0 <= i < |trace| && trace[i].Started? && trace[i].task in tm.vals
        && d in tm.vals[trace[i].task].deps && d in tm.vals) ==> Started(d) in trace[..i]
  }

  /** Every marked, defined name whose visit has finished (is not `open`)
      has had its body started. */
  ghost predicate Settled(tm: Rec<Task>, hasRun: set<string>, open: set<string>, trace: seq<Event>) {
    forall n :: n in hasRun && n !in open && n in tm.vals ==> Started(n) in trace
  }

  /** The names still being visited (`open`) all rank above `name`. */
  ghost predicate Below(open: set<string>, rank: string -> nat, name: string) {
    forall o :: o in open ==> rank(name) < rank(o)
  }

  lemma DepsFirstPlain(tm: Rec<Task>, trace: seq<Event>, more: seq<Event>)
    requires DepsFirst(tm, trace)
    requires forall i :: 0 <= i < |more| ==> !more[i].Started?
    ensures DepsFirst(tm, trace + more)
  {
    var t := trace + more;
    forall i, d | 0 <= i < |t| && t[i].Started? && t[i].task in tm.vals
      && d in tm.vals[t[i].task].deps && d in tm.vals
      ensures Started(d) in t[..i]
    {
      assert i < |trace|;
      assert t[..i] == trace[..i];
    }
  }

  lemma DepsFirstStart(tm: Rec<Task>, trace: seq<Event>, name: string)
    requires DepsFirst(tm, trace) && name in tm.vals
    requires forall d :: d in tm.vals[name].deps && d in tm.vals ==> Started(d) in trace
    ensures DepsFirst(tm, trace + [Started(name)])
  {
    var t := trace + [Started(name)];
    forall i, d | 0 <= i < |t| && t[i].Started? && t[i].task in tm.vals
      && d in tm.vals[t[i].task].deps && d in tm.vals
      ensures Started(d) in t[..i]
    {
      if i < |trace| {
        assert t[..i] == trace[..i];
      } else {
        assert t[..i] == trace;
      }
    }
  }

  /** Starting `name` and appending the events of its body closes its
      visit: the invariant holds again without `name` open. */
  lemma FinishMemo(tm: Rec<Task>, hasRun: set<string>, open: set<string>, before: seq<Event>,
                   name: string, events: seq<Event>)
    requires Memo(tm, hasRun, open + {name}, before) && name in hasRun && name in tm.vals && name !in open
    requires forall i :: 0 <= i < |events| ==> !events[i].Started?
    ensures Memo(tm, hasRun, open, before + [Started(name)] + events)
  {
    var after := before + [Started(name)] + events;
    assert after == (before + [Started(name)]) + events;
  }

  /** A name once started stays started as the trace grows. */
  lemma StartedStays(trace: seq<Event>, more: seq<Event>, n: string)
    requires Started(n) in trace
    ensures Started(n) in trace + more
  {
    var i :| 0 <= i < |trace| && trace[i] == Started(n);
    assert (trace + more)[i] == Started(n);
  }

  /** Each visit keeps the invariant: marked names stay marked, and no body
      starts twice or for a missing name. */
  lemma {:induction false} VisitMemo(c: Context, name: string, hasRun: set<string>, trace: seq<Event>,
                                     open: set<string>)
    requires c.Valid()
    requires Memo(c.tm, hasRun, open, trace)
    ensures var r := Visit(c, name, hasRun, trace); Memo(c.tm, r.hasRun, open, r.trace)
    decreases c.tm.vals.Keys - hasRun, 0, 0
  {
    if name !in hasRun && name in c.tm.vals {
      FoundMemo(c, name, hasRun + {name}, trace, open);
    }
  }

  lemma {:induction false} FoundMemo(c: Context, name: string, hasRun: set<string>, trace: seq<Event>,
                                     open: set<string>)
    requires c.Valid()
    requires name in c.tm.vals && name in hasRun && name !in open
    requires Memo(c.tm, hasRun, open + {name}, trace)
    ensures var r := VisitFound(c, name, hasRun, trace); Memo(c.tm, r.hasRun, open, r.trace)
    decreases c.tm.vals.Keys - hasRun, 2, 0
  {
    DepsMemo(c, name, 0, hasRun, trace, open);
    var d := VisitDeps(c, name, 0, hasRun, trace);
    if d.err.None? {
      FinishMemo(c.tm, d.hasRun, open, d.trace, name, c.tm.vals[name].Trace(RunOptions(false, c.quiet), c.Env(), c.exec));
    }
  }

  lemma {:induction false} DepsMemo(c: Context, name: string, i: nat, hasRun: set<string>, trace: seq<Event>,
                                    open: set<string>)
    requires c.Valid()
    requires name in c.tm.vals && i <= |c.tm.vals[name].deps| && name in hasRun && name !in open
    requires Memo(c.tm, hasRun, open + {name}, trace)
    ensures var r := VisitDeps(c, name, i, hasRun, trace); Memo(c.tm, r.hasRun, open + {name}, r.trace)
    decreases c.tm.vals.Keys - hasRun, 1, |c.tm.vals[name].deps| - i
  {
    if i < |c.tm.vals[name].deps| {
      var d := c.tm.vals[name].deps[i];
      VisitMemo(c, d, hasRun, trace, open + {name});
      var s := Visit(c, d, hasRun, trace);
      if s.err.None? {
        DepsMemo(c, name, i + 1, s.hasRun, s.trace, open);
      }
    }
  }

  /** On an acyclic graph, a visit that succeeds settles every name it
      marked, each task body starting after those of its deps. */
  lemma {:induction false} VisitOrder(c: Context, name: string, hasRun: set<string>, trace: seq<Event>,
                                      open: set<string>, rank: string -> nat)
    requires c.Valid()
    requires Ranked(c.tm, rank) && (name in c.tm.vals ==> Below(open, rank, name))
    requires Settled(c.tm, hasRun, open, trace) && DepsFirst(c.tm, trace)
    ensures var r := Visit(c, name, hasRun, trace);
      r.err.None? ==> Settled(c.tm, r.hasRun, open, r.trace) && DepsFirst(c.tm, r.trace)
    decreases c.tm.vals.Keys - hasRun, 0, 0
  {
    if name !in hasRun && name in c.tm.vals {
      FoundOrder(c, name, hasRun + {name}, trace, open, rank);
    }
  }

  lemma {:induction false} FoundOrder(c: Context, name: string, hasRun: set<string>, trace: seq<Event>,
                                      open: set<string>, rank: string -> nat)
    requires c.Valid()
    requires name in c.tm.vals && name in hasRun
    requires Ranked(c.tm, rank) && Below(open, rank, name)
    requires Settled(c.tm, hasRun, open + {name}, trace) && DepsFirst(c.tm, trace)
    ensures var r := VisitFound(c, name, hasRun, trace);
      r.err.None? ==> Settled(c.tm, r.hasRun, open, r.trace) && DepsFirst(c.tm, r.trace)
    decreases c.tm.vals.Keys - hasRun, 2, 0
  {
    DepsOrder(c, name, 0, hasRun, trace, open, rank);
    var d := VisitDeps(c, name, 0, hasRun, trace);
    if d.err.None? {
      FinishOrder(c.tm, d.hasRun, open, d.trace, name, c.tm.vals[name].Trace(RunOptions(false, c.quiet), c.Env(), c.exec));
    }
  }

  /** Starting `name` once its defined deps have started, and appending the
      events of its body, settles `name` and keeps the order. */
  lemma FinishOrder(tm: Rec<Task>, hasRun: set<string>, open: set<string>, before: seq<Event>,
                    name: string, events: seq<Event>)
    requires name in tm.vals
    requires forall i :: 0 <= i < |events| ==> !events[i].Started?
    requires Settled(tm, hasRun, open + {name}, before) && DepsFirst(tm, before)
    requires forall d :: d in tm.vals[name].deps && d in tm.vals ==> Started(d) in before
    ensures Settled(tm, hasRun, open, before + [Started(name)] + events)
    ensures DepsFirst(tm, before + [Started(name)] + events)
  {
    DepsFirstStart(tm, before, name);
    DepsFirstPlain(tm, before + [Started(name)], events);
    var after := before + [Started(name)] + events;
    assert after == before + ([Started(name)] + events);
    assert Started(name) in after by {
      assert after[|before|] == Started(name);
    }
    forall n | n in hasRun && n !in open && n in tm.vals && n != name ensures Started(n) in after {
      StartedStays(before, [Started(name)] + events, n);
    }
  }

  /** The deps started before the `i`-th stay started once it has started
      too. */
  lemma StartedExtend(tm: Rec<Task>, deps: seq<string>, i: nat, trace: seq<Event>, later: seq<Event>)
    requires i < |deps| && trace <= later
    requires forall j :: 0 <= j < i && deps[j] in tm.vals ==> Started(deps[j]) in trace
    requires deps[i] in tm.vals ==> Started(deps[i]) in later
    ensures forall j :: 0 <= j < i + 1 && deps[j] in tm.vals ==> Started(deps[j]) in later
  {
    forall j | 0 <= j < i + 1 && deps[j] in tm.vals ensures Started(deps[j]) in later {
      if j < i {
        StartedStays(trace, later[|trace|..], deps[j]);
        assert trace + later[|trace|..] == later;
      }
    }
  }

  lemma {:induction false} DepsOrder(c: Context, name: string, i: nat, hasRun: set<string>, trace: seq<Event>,
                                     open: set<string>, rank: string -> nat)
    requires c.Valid()
    requires name in c.tm.vals && i <= |c.tm.vals[name].deps| && name in hasRun
    requires Ranked(c.tm, rank) && Below(open, rank, name)
    requires Settled(c.tm, hasRun, open + {name}, trace) && DepsFirst(c.tm, trace)
    requires forall j :: 0 <= j < i && c.tm.vals[name].deps[j] in c.tm.vals ==> Started(c.tm.vals[name].deps[j]) in trace
    ensures var r := VisitDeps(c, name, i, hasRun, trace);
      r.err.None? ==>
        && Settled(c.tm, r.hasRun, open + {name}, r.trace) && DepsFirst(c.tm, r.trace)
        && forall d :: d in c.tm.vals[name].deps && d in c.tm.vals ==> Started(d) in r.trace
    decreases c.tm.vals.Keys - hasRun, 1, |c.tm.vals[name].deps| - i
  {
    var deps := c.tm.vals[name].deps;
    if i < |deps| {
      var d := deps[i];
      VisitOrder(c, d, hasRun, trace, open + {name}, rank);
      var s := Visit(c, d, hasRun, trace);
      if s.err.None? {
        StartedExtend(c.tm, deps, i, trace, s.trace);
        DepsOrder(c, name, i + 1, s.hasRun, s.trace, open, rank);
      }
    } else {
      forall d | d in deps && d in c.tm.vals ensures Started(d) in trace {
        var j :| 0 <= j < |deps| && deps[j] == d;
      }
    }
  }

  /** Unless a missing task is an error, no visit fails for a missing task. */
  lemma {:induction false} VisitLenient(c: Context, name: string, hasRun: set<string>, trace: seq<Event>)
    requires c.Valid()
    requires !c.fatal
    ensures var r := Visit(c, name, hasRun, trace); r.err.None? || !r.err.value.TaskNotDefined?
    decreases c.tm.vals.Keys - hasRun, 0, 0
  {
    if name !in hasRun && name in c.tm.vals {
      DepsLenient(c, name, 0, hasRun + {name}, trace);
    }
  }

  lemma {:induction false} DepsLenient(c: Context, name: string, i: nat, hasRun: set<string>, trace: seq<Event>)
    requires c.Valid()
    requires !c.fatal && name in c.tm.vals && i <= |c.tm.vals[name].deps|
    ensures var r := VisitDeps(c, name, i, hasRun, trace); r.err.None? || !r.err.value.TaskNotDefined?
    decreases c.tm.vals.Keys - hasRun, 1, |c.tm.vals[name].deps| - i
  {
    if i < |c.tm.vals[name].deps| {
      var d := c.tm.vals[name].deps[i];
      VisitLenient(c, d, hasRun, trace);
      var s := Visit(c, d, hasRun, trace);
      if s.err.None? {
        DepsLenient(c, name, i + 1, s.hasRun, s.trace);
      }
    }
  }

  /** A visit of a new, defined name that succeeds ends with its body: the
      body starts after everything its deps did, and nothing follows it. */
  lemma VisitBodyLast(c: Context, name: string, hasRun: set<string>, trace: seq<Event>)
    requires c.Valid()
    requires name !in hasRun && name in c.tm.vals
    ensures var r := Visit(c, name, hasRun, trace);
      var events := [Started(name)] + c.tm.vals[name].Trace(RunOptions(false, c.quiet), c.Env(), c.exec);
      r.err.None? ==> |trace| + |events| <= |r.trace| && r.trace[|r.trace| - |events|..] == events
  {
    var d := VisitDeps(c, name, 0, hasRun + {name}, trace);
    var events := [Started(name)] + c.tm.vals[name].Trace(RunOptions(false, c.quiet), c.Env(), c.exec);
    assert d.trace + [Started(name)] + c.tm.vals[name].Trace(RunOptions(false, c.quiet), c.Env(), c.exec)
      == d.trace + events;
  }

  /** A name that is neither marked, defined nor `generate` is marked and
      nothing else happens; the visit fails with `task not defined` exactly
      in strict mode. */
  lemma VisitMissing(c: Context, name: string, hasRun: set<string>, trace: seq<Event>)
    requires c.Valid()
    requires name !in hasRun && name !in c.tm.vals && name != "generate"
    ensures var r := Visit(c, name, hasRun, trace);
      && r.hasRun == hasRun + {name} && r.trace == trace
      && (c.fatal ==> r.err == Some(TaskNotDefined(name)))
      && (!c.fatal ==> r.err.None?)
  {
  }

  /** A missing `generate` task runs the code generation pipeline instead, in
      strict mode too: the visit fails exactly when the pipeline fails, with
      its reason. */
  lemma VisitGenerate(c: Context, hasRun: set<string>, trace: seq<Event>)
    requires c.Valid()
    requires "generate" !in hasRun && "generate" !in c.tm.vals
    ensures var r := Visit(c, "generate", hasRun, trace);
      && r.hasRun == hasRun + {"generate"} && r.trace == trace + [Generate]
      && (c.generate.None? ==> r.err.None?)
      && (c.generate.Some? ==> r.err == Some(GenerateFailed(c.generate.value)))
  {
  }

  /** `task not defined` is only ever thrown in strict mode, for a name that
      is neither defined nor `generate`. */
  lemma {:induction false} VisitUndefinedOnly(c: Context, name: string, hasRun: set<string>, trace: seq<Event>)
    requires c.Valid()
    ensures var r := Visit(c, name, hasRun, trace);
      r.err.Some? && r.err.value.TaskNotDefined? ==>
        c.fatal && r.err.value.name !in c.tm.vals && r.err.value.name != "generate"
    decreases c.tm.vals.Keys - hasRun, 0, 0
  {
    if name !in hasRun && name in c.tm.vals {
      DepsUndefinedOnly(c, name, 0, hasRun + {name}, trace);
    }
  }

  lemma {:induction false} DepsUndefinedOnly(c: Context, name: string, i: nat, hasRun: set<string>, trace: seq<Event>)
    requires c.Valid()
    requires name in c.tm.vals && i <= |c.tm.vals[name].deps|
    ensures var r := VisitDeps(c, name, i, hasRun, trace);
      r.err.Some? && r.err.value.TaskNotDefined? ==>
        c.fatal && r.err.value.name !in c.tm.vals && r.err.value.name != "generate"
    decreases c.tm.vals.Keys - hasRun, 1, |c.tm.vals[name].deps| - i
  {
    if i < |c.tm.vals[name].deps| {
      var d := c.tm.vals[name].deps[i];
      VisitUndefinedOnly(c, d, hasRun, trace);
      var s := Visit(c, d, hasRun, trace);
      if s.err.None? {
        DepsUndefinedOnly(c, name, i + 1, s.hasRun, s.trace);
      }
    }
  }

  // ---------------------------------------------------------------------------
  // the imperative walk

  /** The state of one `runTasks` invocation: the shared `hasRun` set, and
      what has been observed so far. */
  class Invocation {
    var hasRun: set<string>
    var trace: seq<Event>

    constructor ()
      ensures hasRun == {} && trace == []
    {
      hasRun := {};
      trace := [];
    }

    /** `run(config, hasRun, taskMap, task, taskNotFoundError, opts)`: it
        does what `Visit` describes. */
    method Run(config: Configuration, tm: Rec<Task>, name: string, fatal: bool, quiet: bool,
               exec: Exec, generate: Option<string>)
      returns (err: Option<RunFailure>)
      requires tm.Valid() && config.Valid()
      modifies this
      decreases tm.vals.Keys - hasRun, 0
      ensures RunState(hasRun, trace, err)
        == Visit(Context(tm, fatal, quiet, exec, generate, config.spec, config.config), name, old(hasRun), old(trace))
    {
      if name in hasRun {
        return None;
      }
      hasRun := hasRun + {name};
      if name !in tm.vals {
        if name == "generate" {
          // `fromConfigs([config], opts)`; its failure propagates
          trace := trace + [Generate];
          if generate.Some? {
            return Some(GenerateFailed(generate.value));
          }
          return None;
        }
        if fatal {
          return Some(TaskNotDefined(name));
        }
        return None;
      }
      err := RunFound(config, tm, name, fatal, quiet, exec, generate);
    }

    /** The rest of `run` once `name` is marked and found: its deps, then its
        own body under the task environment. */
    method RunFound(config: Configuration, tm: Rec<Task>, name: string, fatal: bool, quiet: bool,
                    exec: Exec, generate: Option<string>)
      returns (err: Option<RunFailure>)
      requires tm.Valid() && config.Valid()
      requires name in hasRun && name in tm.vals
      modifies this
      decreases tm.vals.Keys - hasRun, 2
      ensures RunState(hasRun, trace, err)
        == VisitFound(Context(tm, fatal, quiet, exec, generate, config.spec, config.config), name, old(hasRun), old(trace))
    {
      var t := tm.vals[name];
      err := RunDeps(config, tm, name, fatal, quiet, exec, generate);
      if err.Some? {
        return;
      }
      var env := TaskEnv(config.spec, config.config);
      var outcome, events := t.Run(RunOptions(false, quiet), env, exec);
      trace := trace + [Started(name)] + events;
      if outcome.Failed? {
        return Some(TaskFailed(name, outcome.error));
      }
      return None;
    }

    /** The loop of `run` over the deps of `name`, in order; the first failure
        stops it. */
    method RunDeps(config: Configuration, tm: Rec<Task>, name: string, fatal: bool, quiet: bool,
                   exec: Exec, generate: Option<string>)
      returns (err: Option<RunFailure>)
      requires tm.Valid() && config.Valid()
      requires name in hasRun && name in tm.vals
      modifies this
      decreases tm.vals.Keys - hasRun, 1
      ensures RunState(hasRun, trace, err)
        == VisitDeps(Context(tm, fatal, quiet, exec, generate, config.spec, config.config), name, 0, old(hasRun), old(trace))
    {
      ghost var c := Context(tm, fatal, quiet, exec, generate, config.spec, config.config);
      var deps := tm.vals[name].deps;
      for i := 0 to |deps|
        invariant old(hasRun) <= hasRun && name in hasRun
        invariant VisitDeps(c, name, 0, old(hasRun), old(trace)) == VisitDeps(c, name, i, hasRun, trace)
      {
        err := Run(config, tm, deps[i], fatal, quiet, exec, generate);
        if err.Some? {
          return;
        }
      }
      return None;
    }

    /** The loop of `runTasks` over the names to visit, in order; the first
        failure stops it. */
    method RunRoots(config: Configuration, tm: Rec<Task>, roots: seq<string>, fatal: bool, quiet: bool,
                    exec: Exec, generate: Option<string>)
      returns (err: Option<RunFailure>)
      requires tm.Valid() && config.Valid()
      modifies this
      ensures RunState(hasRun, trace, err)
        == VisitAll(Context(tm, fatal, quiet, exec, generate, config.spec, config.config), roots, old(hasRun), old(trace))
    {
      ghost var c := Context(tm, fatal, quiet, exec, generate, config.spec, config.config);
      for i := 0 to |roots|
        invariant VisitAll(c, roots, old(hasRun), old(trace)) == VisitAll(c, roots[i..], hasRun, trace)
      {
        assert roots[i..][0] == roots[i] && roots[i..][1..] == roots[i + 1..];
        err := Run(config, tm, roots[i], fatal, quiet, exec, generate);
        if err.Some? {
          return;
        }
      }
      return None;
    }
  }

  /** The names `runTasks` visits: the requested ones, or, when none are
      requested, the first key of the task map unless that is missing or
      empty. */
  function Roots(tm: Rec<Task>, tasks: seq<string>): (r: seq<string>)
    ensures |tasks| > 0 ==> r == tasks
    ensures |tasks| == 0 && |tm.keys| > 0 && tm.keys[0] != "" ==> r == [tm.keys[0]]
    ensures |tasks| == 0 && (|tm.keys| == 0 || tm.keys[0] == "") ==> r == []
  {
    if |tasks| > 0 then tasks
    else if |tm.keys| > 0 && tm.keys[0] != "" then [tm.keys[0]]
    else []
  }

  /** A fresh `hasRun` set and the loop over the roots: the walk from an empty
      state. */
  method RunRootsFresh(config: Configuration, tm: Rec<Task>, roots: seq<string>, fatal: bool, quiet: bool,
                       exec: Exec, generate: Option<string>)
    returns (err: Option<RunFailure>, trace: seq<Event>)
    requires tm.Valid() && config.Valid()
    ensures var r := VisitAll(Context(tm, fatal, quiet, exec, generate, config.spec, config.config), roots, {}, []);
      err == r.err && trace == r.trace
  {
    var inv := new Invocation();
    err := inv.RunRoots(config, tm, roots, fatal, quiet, exec, generate);
    trace := inv.trace;
  }

  /** `runTasks(config, taskMap, tasks, taskNotFoundError, opts)` with a fresh
      `hasRun` set: each root is visited in order; the first failure stops
      everything. `rank` is a proof device only. */
  method RunTasks(config: Configuration, tm: Rec<Task>, tasks: seq<string>, fatal: bool, quiet: bool,
                  exec: Exec, generate: Option<string>, ghost rank: string -> nat)
    returns (err: Option<RunFailure>, trace: seq<Event>)
    requires tm.Valid() && config.Valid()
    // nothing to run in strict mode: an error is logged and nothing runs
    ensures fatal && Roots(tm, tasks) == [] ==> err.None? && trace == [Log("no tasks defined")]
    // each task body runs at most once, and only for defined names
    ensures forall i, j :: 0 <= i < j < |trace| && trace[i].Started? && trace[j].Started? ==> trace[i].task != trace[j].task
    ensures forall i :: 0 <= i < |trace| && trace[i].Started? ==> trace[i].task in tm.vals
    // otherwise the run is the walk over the roots from a fresh state
    ensures !(fatal && Roots(tm, tasks) == []) ==>
      var r := VisitAll(Context(tm, fatal, quiet, exec, generate, config.spec, config.config), Roots(tm, tasks), {}, []);
      err == r.err && trace == r.trace
    // `task not defined` is thrown only in strict mode, for a name neither defined nor `generate`
    ensures err.Some? && err.value.TaskNotDefined? ==>
      fatal && err.value.name !in tm.vals && err.value.name != "generate"
    // and in strict mode a first requested name of that kind fails the run before anything runs
    ensures fatal && |tasks| > 0 && tasks[0] !in tm.vals && tasks[0] != "generate" ==>
      err == Some(TaskNotDefined(tasks[0])) && trace == []
    // a missing `generate` task runs the code generation pipeline, whose failure fails the run
    ensures |tasks| > 0 && tasks[0] == "generate" && "generate" !in tm.vals ==>
      && |trace| > 0 && trace[0] == Generate
      && (generate.Some? ==> err == Some(GenerateFailed(generate.value)) && trace == [Generate])
    // on an acyclic graph, a successful run starts every defined root, each after its deps
    ensures err.None? && Ranked(tm, rank) ==>
      && DepsFirst(tm, trace)
      && forall r :: r in Roots(tm, tasks) && r in tm.vals ==> Started(r) in trace
  {
    var roots := tasks;
    if |roots| == 0 {
      roots := if |tm.keys| > 0 && tm.keys[0] != "" then [tm.keys[0]] else [];
    }
    if fatal && |roots| == 0 {
      return None, [Log("no tasks defined")];
    }
    err, trace := RunRootsFresh(config, tm, roots, fatal, quiet, exec, generate);
    ghost var c := Context(tm, fatal, quiet, exec, generate, config.spec, config.config);
    AllProps(c, roots, rank);
    AllUndefinedOnly(c, roots, {}, []);
    assert roots == Roots(tm, tasks);
    if |tasks| > 0 {
      FirstRoot(c, roots);
    }
  }

  /** The loop of `runTasks`: each root visited in order with one shared
      state; the first failure stops it. */
  function VisitAll(c: Context, roots: seq<string>, hasRun: set<string>, trace: seq<Event>): (r: RunState)
    requires c.Valid()
    ensures hasRun <= r.hasRun && trace <= r.trace
    ensures r.err.None? ==> forall x :: x in roots ==> x in r.hasRun
  {
    if |roots| == 0 then RunState(hasRun, trace, None)
    else
      var s := Visit(c, roots[0], hasRun, trace);
      if s.err.Some? then s else VisitAll(c, roots[1..], s.hasRun, s.trace)
  }

  /** The first root decides the walk when it is missing: in strict mode a
      name other than `generate` fails at once, and a missing `generate`
      runs the pipeline first, whose failure ends the walk. */
  lemma FirstRoot(c: Context, roots: seq<string>)
    requires c.Valid() && |roots| > 0
    ensures c.fatal && roots[0] !in c.tm.vals && roots[0] != "generate" ==>
      VisitAll(c, roots, {}, []) == RunState({roots[0]}, [], Some(TaskNotDefined(roots[0])))
    ensures roots[0] == "generate" && "generate" !in c.tm.vals ==>
      var r := VisitAll(c, roots, {}, []);
      && |r.trace| > 0 && r.trace[0] == Generate
      && (c.generate.Some? ==> r.err == Some(GenerateFailed(c.generate.value)) && r.trace == [Generate])
  {
    var s := Visit(c, roots[0], {}, []);
    if roots[0] !in c.tm.vals {
      if roots[0] == "generate" {
        VisitGenerate(c, {}, []);
        assert s.trace == [Generate];
      } else {
        VisitMissing(c, roots[0], {}, []);
      }
    }
  }

  /** What a whole `runTasks` walk from a fresh state guarantees. */
  lemma AllProps(c: Context, roots: seq<string>, rank: string -> nat)
    requires c.Valid()
    ensures var r := VisitAll(c, roots, {}, []);
      && (forall i, j :: 0 <= i < j < |r.trace| && r.trace[i].Started? && r.trace[j].Started? ==> r.trace[i].task != r.trace[j].task)
      && (forall i :: 0 <= i < |r.trace| && r.trace[i].Started? ==> r.trace[i].task in c.tm.vals)
      && (!c.fatal ==> r.err.None? || !r.err.value.TaskNotDefined?)
      && (r.err.None? && Ranked(c.tm, rank) ==>
            && DepsFirst(c.tm, r.trace)
            && forall x :: x in roots && x in c.tm.vals ==> Started(x) in r.trace)
  {
    AllMemo(c, roots, {}, [], {});
    if Ranked(c.tm, rank) {
      AllOrder(c, roots, {}, [], rank);
    }
    if !c.fatal {
      AllLenient(c, roots, {}, []);
    }
  }

  lemma {:induction false} AllMemo(c: Context, roots: seq<string>, hasRun: set<string>, trace: seq<Event>,
                                   open: set<string>)
    requires c.Valid()
    requires Memo(c.tm, hasRun, open, trace)
    ensures var r := VisitAll(c, roots, hasRun, trace); Memo(c.tm, r.hasRun, open, r.trace)
  {
    if |roots| > 0 {
      VisitMemo(c, roots[0], hasRun, trace, open);
      var s := Visit(c, roots[0], hasRun, trace);
      if s.err.None? {
        AllMemo(c, roots[1..], s.hasRun, s.trace, open);
      }
    }
  }

  lemma {:induction false} AllOrder(c: Context, roots: seq<string>, hasRun: set<string>, trace: seq<Event>,
                                    rank: string -> nat)
    requires c.Valid()
    requires Ranked(c.tm, rank) && Settled(c.tm, hasRun, {}, trace) && DepsFirst(c.tm, trace)
    ensures var r := VisitAll(c, roots, hasRun, trace);
      r.err.None? ==> Settled(c.tm, r.hasRun, {}, r.trace) && DepsFirst(c.tm, r.trace)
  {
    if |roots| > 0 {
      VisitOrder(c, roots[0], hasRun, trace, {}, rank);
      var s := Visit(c, roots[0], hasRun, trace);
      if s.err.None? {
        AllOrder(c, roots[1..], s.hasRun, s.trace, rank);
      }
    }
  }

  lemma {:induction false} AllLenient(c: Context, roots: seq<string>, hasRun: set<string>, trace: seq<Event>)
    requires c.Valid()
    requires !c.fatal
    ensures var r := VisitAll(c, roots, hasRun, trace); r.err.None? || !r.err.value.TaskNotDefined?
  {
    if |roots| > 0 {
      VisitLenient(c, roots[0], hasRun, trace);
      var s := Visit(c, roots[0], hasRun, trace);
      if s.err.None? {
        AllLenient(c, roots[1..], s.hasRun, s.trace);
      }
    }
  }

  lemma {:induction false} AllUndefinedOnly(c: Context, roots: seq<string>, hasRun: set<string>, trace: seq<Event>)
    requires c.Valid()
    ensures var r := VisitAll(c, roots, hasRun, trace);
      r.err.Some? && r.err.value.TaskNotDefined? ==>
        c.fatal && r.err.value.name !in c.tm.vals && r.err.value.name != "generate"
  {
    if |roots| > 0 {
      VisitUndefinedOnly(c, roots[0], hasRun, trace);
      var s := Visit(c, roots[0], hasRun, trace);
      if s.err.None? {
        AllUndefinedOnly(c, roots[1..], s.hasRun, s.trace);
      }
    }
  }

  /** The first failure stops the run: once the visit of the `i`-th root
      fails, no later root is visited, so nothing runs or is observed after
      the failure. */
  lemma {:induction false} AllStops(c: Context, roots: seq<string>, i: nat, hasRun: set<string>, trace: seq<Event>)
    requires c.Valid()
    requires i < |roots| && VisitAll(c, roots[..i + 1], hasRun, trace).err.Some?
    ensures VisitAll(c, roots, hasRun, trace) == VisitAll(c, roots[..i + 1], hasRun, trace)
  {
    var s := Visit(c, roots[0], hasRun, trace);
    assert roots[..i + 1][0] == roots[0];
    if i > 0 && s.err.None? {
      assert roots[..i + 1][1..] == roots[1..][..i];
      AllStops(c, roots[1..], i - 1, s.hasRun, s.trace);
    }
  }

  /** A walk over a single name is the visit of that name. */
  lemma AllOne(c: Context, x: string, hasRun: set<string>, trace: seq<Event>)
    requires c.Valid()
    ensures VisitAll(c, [x], hasRun, trace) == Visit(c, x, hasRun, trace)
  {
    assert [x][1..] == [];
  }

  /** The walk over `roots` is the walk over its first `k` names and then,
      when that part succeeds, the walk over the rest from the state it
      leaves: each name's visit finishes before the next one's begins. */
  lemma {:induction false} AllSplit(c: Context, roots: seq<string>, k: nat, hasRun: set<string>, trace: seq<Event>)
    requires c.Valid() && k <= |roots|
    ensures var p := VisitAll(c, roots[..k], hasRun, trace);
      VisitAll(c, roots, hasRun, trace) == if p.err.Some? then p else VisitAll(c, roots[k..], p.hasRun, p.trace)
  {
    if k == 0 {
      assert roots[..0] == [] && roots[0..] == roots;
    } else {
      var s := Visit(c, roots[0], hasRun, trace);
      assert roots[..k][0] == roots[0];
      if s.err.None? {
        assert roots[..k][1..] == roots[1..][..k - 1];
        assert roots[k..] == roots[1..][k - 1..];
        AllSplit(c, roots[1..], k - 1, s.hasRun, s.trace);
      }
    }
  }

  /** The loop over the deps of `name` from the `i`-th on is the walk over
      that part of the list. */
  lemma {:induction false} DepsAsAll(c: Context, name: string, i: nat, hasRun: set<string>, trace: seq<Event>)
    requires c.Valid()
    requires name in c.tm.vals && i <= |c.tm.vals[name].deps|
    ensures VisitDeps(c, name, i, hasRun, trace) == VisitAll(c, c.tm.vals[name].deps[i..], hasRun, trace)
    decreases |c.tm.vals[name].deps| - i
  {
    var deps := c.tm.vals[name].deps;
    if i < |deps| {
      var s := Visit(c, deps[i], hasRun, trace);
      assert deps[i..][0] == deps[i];
      if s.err.None? {
        assert deps[i..][1..] == deps[i + 1..];
        DepsAsAll(c, name, i + 1, s.hasRun, s.trace);
      }
    }
  }

  /** No body of a name that is not marked has started. */
  lemma UnmarkedNotStarted(tm: Rec<Task>, hasRun: set<string>, open: set<string>, trace: seq<Event>, y: string)
    requires Memo(tm, hasRun, open, trace) && y !in hasRun
    ensures Started(y) !in trace
  {
  }

  /** `Started(x)` at position `p` of a prefix that holds no `Started(y)`
      comes before every `Started(y)` of the whole trace. */
  lemma StartedBefore(pre: seq<Event>, whole: seq<Event>, p: nat, x: string, y: string)
    requires pre <= whole && p < |pre| && pre[p] == Started(x) && Started(y) !in pre
    ensures forall q :: 0 <= q < |whole| && whole[q] == Started(y) ==> Started(x) in whole[..q]
  {
    forall q | 0 <= q < |whole| && whole[q] == Started(y)
      ensures Started(x) in whole[..q]
    {
      if q < |pre| {
        assert false;
      }
      assert whole[..q][p] == Started(x);
    }
  }

  /** Names are run in the order listed: when `roots[a]` is defined and not
      yet marked at its turn, and `roots[b]` (`a < b`) has not been reached
      by the time the visit of `roots[a]` ends, then in a walk that succeeds
      the body of `roots[a]` starts before any start of `roots[b]`'s. */
  lemma AllInOrder(c: Context, roots: seq<string>, a: nat, b: nat, hasRun: set<string>, trace: seq<Event>,
                   open: set<string>)
    requires c.Valid() && a < b < |roots|
    requires Memo(c.tm, hasRun, open, trace)
    requires roots[a] in c.tm.vals
    requires roots[a] !in VisitAll(c, roots[..a], hasRun, trace).hasRun
    requires roots[b] !in VisitAll(c, roots[..a + 1], hasRun, trace).hasRun
    ensures var r := VisitAll(c, roots, hasRun, trace);
      r.err.None? ==>
        forall q :: 0 <= q < |r.trace| && r.trace[q] == Started(roots[b]) ==> Started(roots[a]) in r.trace[..q]
  {
    var r := VisitAll(c, roots, hasRun, trace);
    if r.err.None? {
      var pa := VisitAll(c, roots[..a], hasRun, trace);
      var pb := VisitAll(c, roots[..a + 1], hasRun, trace);
      AllSplit(c, roots, a + 1, hasRun, trace);
      assert pb.err.None? && pb.trace <= r.trace;
      AllSplit(c, roots[..a + 1], a, hasRun, trace);
      assert roots[..a + 1][..a] == roots[..a];
      assert roots[..a + 1][a..] == [roots[a]];
      AllOne(c, roots[a], pa.hasRun, pa.trace);
      assert pb == Visit(c, roots[a], pa.hasRun, pa.trace);
      VisitBodyLast(c, roots[a], pa.hasRun, pa.trace);
      var events := [Started(roots[a])] + c.tm.vals[roots[a]].Trace(RunOptions(false, c.quiet), c.Env(), c.exec);
      assert pb.trace[|pb.trace| - |events|] == Started(roots[a]);
      AllMemo(c, roots[..a + 1], hasRun, trace, open);
      UnmarkedNotStarted(c.tm, pb.hasRun, open, pb.trace, roots[b]);
      StartedBefore(pb.trace, r.trace, |pb.trace| - |events|, roots[a], roots[b]);
    }
  }

  /** The deps of a task run in their listed order: the loop over the deps
      of `name` is the walk over that list, so `AllInOrder` applies. */
  lemma DepsInOrder(c: Context, name: string, a: nat, b: nat, hasRun: set<string>, trace: seq<Event>,
                    open: set<string>)
    requires c.Valid() && name in c.tm.vals
    requires a < b < |c.tm.vals[name].deps|
    requires Memo(c.tm, hasRun, open, trace)
    requires c.tm.vals[name].deps[a] in c.tm.vals
    requires c.tm.vals[name].deps[a] !in VisitAll(c, c.tm.vals[name].deps[..a], hasRun, trace).hasRun
    requires c.tm.vals[name].deps[b] !in VisitAll(c, c.tm.vals[name].deps[..a + 1], hasRun, trace).hasRun
    ensures var r := VisitDeps(c, name, 0, hasRun, trace);
      var deps := c.tm.vals[name].deps;
      r.err.None? ==>
        forall q :: 0 <= q < |r.trace| && r.trace[q] == Started(deps[b]) ==> Started(deps[a]) in r.trace[..q]
  {
    var deps := c.tm.vals[name].deps;
    DepsAsAll(c, name, 0, hasRun, trace);
    assert deps[0..] == deps;
    AllInOrder(c, deps, a, b, hasRun, trace, open);
  }

  /** `configs.length == 1 || options.failUndefined == true`: a missing task
      is an error when there is one configuration or when asked for. */
  function Strict(count: nat, failUndefined: bool): bool {
    count == 1 || failUndefined
  }

  /** The four fields of a configuration at one moment. */
  datatype Snapshot = Snapshot(spec: string, config: Option<Rec<Value>>, generates: Option<Rec<Value>>,
                               tasks: Option<Rec<Value>>)
  {
    ghost predicate Valid() {
      && (config.Some? ==> config.value.Valid())
      && (generates.Some? ==> generates.value.Valid())
      && (tasks.Some? ==> tasks.value.Valid())
    }
  }

  function Snap(c: Configuration): (s: Snapshot)
    reads c
    ensures s.Valid() <==> c.Valid()
  {
    Snapshot(c.spec, c.config, c.generates, c.tasks)
  }

  /** What `loadTasks` leaves in a configuration: each map merged with the
      one the plugins generated, the spec path kept. */
  function Loaded(was: Snapshot, gen: Snapshot): (r: Snapshot)
    requires was.Valid() && gen.Valid()
    ensures r.Valid() && r.spec == was.spec && r.tasks.Some?
  {
    Snapshot(was.spec,
             Some(Merged(OrEmpty(was.config), OrEmpty(gen.config))),
             Some(Merged(OrEmpty(was.generates), OrEmpty(gen.generates))),
             Some(Merged(OrEmpty(was.tasks), OrEmpty(gen.tasks))))
  }

  /** How a pass of `action`'s loop, or the whole loop, ends: the error it
      throws, if any, and what was observed. */
  datatype Outcome = Outcome(err: Option<RunFailure>, trace: seq<Event>)

  /** What `runTasks` yields for a task map: `no tasks defined` when strict
      with nothing to run, otherwise the walk over the roots from a fresh
      `hasRun`. */
  ghost function TasksOutcome(tm: Rec<Task>, cfg: Snapshot, tasks: seq<string>, fatal: bool, quiet: bool,
                              exec: Exec, generate: Option<string>): Outcome
    requires tm.Valid() && cfg.Valid()
  {
    if fatal && Roots(tm, tasks) == [] then Outcome(None, [Log("no tasks defined")])
    else
      var r := VisitAll(Context(tm, fatal, quiet, exec, generate, cfg.spec, cfg.config), Roots(tm, tasks), {}, []);
      Outcome(r.err, r.trace)
  }

  /** One pass of `action`'s loop over the loaded configuration `cfg`: a
      `null` definition throws, listing runs nothing, otherwise `runTasks`. */
  ghost function PassOutcome(parsed: Parsed, cfg: Snapshot, tasks: seq<string>, strict: bool, list: bool,
                             quiet: bool, exec: Exec, generate: Option<string>): Outcome
    requires parsed.TaskMap? ==> parsed.tasks.Valid()
    requires cfg.Valid()
  {
    match parsed
    case BadDefinition(key) => Outcome(Some(NullDefinition(key)), [])
    case TaskMap(tm) => if list then Outcome(None, []) else TasksOutcome(tm, cfg, tasks, strict, quiet, exec, generate)
  }

  /** A pass that loaded a configuration to `cfg` parsed its tasks to
      `parsed` and ended with `out`. */
  ghost predicate PassOf(cfg: Snapshot, parsed: Parsed, out: Outcome, tasks: seq<string>, strict: bool,
                         list: bool, quiet: bool, exec: Exec, generate: Option<string>)
    requires cfg.Valid()
  {
    && cfg.tasks.Some?
    && Builds(cfg.tasks.value, parsed)
    && out == PassOutcome(parsed, cfg, tasks, strict, list, quiet, exec, generate)
  }

  /** The loop of `action` over the outcomes of its passes: the traces one
      after another, ending at the first pass that throws, and after the
      first pass when only listing. */
  function Folded(outs: seq<Outcome>, list: bool): (r: Outcome)
  {
    if outs == [] then Outcome(None, [])
    else if list || outs[0].err.Some? then outs[0]
    else
      var rest := Folded(outs[1..], list);
      Outcome(rest.err, outs[0].trace + rest.trace)
  }

  /** The traces of the given passes, one after another. */
  function Traces(outs: seq<Outcome>): seq<Event> {
    if outs == [] then [] else Traces(outs[..|outs| - 1]) + outs[|outs| - 1].trace
  }

  lemma {:induction false} TracesFront(o: Outcome, outs: seq<Outcome>)
    ensures Traces([o] + outs) == o.trace + Traces(outs)
    decreases |outs|
  {
    if outs == [] {
      assert Traces([o]) == Traces([]) + o.trace;
    } else {
      var init, xs := outs[..|outs| - 1], [o] + outs;
      TracesFront(o, init);
      assert xs[..|xs| - 1] == [o] + init && xs[|xs| - 1] == outs[|outs| - 1];
      calc {
        Traces(xs);
        Traces([o] + init) + outs[|outs| - 1].trace;
        (o.trace + Traces(init)) + outs[|outs| - 1].trace;
        o.trace + (Traces(init) + outs[|outs| - 1].trace);
        o.trace + Traces(outs);
      }
    }
  }

  /** Passes that all succeed run one after another; the next pass then
      decides the loop's error, and its trace follows theirs. */
  lemma {:induction false} FoldedAppend(outs: seq<Outcome>, o: Outcome, list: bool)
    requires forall i :: 0 <= i < |outs| ==> outs[i].err.None?
    requires outs != [] ==> !list
    ensures Folded(outs + [o], list) == Outcome(o.err, Traces(outs) + o.trace)
  {
    if outs == [] {
      assert [o][1..] == [];
    } else {
      assert (outs + [o])[1..] == outs[1..] + [o];
      FoldedAppend(outs[1..], o, list);
      TracesFront(outs[0], outs[1..]);
      assert [outs[0]] + outs[1..] == outs;
    }
  }

  /** When not listing, the loop fails exactly when some pass fails, with
      the first failing pass's error after the traces of the passes up to
      it; otherwise it succeeds with every pass's trace. */
  lemma {:induction false} FoldedFirstError(outs: seq<Outcome>, k: nat)
    requires k < |outs| && outs[k].err.Some?
    requires forall i :: 0 <= i < k ==> outs[i].err.None?
    ensures Folded(outs, false) == Outcome(outs[k].err, Traces(outs[..k + 1]))
  {
    if k > 0 {
      assert outs[1..][..k] == outs[..k + 1][1..];
      FoldedFirstError(outs[1..], k - 1);
      TracesFront(outs[0], outs[1..][..k]);
      assert [outs[0]] + outs[1..][..k] == outs[..k + 1];
    } else {
      assert outs[..1] == [outs[0]];
      assert Traces([outs[0]]) == Traces([]) + outs[0].trace;
    }
  }

  lemma {:induction false} FoldedAllSucceed(outs: seq<Outcome>)
    requires forall i :: 0 <= i < |outs| ==> outs[i].err.None?
    ensures Folded(outs, false) == Outcome(None, Traces(outs))
  {
    if outs != [] {
      var init := outs[..|outs| - 1];
      assert outs == init + [outs[|outs| - 1]];
      FoldedAppend(init, outs[|outs| - 1], false);
    }
  }

  /** Pass `j` of the record ran on the configuration that was `was[j]`
      with generated part `gens[j]` on entry: it loaded the configuration,
      parsed its tasks to `parses[j]` and ended with `outs[j]`. */
  ghost predicate PassAt(was: seq<Snapshot>, gens: seq<Snapshot>, parses: seq<Parsed>, outs: seq<Outcome>, j: nat,
                         tasks: seq<string>, strict: bool, list: bool, quiet: bool, exec: Exec,
                         generate: Option<string>)
    requires j < |was| == |gens| == |parses| == |outs|
  {
    && was[j].Valid() && gens[j].Valid()
    && PassOf(Loaded(was[j], gens[j]), parses[j], outs[j], tasks, strict, list, quiet, exec, generate)
  }

  /** `outs` are the outcomes of passes over configurations that were `was`
      with generated parts `gens` on entry, each as `PassAt` says. */
  ghost predicate Passes(was: seq<Snapshot>, gens: seq<Snapshot>, parses: seq<Parsed>, outs: seq<Outcome>,
                         tasks: seq<string>, strict: bool, list: bool, quiet: bool, exec: Exec,
                         generate: Option<string>)
  {
    && |was| == |gens| == |parses| == |outs|
    && forall j :: 0 <= j < |outs| ==> PassAt(was, gens, parses, outs, j, tasks, strict, list, quiet, exec, generate)
  }

  /** Recording one more pass keeps the record. */
  lemma PassesAppend(was: seq<Snapshot>, gens: seq<Snapshot>, parses: seq<Parsed>, outs: seq<Outcome>,
                     w: Snapshot, g: Snapshot, p: Parsed, o: Outcome,
                     tasks: seq<string>, strict: bool, list: bool, quiet: bool, exec: Exec,
                     generate: Option<string>)
    requires Passes(was, gens, parses, outs, tasks, strict, list, quiet, exec, generate)
    requires w.Valid() && g.Valid()
    requires PassOf(Loaded(w, g), p, o, tasks, strict, list, quiet, exec, generate)
    ensures Passes(was + [w], gens + [g], parses + [p], outs + [o], tasks, strict, list, quiet, exec, generate)
  {
    var was', gens', parses', outs' := was + [w], gens + [g], parses + [p], outs + [o];
    forall j | 0 <= j < |outs'|
      ensures PassAt(was', gens', parses', outs', j, tasks, strict, list, quiet, exec, generate)
    {
      if j < |outs| {
        assert PassAt(was, gens, parses, outs, j, tasks, strict, list, quiet, exec, generate);
        assert was'[j] == was[j] && gens'[j] == gens[j] && parses'[j] == parses[j] && outs'[j] == outs[j];
      }
    }
  }

  /** The rest of a pass once `cfg` is loaded and its tasks parsed to
      `parsed`: a `null` definition throws, listing runs nothing, otherwise
      the tasks run with a fresh `hasRun`. */
  method RunLoaded(cfg: Configuration, parsed: Parsed, tasks: seq<string>, strict: bool,
                   list: bool, quiet: bool, exec: Exec, generate: Option<string>)
    returns (err: Option<RunFailure>, trace: seq<Event>)
    requires cfg.Valid() && cfg.tasks.Some? && Builds(cfg.tasks.value, parsed)
    ensures PassOf(Snap(cfg), parsed, Outcome(err, trace), tasks, strict, list, quiet, exec, generate)
    ensures !strict ==> err.None? || !err.value.TaskNotDefined?
    ensures strict && !list && |tasks| > 0 && tasks[0] != "generate" && tasks[0] !in cfg.tasks.value.vals
      ==> err.Some? && (err.value == TaskNotDefined(tasks[0]) || err.value.NullDefinition?)
    ensures list ==> trace == [] && (err.None? || err.value.NullDefinition?)
  {
    if parsed.BadDefinition? {
      return Some(NullDefinition(parsed.key)), [];
    }
    if list {
      return None, [];
    }
    err, trace := RunTasks(cfg, parsed.tasks, tasks, strict, quiet, exec, generate, _ => 0);
  }

  /** One pass of the loop in `action`: load the tasks of `cfg` and, unless
      only listing, run them with a fresh `hasRun`. */
  method RunConfiguration(cfg: Configuration, gen: Configuration, tasks: seq<string>, strict: bool,
                          list: bool, quiet: bool, exec: Exec, generate: Option<string>)
    returns (parsed: Parsed, err: Option<RunFailure>, trace: seq<Event>)
    requires cfg.Valid() && gen.Valid()
    modifies cfg
    ensures cfg.Valid()
    // the configuration is loaded, and the pass is what its task map gives
    ensures Snap(cfg) == Loaded(old(Snap(cfg)), old(Snap(gen)))
    ensures PassOf(Snap(cfg), parsed, Outcome(err, trace), tasks, strict, list, quiet, exec, generate)
    ensures !strict ==> err.None? || !err.value.TaskNotDefined?
    ensures strict && !list && |tasks| > 0 && tasks[0] != "generate"
      && old(tasks[0] !in MergedTasks(cfg, gen).vals)
      ==> err.Some? && (err.value == TaskNotDefined(tasks[0]) || err.value.NullDefinition?)
    ensures list ==> trace == [] && (err.None? || err.value.NullDefinition?)
  {
    parsed := LoadTasks(cfg, gen);
    err, trace := RunLoaded(cfg, parsed, tasks, strict, list, quiet, exec, generate);
  }

  /** Pass `i` of `action`'s loop: `configs[i]` is loaded and its tasks run,
      and the record of the passes grows by this one; the configurations
      after it are left as they were. */
  method Pass(configs: seq<Configuration>, generated: seq<Configuration>, i: nat, tasks: seq<string>,
              strict: bool, list: bool, quiet: bool, exec: Exec, generate: Option<string>,
              ghost was: seq<Snapshot>, ghost gens: seq<Snapshot>, ghost parses: seq<Parsed>, ghost outs: seq<Outcome>)
    returns (p: Parsed, e: Option<RunFailure>, t: seq<Event>)
    requires i < |generated| == |configs| == |was| == |gens|
    requires forall j :: i < j < |configs| ==> configs[i] != configs[j] && configs[i] != generated[j]
    requires forall j :: i <= j < |configs| ==> Snap(configs[j]) == was[j] && Snap(generated[j]) == gens[j]
    requires was[i].Valid() && gens[i].Valid()
    requires Passes(was[..i], gens[..i], parses, outs, tasks, strict, list, quiet, exec, generate)
    modifies configs[i]
    ensures Passes(was[..i + 1], gens[..i + 1], parses + [p], outs + [Outcome(e, t)],
                   tasks, strict, list, quiet, exec, generate)
    ensures forall j :: i < j < |configs| ==> Snap(configs[j]) == was[j] && Snap(generated[j]) == gens[j]
    ensures !strict ==> e.None? || !e.value.TaskNotDefined?
    ensures strict && !list && |tasks| > 0 && tasks[0] != "generate"
      && tasks[0] !in Loaded(was[i], gens[i]).tasks.value.vals
      ==> e.Some? && (e.value == TaskNotDefined(tasks[0]) || e.value.NullDefinition?)
    ensures list ==> t == []
  {
    p, e, t := RunConfiguration(configs[i], generated[i], tasks, strict, list, quiet, exec, generate);
    // only `configs[i]` changed: the later configurations are as they were
    forall j | i < j < |configs|
      ensures Snap(configs[j]) == was[j] && Snap(generated[j]) == gens[j]
    {
      assert unchanged(configs[j]) && unchanged(generated[j]);
    }
    PassesAppend(was[..i], gens[..i], parses, outs, was[i], gens[i], p, Outcome(e, t),
                 tasks, strict, list, quiet, exec, generate);
    assert was[..i + 1] == was[..i] + [was[i]] && gens[..i + 1] == gens[..i] + [gens[i]];
  }

  /** The passes of `action`'s loop after the first, which ended without
      throwing and without listing: each pass extends the record, and the
      loop stops at the first pass that throws. */
  method LaterPasses(configs: seq<Configuration>, generated: seq<Configuration>, tasks: seq<string>,
                     strict: bool, quiet: bool, exec: Exec, generate: Option<string>,
                     ghost was: seq<Snapshot>, ghost gens: seq<Snapshot>, ghost parses0: seq<Parsed>,
                     ghost outs0: seq<Outcome>, trace0: seq<Event>)
    returns (err: Option<RunFailure>, trace: seq<Event>, ghost parses: seq<Parsed>, ghost outs: seq<Outcome>)
    requires |generated| == |configs| == |was| == |gens|
    requires |outs0| == |parses0| == 1 <= |configs|
    requires forall i, j :: 0 <= j < i < |configs| ==> configs[j] != configs[i] && configs[j] != generated[i]
    requires forall i :: 1 <= i < |configs| ==> Snap(configs[i]) == was[i] && Snap(generated[i]) == gens[i]
    requires forall i :: 0 <= i < |configs| ==> was[i].Valid() && gens[i].Valid()
    requires Passes(was[..1], gens[..1], parses0, outs0, tasks, strict, false, quiet, exec, generate)
    requires outs0[0].err.None? && outs0[0].trace == trace0
    modifies set i | 1 <= i < |configs| :: configs[i]
    ensures Outcome(err, trace) == Folded(outs, false)
    ensures 1 <= |outs| <= |configs|
    ensures Passes(was[..|outs|], gens[..|outs|], parses, outs, tasks, strict, false, quiet, exec, generate)
    ensures |outs| < |configs| ==> outs[|outs| - 1].err.Some?
    ensures forall i :: |outs| <= i < |configs| ==> Snap(configs[i]) == was[i]
    ensures !strict ==> err.None? || !err.value.TaskNotDefined?
  {
    parses, outs := parses0, outs0;
    err, trace := None, trace0;
    assert Traces(outs) == trace by { assert outs[..0] == []; }
    for i := 1 to |configs|
      invariant |outs| == |parses| == i
      invariant Passes(was[..i], gens[..i], parses, outs, tasks, strict, false, quiet, exec, generate)
      invariant forall j :: i <= j < |configs| ==> Snap(configs[j]) == was[j] && Snap(generated[j]) == gens[j]
      invariant forall j :: 0 <= j < i ==> outs[j].err.None?
      invariant err.None? && trace == Traces(outs)
    {
      var p, e, t := Pass(configs, generated, i, tasks, strict, false, quiet, exec, generate, was, gens, parses, outs);
      FoldedAppend(outs, Outcome(e, t), false);
      parses, outs := parses + [p], outs + [Outcome(e, t)];
      assert Traces(outs) == trace + t;
      err, trace := e, trace + t;
      if e.Some? {
        return;
      }
    }
    FoldedAllSucceed(outs);
  }

  /** `action(options, ...tasks)` over the configurations of the file: for
      each one, the plugin-generated configuration (given here) is merged in,
      the tasks are parsed and, unless only listing, run with a fresh
      `hasRun`. Listing stops after the first configuration. The
      configurations are distinct objects, and none is an earlier one's
      generated configuration. `outs`, `parses` and `loaded` record each
      pass: how it ended, what its tasks parsed to and what it left in its
      configuration. */
  method Action(configs: seq<Configuration>, generated: seq<Configuration>, tasks: seq<string>,
                failUndefined: bool, list: bool, quiet: bool, exec: Exec, generate: Option<string>,
                ghost was: seq<Snapshot>, ghost gens: seq<Snapshot>)
    returns (err: Option<RunFailure>, trace: seq<Event>, ghost parses: seq<Parsed>, ghost outs: seq<Outcome>)
    requires |generated| == |configs| == |was| == |gens|
    requires forall i, j :: 0 <= j < i < |configs| ==> configs[j] != configs[i] && configs[j] != generated[i]
    // `was` and `gens` name the configurations as they are on entry
    requires forall i :: 0 <= i < |configs| ==> Snap(configs[i]) == was[i] && Snap(generated[i]) == gens[i]
    requires forall i :: 0 <= i < |configs| ==> was[i].Valid() && gens[i].Valid()
    modifies set i | 0 <= i < |configs| :: configs[i]
    // the loop is the fold over its passes, each one loading its configuration and running its tasks
    ensures Outcome(err, trace) == Folded(outs, list)
    ensures |outs| <= |configs|
    ensures Passes(was[..|outs|], gens[..|outs|], parses, outs, tasks, Strict(|configs|, failUndefined), list,
                   quiet, exec, generate)
    // it stops early only after a pass that throws, or after the first when listing
    ensures |outs| < |configs| ==> |outs| > 0 && (list || outs[|outs| - 1].err.Some?)
    ensures forall i :: |outs| <= i < |configs| ==> Snap(configs[i]) == was[i]
    ensures !Strict(|configs|, failUndefined) ==> err.None? || !err.value.TaskNotDefined?
    // strict: a requested task that the first configuration leaves undefined fails the run
    ensures Strict(|configs|, failUndefined) && !list && |configs| > 0 && |tasks| > 0 && tasks[0] != "generate"
      && tasks[0] !in Loaded(was[0], gens[0]).tasks.value.vals
      ==> err.Some? && (err.value == TaskNotDefined(tasks[0]) || err.value.NullDefinition?)
    ensures list ==> trace == []
  {
    trace, err, parses, outs := [], None, [], [];
    var strict := Strict(|configs|, failUndefined);
    if |configs| == 0 {
      return;
    }
    var p, e, t := Pass(configs, generated, 0, tasks, strict, list, quiet, exec, generate, was, gens, [], []);
    assert [] + [p] == [p] && [] + [Outcome(e, t)] == [Outcome(e, t)];
    parses, outs := [p], [Outcome(e, t)];
    if list || e.Some? {
      FoldedAppend([], Outcome(e, t), list);
      assert Traces(outs) == t by { assert outs[..0] == []; }
      err, trace := e, t;
      return;
    }
    err, trace, parses, outs := LaterPasses(configs, generated, tasks, strict, quiet, exec, generate,
                                            was, gens, parses, outs, t);
  }
}
