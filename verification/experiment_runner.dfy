/** The experiment runner: experiments registered by name, at most one of them active.
    Starting an experiment first stops the active one; stopping calls the experiment's
    optional cleanup callback. */
module ExperimentRunner {
  import opened Wrappers
  import InsertionMap

  /** An opaque handle for one of an experiment's callbacks. */
  datatype Callback = Callback(id: nat)

  datatype Experiment = Experiment(name: string, description: string, run: Callback, cleanup: Option<Callback>)

  /** An externally visible effect: a callback was invoked. */
  datatype Effect = Call(callback: Callback)

  datatype Runner = Runner(experiments: InsertionMap.IMap<Experiment>, active: Option<string>)

  /** The result of one operation: the new runner, the callbacks it invoked in order, and
      the message of the error it threw, if any. */
  datatype Step = Step(runner: Runner, effects: seq<Effect>, error: Option<string>)

  /** Every experiment is stored under its own name, and the active name, if any, is
      registered. */
  ghost predicate Inv(r: Runner) {
    && InsertionMap.Valid(r.experiments)
    && (forall k :: k in r.experiments.entries ==> r.experiments.entries[k].name == k)
    && (r.active.Some? ==> r.active.value in r.experiments.entries)
  }

  function Empty(): (r: Runner)
    ensures Inv(r)
    ensures r.active == None && r.experiments.order == []
  {
    Runner(InsertionMap.Empty(), None)
  }

  function NotFoundMessage(name: string): (msg: string)
    ensures |msg| == |name| + 23
    ensures msg[..12] == "Experiment \"" && msg[12..12 + |name|] == name
    ensures msg[12 + |name|..] == "\" not found"
  {
    "Experiment \"" + name + "\" not found"
  }

  /** `register`: store the experiment under its name, replacing any earlier one. */
  function Register(r: Runner, e: Experiment): (r': Runner)
    requires Inv(r)
    ensures Inv(r')
    ensures r'.experiments.entries.Keys == r.experiments.entries.Keys + {e.name}
    ensures r'.experiments.entries[e.name] == e
    ensures forall k :: k in r.experiments.entries && k != e.name ==> r'.experiments.entries[k] == r.experiments.entries[k]
    ensures e.name in r.experiments.entries ==> r'.experiments.order == r.experiments.order
    ensures e.name !in r.experiments.entries ==> r'.experiments.order == r.experiments.order + [e.name]
    ensures r'.active == r.active
  {
    InsertionMap.SetPreservesValid(r.experiments, e.name, e);
    Runner(InsertionMap.Set(r.experiments, e.name, e), r.active)
  }

  /** Whether the experiment called `name` is registered and has a cleanup callback. */
  predicate HasCleanup(r: Runner, name: string) {
    name in r.experiments.entries && r.experiments.entries[name].cleanup.Some?
  }

  /** The cleanup call made when the experiment called `name` is stopped. */
  function CleanupEffects(r: Runner, name: string): seq<Effect> {
    match InsertionMap.Get(r.experiments, name)
    case Some(e) => if e.cleanup.Some? then [Call(e.cleanup.value)] else []
    case None => []
  }

  /** Stop the experiment called `name`: call its cleanup if it has one, `cleanup` being
      how that call ends. A cleanup that throws rejects the stop before the active
      experiment is cleared; otherwise none is active afterwards. */
  function Teardown(r: Runner, name: string, cleanup: Outcome): (s: Step)
    ensures s.runner.experiments == r.experiments
    ensures HasCleanup(r, name) ==> s.effects == [Call(r.experiments.entries[name].cleanup.value)]
    ensures !HasCleanup(r, name) ==> s.effects == []
    ensures s.error.Some? <==> HasCleanup(r, name) && cleanup.Throws?
    ensures s.error.Some? ==> s.error.value == cleanup.error && s.runner == r
    ensures s.error.None? ==> s.runner.active == None
  {
    var effects := CleanupEffects(r, name);
    if effects != [] && cleanup.Throws? then Step(r, effects, Some(cleanup.error))
    else Step(Runner(r.experiments, None), effects, None)
  }

  /** `stop`, testing the active experiment against null: nothing to do when none is
      active; otherwise the active experiment's teardown. */
  function Stop(r: Runner, cleanup: Outcome): (s: Step)
    ensures s.runner.experiments == r.experiments
    ensures r.active.None? ==> s == Step(r, [], None)
    ensures r.active.Some? ==> s == Teardown(r, r.active.value, cleanup)
    ensures s.error.None? ==> s.runner.active == None
    ensures s.error.Some? ==> s.runner == r
  {
    if r.active.None? then Step(r, [], None) else Teardown(r, r.active.value, cleanup)
  }

  /** The lookup and start that follow stopping the previous experiment. The experiment
      is made active before its `run` callback is called, so a `run` that throws (`body`)
      leaves it active. */
  function Start(r: Runner, name: string, body: Outcome): (s: Step)
    ensures s.runner.experiments == r.experiments
    ensures name !in r.experiments.entries ==> s == Step(r, [], Some(NotFoundMessage(name)))
    ensures name in r.experiments.entries ==>
              && s.runner == Runner(r.experiments, Some(name))
              && s.effects == [Call(r.experiments.entries[name].run)]
              && (s.error.Some? <==> body.Throws?)
              && (body.Throws? ==> s.error == Some(body.error))
  {
    match InsertionMap.Get(r.experiments, name)
    case None => Step(r, [], Some(NotFoundMessage(name)))
    case Some(e) =>
      Step(Runner(r.experiments, Some(name)), [Call(e.run)], if body.Throws? then Some(body.error) else None)
  }

  /** `run`, testing the active experiment against null: stop whatever is active, even when
      `name` turns out to be unknown. A cleanup that throws rejects `run` there, before
      any lookup, with the old experiment still active. Otherwise an unknown name throws
      and leaves nothing active, and a known name becomes active and its `run` callback
      is invoked once, after the previous experiment's cleanup. */
  function Run(r: Runner, name: string, cleanup: Outcome, body: Outcome): (s: Step)
    ensures s.runner.experiments == r.experiments
    ensures var stopped := Stop(r, cleanup);
            |s.effects| >= |stopped.effects| && s.effects[..|stopped.effects|] == stopped.effects
    ensures Stop(r, cleanup).error.Some? ==> s == Stop(r, cleanup)
    ensures Stop(r, cleanup).error.None? && name !in r.experiments.entries ==>
              && s.error == Some(NotFoundMessage(name))
              && s.runner.active == None
              && s.effects == Stop(r, cleanup).effects
    ensures Stop(r, cleanup).error.None? && name in r.experiments.entries ==>
              && s.runner.active == Some(name)
              && s.effects == Stop(r, cleanup).effects + [Call(r.experiments.entries[name].run)]
              && (s.error.Some? <==> body.Throws?)
              && (body.Throws? ==> s.error == Some(body.error))
  {
    var stopped := Stop(r, cleanup);
    if stopped.error.Some? then stopped
    else
      var started := Start(stopped.runner, name, body);
      Step(started.runner, stopped.effects + started.effects, started.error)
  }

  /** While the active experiment's cleanup keeps throwing, every `run` rejects with that
      error: the experiment stays active and no other experiment's `run` is called. */
  lemma ThrowingCleanupBlocksRun(r: Runner, name: string, error: string, body: Outcome)
    requires r.active.Some? && HasCleanup(r, r.active.value)
    ensures var s := Run(r, name, Throws(error), body);
            && s.error == Some(error)
            && s.runner == r
            && s.effects == [Call(r.experiments.entries[r.active.value].cleanup.value)]
  {
  }

  /** `getExperiments`: the latest registration under each name, in the order the names
      were first registered. */
  function GetExperiments(r: Runner): (es: seq<Experiment>)
    requires Inv(r)
    ensures |es| == |r.experiments.order|
    ensures forall i :: 0 <= i < |es| ==> es[i] == r.experiments.entries[r.experiments.order[i]]
    ensures forall i :: 0 <= i < |es| ==> es[i].name == r.experiments.order[i]
    ensures forall i, j :: 0 <= i < j < |es| ==> es[i].name != es[j].name
  {
    InsertionMap.Values(r.experiments)
  }

  /** The operations of the runner, for reasoning about arbitrary sequences of calls:
      `run` and `stop` both with the null test and as the source writes them, with the
      truthiness test, so that every result below covers either reading. */
  datatype Command =
    | RegisterCmd(e: Experiment)
    | RunCmd(name: string, cleanup: Outcome, body: Outcome)
    | StopCmd(cleanup: Outcome)
    | RunAsWrittenCmd(name: string, cleanup: Outcome, body: Outcome)
    | StopAsWrittenCmd(cleanup: Outcome)

  function Exec(r: Runner, c: Command): (r': Runner)
    requires Inv(r)
  {
    match c
    case RegisterCmd(e) => Register(r, e)
    case RunCmd(name, cleanup, body) => Run(r, name, cleanup, body).runner
    case StopCmd(cleanup) => Stop(r, cleanup).runner
    case RunAsWrittenCmd(name, cleanup, body) => RunAsWritten(r, name, cleanup, body).runner
    case StopAsWrittenCmd(cleanup) => StopAsWritten(r, cleanup).runner
  }

  /** Every operation, the as-written `run` and `stop` included, keeps the invariant: in
      particular the active experiment is always null or a registered name. */
  lemma ExecPreservesInv(r: Runner, c: Command)
    requires Inv(r)
    ensures Inv(Exec(r, c))
  {
  }

  function ExecAll(r: Runner, cs: seq<Command>): (r': Runner)
    requires Inv(r)
    ensures Inv(r')
    decreases |cs|
  {
    if |cs| == 0 then r
    else
      ExecPreservesInv(r, cs[0]);
      ExecAll(Exec(r, cs[0]), cs[1..])
  }

  /** Nothing ever removes a registration: a name registered before any sequence of calls
      is still registered after it. */
  lemma {:induction false} RegistrationsPersist(r: Runner, cs: seq<Command>, name: string)
    requires Inv(r) && name in r.experiments.entries
    ensures name in ExecAll(r, cs).experiments.entries
    decreases |cs|
  {
    if |cs| > 0 {
      ExecPreservesInv(r, cs[0]);
      RegistrationsPersist(Exec(r, cs[0]), cs[1..], name);
    }
  }

  /** The experiments registered by the given calls, one per distinct name, in first
      registration order, each the latest registered under its name. */
  function RegisterAll(es: seq<Experiment>): (r: Runner)
    ensures Inv(r)
    ensures r.active == None
  {
    if |es| == 0 then Empty() else Register(RegisterAll(es[..|es| - 1]), es[|es| - 1])
  }

  function AsEntries(es: seq<Experiment>): (ops: seq<InsertionMap.Entry<Experiment>>)
    ensures |ops| == |es|
    ensures forall i :: 0 <= i < |es| ==> ops[i] == InsertionMap.Entry(es[i].name, es[i])
  {
    seq(|es|, i requires 0 <= i < |es| => InsertionMap.Entry(es[i].name, es[i]))
  }

  lemma {:induction false} RegisterAllIsSetAll(es: seq<Experiment>)
    ensures RegisterAll(es).experiments == InsertionMap.SetAll(AsEntries(es))
  {
    if |es| > 0 {
      var n := |es| - 1;
      var ops := AsEntries(es);
      assert ops[..n] == AsEntries(es[..n]);
      RegisterAllIsSetAll(es[..n]);
      assert RegisterAll(es).experiments == InsertionMap.Set(RegisterAll(es[..n]).experiments, es[n].name, es[n]);
      assert InsertionMap.SetAll(ops) == InsertionMap.Set(InsertionMap.SetAll(ops[..n]), es[n].name, es[n]);
    }
  }

  /** Every registered name is listed by the runner. */
  lemma RegisteredNameListed(es: seq<Experiment>, i: nat)
    requires i < |es|
    ensures es[i].name in RegisterAll(es).experiments.order
  {
    var ops := AsEntries(es);
    RegisterAllIsSetAll(es);
    InsertionMap.SetAllEntries(ops);
    assert ops[i].key == es[i].name;
    assert InsertionMap.Mentions(ops, es[i].name);
  }

  /** `getExperiments` after a sequence of registrations: each entry is the last
      experiment registered under its name. */
  lemma GetExperimentsHoldsLatest(es: seq<Experiment>)
    ensures forall j :: 0 <= j < |GetExperiments(RegisterAll(es))| ==>
              var e := GetExperiments(RegisterAll(es))[j];
              InsertionMap.Mentions(AsEntries(es), e.name) && e == es[InsertionMap.LastIndex(AsEntries(es), e.name)]
  {
    var r := RegisterAll(es);
    var m := r.experiments;
    var ops := AsEntries(es);
    var got := GetExperiments(r);
    RegisterAllIsSetAll(es);
    InsertionMap.SetAllEntries(ops);
    forall j | 0 <= j < |got|
      ensures InsertionMap.Mentions(ops, got[j].name) && got[j] == es[InsertionMap.LastIndex(ops, got[j].name)]
    {
      var k := m.order[j];
      assert k in m.entries && got[j] == m.entries[k] && got[j].name == k;
      assert InsertionMap.Mentions(ops, k);
      var li := InsertionMap.LastIndex(ops, k);
      assert m.entries[k] == ops[li].value;
      assert ops[li].value == es[li];
    }
  }

  /** `getExperiments` after a sequence of registrations lists every registered name. */
  lemma GetExperimentsCoversNames(es: seq<Experiment>)
    ensures forall i :: 0 <= i < |es| ==>
              exists j :: 0 <= j < |GetExperiments(RegisterAll(es))| && GetExperiments(RegisterAll(es))[j].name == es[i].name
  {
    var r := RegisterAll(es);
    var got := GetExperiments(r);
    forall i | 0 <= i < |es|
      ensures exists j :: 0 <= j < |got| && got[j].name == es[i].name
    {
      RegisteredNameListed(es, i);
      var j :| 0 <= j < |r.experiments.order| && r.experiments.order[j] == es[i].name;
      assert got[j].name == es[i].name;
    }
  }

  /** `getExperiments` after a sequence of registrations lists names in the order of their
      first registration. */
  lemma GetExperimentsInFirstOrder(es: seq<Experiment>)
    ensures forall i, j :: 0 <= i < j < |GetExperiments(RegisterAll(es))| ==>
              InsertionMap.FirstIndex(AsEntries(es), GetExperiments(RegisterAll(es))[i].name)
                < InsertionMap.FirstIndex(AsEntries(es), GetExperiments(RegisterAll(es))[j].name)
  {
    var order := RegisterAll(es).experiments.order;
    var got := GetExperiments(RegisterAll(es));
    RegisterAllIsSetAll(es);
    forall i, j | 0 <= i < j < |got|
      ensures InsertionMap.FirstIndex(AsEntries(es), got[i].name) < InsertionMap.FirstIndex(AsEntries(es), got[j].name)
    {
      assert got[i].name == order[i] && got[j].name == order[j];
      InsertionMap.SetAllOrderPair(AsEntries(es), i, j);
    }
  }

  /** JavaScript truthiness of the active-experiment field: both `null` and the empty
      string are falsy. */
  predicate Truthy(active: Option<string>) {
    active.Some? && active.value != ""
  }

  /** `stop` as the source writes it: `if (!this.activeExperiment) return` also returns
      when the active experiment is named "". */
  function StopAsWritten(r: Runner, cleanup: Outcome): (s: Step)
    ensures !Truthy(r.active) ==> s == Step(r, [], None)
    ensures Truthy(r.active) ==> s == Stop(r, cleanup)
  {
    if !Truthy(r.active) then Step(r, [], None) else Teardown(r, r.active.value, cleanup)
  }

  /** `run` as the source writes it: the previous experiment is stopped only when its name
      is truthy; otherwise the lookup and start follow directly. */
  function RunAsWritten(r: Runner, name: string, cleanup: Outcome, body: Outcome): (s: Step)
    ensures s.runner.experiments == r.experiments
    ensures !Truthy(r.active) ==> s == Start(r, name, body)
    ensures Truthy(r.active) ==> s == Run(r, name, cleanup, body)
  {
    var stopped := if Truthy(r.active) then StopAsWritten(r, cleanup) else Step(r, [], None);
    if stopped.error.Some? then stopped
    else
      var started := Start(stopped.runner, name, body);
      Step(started.runner, stopped.effects + started.effects, started.error)
  }

  /** The source's truthiness tests and the null tests agree except when the active
      experiment is named "". */
  lemma AsWrittenAgreesUnlessEmptyName(r: Runner, name: string, cleanup: Outcome, body: Outcome)
    requires r.active != Some("")
    ensures StopAsWritten(r, cleanup) == Stop(r, cleanup)
    ensures RunAsWritten(r, name, cleanup, body) == Run(r, name, cleanup, body)
  {
  }

  /** An experiment named "" with a cleanup callback: once run, `stop` as written neither
      calls its cleanup nor clears it, and running another experiment replaces it without
      its cleanup ever being called. The null-testing `Stop` and `Run` do call it. */
  lemma EmptyNameIsNeverStopped()
    ensures var quiet := Experiment("", "", Callback(0), Some(Callback(1)));
            var other := Experiment("b", "", Callback(2), None);
            var r := Register(Register(Empty(), quiet), other);
            var running := RunAsWritten(r, "", Completes, Completes).runner;
            && running.active == Some("")
            && StopAsWritten(running, Completes) == Step(running, [], None)
            && RunAsWritten(running, "b", Completes, Completes).effects == [Call(Callback(2))]
            && Stop(running, Completes).effects == [Call(Callback(1))]
            && Run(running, "b", Completes, Completes).effects == [Call(Callback(1)), Call(Callback(2))]
  {
    var quiet := Experiment("", "", Callback(0), Some(Callback(1)));
    var other := Experiment("b", "", Callback(2), None);
    var r := Register(Register(Empty(), quiet), other);
    assert r.experiments.entries[""] == quiet;
    assert r.experiments.entries["b"] == other;
  }
}
