/** The execution engine: the context it owns, `execute_step`, which
    compiles a step, dispatches it to the registered operation and feeds an
    `ask_user` answer back into the context, and `execute`, which runs the
    steps of a configuration in order and stops at the first failure. */
module Engine {
  import opened Values
  import opened Flattening
  import opened Template
  import opened Compile

  /** `this.context`: created as `{ user_input: {}, utils }`; `execute`
      adds `project`. */
  datatype Context = Context(userInput: Fields, utils: Value, project: Option<Value>)

  /** The context as the object that flattening and the operations see,
      its properties in insertion order. */
  function ContextFields(ctx: Context): (r: Fields)
    ensures Lookup(r, "user_input") == Some(Obj(ctx.userInput))
    ensures Lookup(r, "utils") == Some(ctx.utils)
    ensures Lookup(r, "project") == ctx.project
    ensures DistinctKeys(r)
  {
    var head := [Property("user_input", Obj(ctx.userInput)), Property("utils", ctx.utils)];
    assert "user_input"[0] != "project"[0] && "utils"[0] != "project"[0] && "user_input"[1] != "utils"[1];
    assert KeySet(head[1..]) == {"utils"} && DistinctKeys(head[1..]) by { assert head[1..][1..] == []; }
    if ctx.project.None? then head
    else
      var r := head + [Property("project", ctx.project.value)];
      var last := [Property("project", ctx.project.value)];
      assert r[1..][1..] == last;
      assert Lookup(r[1..], "project") == Lookup(last, "project");
      assert KeySet(r[1..]) == {"utils", "project"} by { assert KeySet(last) == {"project"}; }
      assert DistinctKeys(r[1..]) by { assert last[1..] == []; }
      r
  }

  /** How an awaited operation ends: with a value, or by throwing. */
  datatype Outcome = Returned(result: Value) | Threw(error: string)

  /** An operation, called with the compiled step and the context. */
  type Operation = (Fields, Fields) -> Outcome

  /** The errors `execute_step` lets escape: an unknown operation type
      (the message is "Unknown operation type: " followed by the name), or
      whatever the operation threw. */
  datatype Failure = UnknownOperation(typeName: string) | OperationFailed(error: string)

  datatype Config = Config(project: Value, steps: seq<Fields>)

  /** `execute` either returns, or throws the failure of step `index`. */
  datatype RunResult = Completed | FailedAt(index: nat, failure: Failure)

  /** What one `execute_step` call does: how it ends, the context after it,
      and the compiled step it handed to an operation, if it called one. */
  datatype StepEffect = StepEffect(failure: Option<Failure>, context: Context, call: Option<Fields>)

  /** The property name a compiled step's `field` converts to when it is
      used as a key, as in `operations[compiled.type]` and
      `context.user_input[compiled.variable]`: the field itself when it is
      a string, "undefined" when the step has none. */
  function PropertyOf(compiled: Fields, field: string): (name: string)
    ensures Lookup(compiled, field) == None ==> name == "undefined"
    ensures Lookup(compiled, field).Some? && Lookup(compiled, field).value.Str? ==>
              name == Lookup(compiled, field).value.s
  {
    PropertyKey(Lookup(compiled, field))
  }

  /** The registry key `operations[compiled.type]` looks up. */
  function OperationName(compiled: Fields): string
  {
    PropertyOf(compiled, "type")
  }

  /** `compiled.type === "ask_user"`; such a step is dispatched to the
      operation registered as "ask_user". */
  predicate IsAskUser(compiled: Fields)
    ensures IsAskUser(compiled) ==> OperationName(compiled) == "ask_user"
  {
    Lookup(compiled, "type") == Some(Str("ask_user"))
  }

  /** The key `context.user_input[compiled.variable]` writes. */
  function AnswerKey(compiled: Fields): string
  {
    PropertyOf(compiled, "variable")
  }

  /** One `execute_step(step)` against the context `ctx`. */
  function StepSpec(operations: map<string, Operation>, ctx: Context, step: Fields): (e: StepEffect)
    ensures e.context.utils == ctx.utils && e.context.project == ctx.project
    ensures e.failure.Some? ==> e.context == ctx
    ensures e.call.None? <==> e.failure.Some? && e.failure.value.UnknownOperation?
    ensures e.call.Some? ==> e.call.value == CompileStep(step, ContextFields(ctx))
    ensures KeySet(ctx.userInput) <= KeySet(e.context.userInput)
    ensures DistinctKeys(ctx.userInput) ==> DistinctKeys(e.context.userInput)
  {
    var compiled := CompileStep(step, ContextFields(ctx));
    var name := OperationName(compiled);
    if name !in operations then StepEffect(Some(UnknownOperation(name)), ctx, None)
    else
      match operations[name](compiled, ContextFields(ctx))
      case Threw(error) => StepEffect(Some(OperationFailed(error)), ctx, Some(compiled))
      case Returned(result) =>
        var ctx' :=
          if IsAskUser(compiled) then ctx.(userInput := Put(ctx.userInput, AnswerKey(compiled), result))
          else ctx;
        StepEffect(None, ctx', Some(compiled))
  }

  /** An unregistered operation type fails the step before any operation
      is called and leaves the context unchanged. Only a step whose compiled
      type is "ask_user" changes `user_input`: it sets the key named by its
      compiled `variable` to the operation's result and leaves every other
      key as it was, so no key is ever removed. */
  lemma StepUserInput(operations: map<string, Operation>, ctx: Context, step: Fields)
    ensures var e := StepSpec(operations, ctx, step);
      var compiled := CompileStep(step, ContextFields(ctx));
      var name := OperationName(compiled);
      && (e.failure == Some(UnknownOperation(name)) <==> name !in operations)
      && (name !in operations ==> e.call == None && e.context == ctx)
      && (!IsAskUser(compiled) ==> e.context.userInput == ctx.userInput)
      && (IsAskUser(compiled) && e.failure.None? ==>
            && name in operations
            && var outcome := operations[name](compiled, ContextFields(ctx));
            && outcome.Returned?
            && Lookup(e.context.userInput, AnswerKey(compiled)) == Some(outcome.result)
            && KeySet(e.context.userInput) == KeySet(ctx.userInput) + {AnswerKey(compiled)}
            && forall k :: k != AnswerKey(compiled) ==> Lookup(e.context.userInput, k) == Lookup(ctx.userInput, k))
      && (name in operations ==>
            var outcome := operations[name](compiled, ContextFields(ctx));
            && (e.failure.Some? <==> outcome.Threw?)
            && (outcome.Threw? ==> e.failure == Some(OperationFailed(outcome.error))))
  {
  }

  function CallList(call: Option<Fields>): seq<Fields>
  {
    if call.Some? then [call.value] else []
  }

  /** The outcome of a run: how it ended, the final context, and the
      compiled steps handed to operations, in order. */
  datatype Run = Run(result: RunResult, context: Context, calls: seq<Fields>)

  /** The loop of `execute` from step `i` on, `calls` being the operation
      calls made so far. */
  function RunFrom(operations: map<string, Operation>, ctx: Context, steps: seq<Fields>, i: nat, calls: seq<Fields>): Run
    requires i <= |steps|
    decreases |steps| - i
  {
    if i == |steps| then Run(Completed, ctx, calls)
    else
      var e := StepSpec(operations, ctx, steps[i]);
      var calls' := calls + CallList(e.call);
      if e.failure.Some? then Run(FailedAt(i, e.failure.value), e.context, calls')
      else RunFrom(operations, e.context, steps, i + 1, calls')
  }

  /** One turn of the loop of `execute`. */
  lemma RunFromStep(operations: map<string, Operation>, ctx: Context, steps: seq<Fields>, i: nat, calls: seq<Fields>)
    requires i < |steps|
    ensures var e := StepSpec(operations, ctx, steps[i]);
      RunFrom(operations, ctx, steps, i, calls) ==
        if e.failure.Some? then Run(FailedAt(i, e.failure.value), e.context, calls + CallList(e.call))
        else RunFrom(operations, e.context, steps, i + 1, calls + CallList(e.call))
  {
  }

  /** The calls made before step `i` are carried through unchanged. */
  lemma {:induction false} RunFromCalls(operations: map<string, Operation>, ctx: Context, steps: seq<Fields>, i: nat, earlier: seq<Fields>, calls: seq<Fields>)
    requires i <= |steps|
    ensures var r := RunFrom(operations, ctx, steps, i, calls);
      RunFrom(operations, ctx, steps, i, earlier + calls) == r.(calls := earlier + r.calls)
    decreases |steps| - i
  {
    if i < |steps| {
      var e := StepSpec(operations, ctx, steps[i]);
      assert earlier + calls + CallList(e.call) == earlier + (calls + CallList(e.call));
      if e.failure.None? {
        RunFromCalls(operations, e.context, steps, i + 1, earlier, calls + CallList(e.call));
      }
    }
  }

  /** The loop from step `i` on makes at most one call per remaining step
      and fails, if at all, at one of those steps. */
  lemma {:induction false} RunFromBounds(operations: map<string, Operation>, ctx: Context, steps: seq<Fields>, i: nat, calls: seq<Fields>)
    requires i <= |steps|
    ensures var r := RunFrom(operations, ctx, steps, i, calls);
      && |r.calls| <= |calls| + (|steps| - i)
      && (r.result.FailedAt? ==> i <= r.result.index < |steps|)
    decreases |steps| - i
  {
    if i < |steps| {
      var e := StepSpec(operations, ctx, steps[i]);
      var calls' := calls + CallList(e.call);
      RunFromStep(operations, ctx, steps, i, calls);
      if e.failure.None? {
        RunFromBounds(operations, e.context, steps, i + 1, calls');
      }
    }
  }

  /** The loop from step `i` on never changes `utils` or `project`. */
  lemma {:induction false} RunFromKeeps(operations: map<string, Operation>, ctx: Context, steps: seq<Fields>, i: nat, calls: seq<Fields>)
    requires i <= |steps|
    ensures var r := RunFrom(operations, ctx, steps, i, calls);
      r.context.utils == ctx.utils && r.context.project == ctx.project
    decreases |steps| - i
  {
    if i < |steps| {
      var e := StepSpec(operations, ctx, steps[i]);
      RunFromStep(operations, ctx, steps, i, calls);
      if e.failure.None? {
        RunFromKeeps(operations, e.context, steps, i + 1, calls + CallList(e.call));
      }
    }
  }

  /** `execute` over `steps` from the context `ctx`: at most one operation
      call per step, and a failure names one of the steps. */
  function RunSteps(operations: map<string, Operation>, ctx: Context, steps: seq<Fields>): (r: Run)
    ensures |r.calls| <= |steps|
    ensures r.result.FailedAt? ==> r.result.index < |steps|
    ensures r.context.utils == ctx.utils && r.context.project == ctx.project
  {
    RunFromBounds(operations, ctx, steps, 0, []);
    RunFromKeeps(operations, ctx, steps, 0, []);
    RunFrom(operations, ctx, steps, 0, [])
  }

  /** The context after running `steps` one after another from `ctx`
      (a failed step leaves the context as it was). */
  function ContextAfter(operations: map<string, Operation>, ctx: Context, steps: seq<Fields>): Context
    decreases |steps|
  {
    if steps == [] then ctx
    else StepSpec(operations, ContextAfter(operations, ctx, steps[..|steps| - 1]), steps[|steps| - 1]).context
  }

  /** Step `j` of a run from `ctx`, against the context the steps before it left. */
  function StepAt(operations: map<string, Operation>, ctx: Context, steps: seq<Fields>, j: nat): StepEffect
    requires j < |steps|
  {
    StepSpec(operations, ContextAfter(operations, ctx, steps[..j]), steps[j])
  }

  /** The compiled step that step `j` of a run from `ctx` hands to its
      operation: step `j` compiled against the context the steps before it
      left. */
  function CompiledAt(operations: map<string, Operation>, ctx: Context, steps: seq<Fields>, j: nat): Fields
    requires j < |steps|
  {
    CompileStep(steps[j], ContextFields(ContextAfter(operations, ctx, steps[..j])))
  }

  /** `[f(0), …, f(n-1)]` */
  function Prefix<T>(f: nat --> T, n: nat): (r: seq<T>)
    requires forall j :: 0 <= j < n ==> f.requires(j)
    ensures |r| == n
    decreases n
  {
    if n == 0 then [] else Prefix(f, n - 1) + [f(n - 1)]
  }

  lemma {:induction false} PrefixAt<T>(f: nat --> T, n: nat, j: nat)
    requires forall j :: 0 <= j < n ==> f.requires(j)
    requires j < n
    ensures Prefix(f, n)[j] == f(j)
    decreases n
  {
    if j < n - 1 {
      PrefixAt(f, n - 1, j);
    }
  }

  /** The compiled steps handed to operations by steps 0..n-1 of a run in
      which all of them reached their operation. */
  function CompiledPrefix(operations: map<string, Operation>, ctx: Context, steps: seq<Fields>, n: nat): (r: seq<Fields>)
    requires n <= |steps|
    ensures |r| == n
  {
    Prefix((j: nat) requires j < |steps| => CompiledAt(operations, ctx, steps, j), n)
  }

  /** The j-th operation call received step j, for every call made. */
  lemma CompiledPrefixAt(operations: map<string, Operation>, ctx: Context, steps: seq<Fields>, n: nat, j: nat)
    requires j < n <= |steps|
    ensures CompiledPrefix(operations, ctx, steps, n)[j] == CompiledAt(operations, ctx, steps, j)
  {
    PrefixAt((j: nat) requires j < |steps| => CompiledAt(operations, ctx, steps, j), n, j);
  }

  /** Steps 0..n-1 all succeeded. */
  ghost predicate SucceededBefore(operations: map<string, Operation>, ctx: Context, steps: seq<Fields>, n: nat)
    requires n <= |steps|
  {
    forall j :: 0 <= j < n ==> StepAt(operations, ctx, steps, j).failure.None?
  }

  /** The number of operation calls a run makes when it stops with `result`. */
  function CallCount(result: RunResult, stepCount: nat): nat
  {
    match result
    case Completed => stepCount
    case FailedAt(k, UnknownOperation(_)) => k
    case FailedAt(k, OperationFailed(_)) => k + 1
  }

  /** The number of steps that succeeded in a run that stops with `result`. */
  function SucceededCount(result: RunResult, stepCount: nat): nat
  {
    match result
    case Completed => stepCount
    case FailedAt(k, _) => k
  }

  /** The number of steps a run attempts when it stops with `result`. */
  function Attempted(result: RunResult, stepCount: nat): nat
  {
    match result
    case Completed => stepCount
    case FailedAt(k, _) => k + 1
  }

  lemma {:induction false} ContextAfterStep(operations: map<string, Operation>, ctx: Context, steps: seq<Fields>, i: nat)
    requires i < |steps|
    ensures ContextAfter(operations, ctx, steps[..i + 1]) == StepAt(operations, ctx, steps, i).context
  {
    assert steps[..i + 1][..i] == steps[..i];
    assert steps[..i + 1][i] == steps[i];
  }

  /** One step of a run whose earlier steps all succeeded. */
  lemma InOrderStep(operations: map<string, Operation>, ctx: Context, steps: seq<Fields>, i: nat, calls: seq<Fields>)
    requires i < |steps|
    requires SucceededBefore(operations, ctx, steps, i)
    requires calls == CompiledPrefix(operations, ctx, steps, i)
    ensures var e := StepAt(operations, ctx, steps, i);
      var calls' := calls + CallList(e.call);
      && RunFrom(operations, ContextAfter(operations, ctx, steps[..i]), steps, i, calls) ==
           (if e.failure.Some? then Run(FailedAt(i, e.failure.value), e.context, calls')
            else RunFrom(operations, e.context, steps, i + 1, calls'))
      && e.context == ContextAfter(operations, ctx, steps[..i + 1])
      && calls' == CompiledPrefix(operations, ctx, steps, if e.call.Some? then i + 1 else i)
      && (e.failure.None? ==> SucceededBefore(operations, ctx, steps, i + 1))
  {
    var e := StepAt(operations, ctx, steps, i);
    RunFromStep(operations, ContextAfter(operations, ctx, steps[..i]), steps, i, calls);
    ContextAfterStep(operations, ctx, steps, i);
    CallsStep(operations, ctx, steps, i, calls);
    if e.failure.None? {
      SucceededStep(operations, ctx, steps, i);
    }
  }

  /** The call step i makes, if any, extends the calls of steps 0..i-1. */
  lemma CallsStep(operations: map<string, Operation>, ctx: Context, steps: seq<Fields>, i: nat, calls: seq<Fields>)
    requires i < |steps|
    requires calls == CompiledPrefix(operations, ctx, steps, i)
    ensures var e := StepAt(operations, ctx, steps, i);
      calls + CallList(e.call) == CompiledPrefix(operations, ctx, steps, if e.call.Some? then i + 1 else i)
  {
    var e := StepAt(operations, ctx, steps, i);
    if e.call.None? {
      assert calls + CallList(e.call) == calls;
    } else {
      assert e.call.value == CompiledAt(operations, ctx, steps, i);
    }
  }

  lemma SucceededStep(operations: map<string, Operation>, ctx: Context, steps: seq<Fields>, i: nat)
    requires i < |steps|
    requires SucceededBefore(operations, ctx, steps, i)
    requires StepAt(operations, ctx, steps, i).failure.None?
    ensures SucceededBefore(operations, ctx, steps, i + 1)
  {
  }

  /** What a run `r` from `ctx` promises: it stopped at its first failing
      step, if any, every earlier step succeeded, the j-th operation call
      received step j compiled against the context the earlier steps left,
      and the final context is the one the attempted steps left. */
  ghost predicate InOrder(operations: map<string, Operation>, ctx: Context, steps: seq<Fields>, r: Run)
  {
    && (r.result.FailedAt? ==> r.result.index < |steps|
                               && StepAt(operations, ctx, steps, r.result.index).failure == Some(r.result.failure))
    && |r.calls| == CallCount(r.result, |steps|)
    && Attempted(r.result, |steps|) <= |steps|
    && SucceededBefore(operations, ctx, steps, SucceededCount(r.result, |steps|))
    && r.calls == CompiledPrefix(operations, ctx, steps, CallCount(r.result, |steps|))
    && r.context == ContextAfter(operations, ctx, steps[..Attempted(r.result, |steps|)])
  }

  /** A run that stops at step i. */
  lemma FailedInOrder(operations: map<string, Operation>, ctx: Context, steps: seq<Fields>, i: nat, calls: seq<Fields>)
    requires i < |steps|
    requires SucceededBefore(operations, ctx, steps, i)
    requires calls == CompiledPrefix(operations, ctx, steps, i)
    requires StepAt(operations, ctx, steps, i).failure.Some?
    ensures InOrder(operations, ctx, steps, RunFrom(operations, ContextAfter(operations, ctx, steps[..i]), steps, i, calls))
  {
    InOrderStep(operations, ctx, steps, i, calls);
    var e := StepAt(operations, ctx, steps, i);
    var r := Run(FailedAt(i, e.failure.value), e.context, calls + CallList(e.call));
    assert CallCount(r.result, |steps|) == if e.call.Some? then i + 1 else i;
    FailedRunInOrder(operations, ctx, steps, i, r);
  }

  lemma FailedRunInOrder(operations: map<string, Operation>, ctx: Context, steps: seq<Fields>, i: nat, r: Run)
    requires i < |steps| && r.result.FailedAt? && r.result.index == i
    requires SucceededBefore(operations, ctx, steps, i)
    requires StepAt(operations, ctx, steps, i).failure == Some(r.result.failure)
    requires r.context == ContextAfter(operations, ctx, steps[..i + 1])
    requires r.calls == CompiledPrefix(operations, ctx, steps, CallCount(r.result, |steps|))
    ensures InOrder(operations, ctx, steps, r)
  {
  }

  lemma {:induction false} RunFromInOrder(operations: map<string, Operation>, ctx: Context, steps: seq<Fields>, i: nat, calls: seq<Fields>)
    requires i <= |steps|
    requires SucceededBefore(operations, ctx, steps, i)
    requires calls == CompiledPrefix(operations, ctx, steps, i)
    ensures var r := RunFrom(operations, ContextAfter(operations, ctx, steps[..i]), steps, i, calls);
      && InOrder(operations, ctx, steps, r)
      && (r.result.FailedAt? ==> i <= r.result.index)
    decreases |steps| - i
  {
    if i == |steps| {
      assert steps[..i] == steps;
    } else {
      InOrderStep(operations, ctx, steps, i, calls);
      var e := StepAt(operations, ctx, steps, i);
      if e.failure.None? {
        RunFromInOrder(operations, ctx, steps, i + 1, calls + CallList(e.call));
      } else {
        FailedInOrder(operations, ctx, steps, i, calls);
      }
    }
  }

  /** Steps are dispatched strictly in declaration order. A run that ends
      with `FailedAt(k, f)` attempted steps 0..k and no later one: steps
      before k succeeded, step k failed with f, and operations were called
      for steps 0..k-1, and for step k too unless its type was unknown. The
      j-th operation call received step j compiled against the context the
      earlier steps left, and the final context is the one the attempted
      steps left. */
  lemma RunInOrder(operations: map<string, Operation>, ctx: Context, steps: seq<Fields>)
    ensures var r := RunSteps(operations, ctx, steps);
      && (r.result.FailedAt? ==> r.result.index < |steps|
                                 && StepAt(operations, ctx, steps, r.result.index).failure == Some(r.result.failure))
      && |r.calls| == CallCount(r.result, |steps|)
      && Attempted(r.result, |steps|) <= |steps|
      && SucceededBefore(operations, ctx, steps, SucceededCount(r.result, |steps|))
      && r.calls == CompiledPrefix(operations, ctx, steps, CallCount(r.result, |steps|))
      && r.context == ContextAfter(operations, ctx, steps[..Attempted(r.result, |steps|)])
  {
    assert steps[..0] == [];
    RunFromInOrder(operations, ctx, steps, 0, []);
    assert InOrder(operations, ctx, steps, RunSteps(operations, ctx, steps));
  }

  lemma {:induction false} ContextAfterGrows(operations: map<string, Operation>, ctx: Context, steps: seq<Fields>)
    ensures var c := ContextAfter(operations, ctx, steps);
      && c.utils == ctx.utils && c.project == ctx.project
      && KeySet(ctx.userInput) <= KeySet(c.userInput)
      && (DistinctKeys(ctx.userInput) ==> DistinctKeys(c.userInput))
    decreases |steps|
  {
    if steps != [] {
      ContextAfterGrows(operations, ctx, steps[..|steps| - 1]);
    }
  }

  /** A run never removes a `user_input` entry and never changes
      `project` or `utils`. */
  lemma RunKeepsContext(operations: map<string, Operation>, ctx: Context, steps: seq<Fields>)
    ensures var c := RunSteps(operations, ctx, steps).context;
      && c.utils == ctx.utils && c.project == ctx.project
      && KeySet(ctx.userInput) <= KeySet(c.userInput)
      && (DistinctKeys(ctx.userInput) ==> DistinctKeys(c.userInput))
  {
    RunInOrder(operations, ctx, steps);
    var r := RunSteps(operations, ctx, steps);
    ContextAfterGrows(operations, ctx, steps[..Attempted(r.result, |steps|)]);
  }

  // ---------------------------------------------------------------------
  // What later steps see of `user_input`.

  lemma {:induction false} WritesKeyPrefix(prefix: string, f: Fields)
    ensures forall w :: w in Writes(prefix, f) ==> prefix <= w.key
    decreases f
  {
    if f != [] {
      WritesKeyPrefix(prefix, f[1..]);
      if f[0].val.Obj? {
        WritesKeyPrefix(prefix + f[0].key + "_", f[0].val.fields);
      }
    }
  }

  lemma WritesOfPropertyPrefix(name: string, v: Value)
    ensures forall w :: w in Writes("", [Property(name, v)]) ==> name <= w.key
  {
    var f := [Property(name, v)];
    assert f[1..] == [];
    if v.Obj? {
      WritesKeyPrefix("" + name + "_", v.fields);
    } else {
      assert Writes("", f) == [Property("" + name, v)];
    }
    assert "" + name == name;
  }

  lemma {:induction false} LastWriteOfLeaves(prefix: string, f: Fields, k: string)
    requires Leaves(f) && DistinctKeys(f)
    ensures LastWrite(Writes(prefix, f), prefix + k) == Lookup(f, k)
    decreases f
  {
    if f != [] {
      assert f[0] in f;
      assert Leaves(f[1..]) by {
        forall p | p in f[1..] ensures IsLeaf(p.val) { assert p in f; }
      }
      var ws := Writes(prefix, f);
      assert ws == [Property(prefix + f[0].key, f[0].val)] + Writes(prefix, f[1..]);
      assert ws[1..] == Writes(prefix, f[1..]);
      LastWriteOfLeaves(prefix, f[1..], k);
      if f[0].key != k {
        assert (prefix + f[0].key)[|prefix|..] == f[0].key;
        assert (prefix + k)[|prefix|..] == k;
      }
    }
  }

  /** When every answer stored in `user_input` is a leaf (a string, as the
      interactive prompt returns), the flattened context holds under
      `user_input_<v>` exactly `user_input[v]`, and nothing when `v` has not
      been answered: no `utils` or `project` key can collide with it. */
  lemma FlattenedUserInput(ctx: Context, v: string)
    requires Leaves(ctx.userInput) && DistinctKeys(ctx.userInput)
    ensures Lookup(Flatten(ContextFields(ctx)), "user_input_" + v) == Lookup(ctx.userInput, v)
  {
    var key := "user_input_" + v;
    var cf := ContextFields(ctx);
    var head := [Property("user_input", Obj(ctx.userInput))];
    var others := OtherFields(ctx);
    assert cf == head + others;
    WritesAppend("", head, others);
    UserInputWrites(ctx);
    OtherWritesMiss(ctx, key);
    LastWriteAppend(Writes("", head), Writes("", others), key);
    LastWriteOfLeaves("user_input_", ctx.userInput, v);
    FlattenLookup(cf, key);
  }

  /** The context properties after `user_input`. */
  function OtherFields(ctx: Context): Fields
  {
    [Property("utils", ctx.utils)] + (if ctx.project.Some? then [Property("project", ctx.project.value)] else [])
  }

  lemma UserInputWrites(ctx: Context)
    ensures Writes("", [Property("user_input", Obj(ctx.userInput))]) == Writes("user_input_", ctx.userInput)
  {
    var head := [Property("user_input", Obj(ctx.userInput))];
    assert head[1..] == [];
    assert "" + "user_input" + "_" == "user_input_";
  }

  /** No `utils` or `project` path flattens to a `user_input_` key. */
  lemma OtherWritesMiss(ctx: Context, key: string)
    requires |key| >= 2 && key[0] == 'u' && key[1] == 's'
    ensures LastWrite(Writes("", OtherFields(ctx)), key) == None
  {
    var utils := [Property("utils", ctx.utils)];
    var project := if ctx.project.Some? then [Property("project", ctx.project.value)] else [];
    WritesAppend("", utils, project);
    WritesOfPropertyPrefix("utils", ctx.utils);
    if ctx.project.Some? {
      WritesOfPropertyPrefix("project", ctx.project.value);
    }
    forall w | w in Writes("", utils) + Writes("", project) ensures w.key != key {
      if w in Writes("", utils) {
        assert "utils" <= w.key && w.key[1] == 't';
      } else {
        assert "project" <= w.key && w.key[0] == 'p';
      }
    }
    LastWriteAbsent(Writes("", utils) + Writes("", project), key);
  }

  /** A `{{user_input_<v>}}` placeholder in a step's string field compiles
      to the answer stored for `v`, and to the empty string while `v` has
      not been answered. */
  lemma UserInputPlaceholder(ctx: Context, v: string)
    requires Leaves(ctx.userInput) && DistinctKeys(ctx.userInput)
    requires '}' !in v && (v == [] || !IsSpace(v[|v| - 1]))
    ensures CompileField(Str("{{" + ("user_input_" + v) + "}}"), ContextFields(ctx)) ==
            Str(LeafText(Lookup(ctx.userInput, v)))
  {
    var name := "user_input_" + v;
    assert '}' !in name;
    TrimPadded("", name, "");
    assert "" + name + "" == name;
    CompileString("{{" + name + "}}", ContextFields(ctx));
    FlattenedUserInput(ctx, v);
    MissingOrPresent(name, Flatten(ContextFields(ctx)));
  }

  lemma MissingOrPresent(name: string, flat: Fields)
    requires '}' !in name
    ensures Render("{{" + name + "}}", flat) == LeafText(Lookup(flat, Trim(name)))
  {
    RenderPlaceholder(name, "", flat);
    assert "{{" + name + "}}" + "" == "{{" + name + "}}";
  }

  // ---------------------------------------------------------------------
  // Answers flow from an `ask_user` step into later steps.

  /** Step `j` of a run from `ctx` is an `ask_user` step that succeeded and
      stored its answer under `v`. */
  ghost predicate AnswersAt(operations: map<string, Operation>, ctx: Context, steps: seq<Fields>, j: nat, v: string)
    requires j < |steps|
  {
    var compiled := CompiledAt(operations, ctx, steps, j);
    IsAskUser(compiled) && AnswerKey(compiled) == v && StepAt(operations, ctx, steps, j).failure.None?
  }

  /** The value the operation of step `j` returned (null when it threw or
      was not found). */
  ghost function AnswerAt(operations: map<string, Operation>, ctx: Context, steps: seq<Fields>, j: nat): Value
    requires j < |steps|
  {
    var compiled := CompiledAt(operations, ctx, steps, j);
    var name := OperationName(compiled);
    if name !in operations then Null
    else
      match operations[name](compiled, ContextFields(ContextAfter(operations, ctx, steps[..j])))
      case Returned(result) => result
      case Threw(_) => Null
  }

  /** A step that does not answer `v` leaves `user_input[v]` as it was. */
  lemma StepKeepsAnswer(operations: map<string, Operation>, ctx: Context, steps: seq<Fields>, j: nat, v: string)
    requires j < |steps| && !AnswersAt(operations, ctx, steps, j, v)
    ensures Lookup(ContextAfter(operations, ctx, steps[..j + 1]).userInput, v) ==
            Lookup(ContextAfter(operations, ctx, steps[..j]).userInput, v)
  {
    ContextAfterStep(operations, ctx, steps, j);
    StepUserInput(operations, ContextAfter(operations, ctx, steps[..j]), steps[j]);
  }

  /** A step that answers `v` stores its answer under `v`. */
  lemma StepStoresAnswer(operations: map<string, Operation>, ctx: Context, steps: seq<Fields>, j: nat, v: string)
    requires j < |steps| && AnswersAt(operations, ctx, steps, j, v)
    ensures Lookup(ContextAfter(operations, ctx, steps[..j + 1]).userInput, v) == Some(AnswerAt(operations, ctx, steps, j))
  {
    ContextAfterStep(operations, ctx, steps, j);
    StepUserInput(operations, ContextAfter(operations, ctx, steps[..j]), steps[j]);
  }

  /** Steps a..j-1, none of which answers `v`, leave `user_input[v]` as
      they found it. */
  lemma {:induction false} NoAnswerBetween(operations: map<string, Operation>, ctx: Context, steps: seq<Fields>, a: nat, j: nat, v: string)
    requires a <= j <= |steps|
    requires forall m :: a <= m < j ==> !AnswersAt(operations, ctx, steps, m, v)
    ensures Lookup(ContextAfter(operations, ctx, steps[..j]).userInput, v) ==
            Lookup(ContextAfter(operations, ctx, steps[..a]).userInput, v)
    decreases j
  {
    if a < j {
      assert !AnswersAt(operations, ctx, steps, j - 1, v);
      StepKeepsAnswer(operations, ctx, steps, j - 1, v);
      NoAnswerBetween(operations, ctx, steps, a, j - 1, v);
    }
  }

  /** The answer given at step k is what `user_input[v]` holds for every
      later step j, as long as no step in between answers `v` again. */
  lemma AnswerPersists(operations: map<string, Operation>, ctx: Context, steps: seq<Fields>, k: nat, j: nat, v: string)
    requires k < j <= |steps| && AnswersAt(operations, ctx, steps, k, v)
    requires forall m :: k < m < j ==> !AnswersAt(operations, ctx, steps, m, v)
    ensures Lookup(ContextAfter(operations, ctx, steps[..j]).userInput, v) == Some(AnswerAt(operations, ctx, steps, k))
  {
    StepStoresAnswer(operations, ctx, steps, k, v);
    NoAnswerBetween(operations, ctx, steps, k + 1, j, v);
  }

  /** Until some step answers `v`, `user_input[v]` is what it was when the
      run started. */
  lemma NoAnswerYet(operations: map<string, Operation>, ctx: Context, steps: seq<Fields>, j: nat, v: string)
    requires j <= |steps|
    requires forall m :: 0 <= m < j ==> !AnswersAt(operations, ctx, steps, m, v)
    ensures Lookup(ContextAfter(operations, ctx, steps[..j]).userInput, v) == Lookup(ctx.userInput, v)
  {
    NoAnswerBetween(operations, ctx, steps, 0, j, v);
    assert steps[..0] == [];
  }

  /** In a run from an empty `user_input`, a step no earlier step of which
      answers `v` is handed `{{user_input_<v>}}` rendered as "". */
  lemma UnansweredRendersEmpty(operations: map<string, Operation>, ctx: Context, steps: seq<Fields>, j: nat, v: string, i: nat)
    requires j < |steps| && ctx.userInput == []
    requires forall m :: 0 <= m < j ==> !AnswersAt(operations, ctx, steps, m, v)
    requires Leaves(ContextAfter(operations, ctx, steps[..j]).userInput)
    requires '}' !in v && (v == [] || !IsSpace(v[|v| - 1]))
    requires DistinctKeys(steps[j]) && i < |steps[j]| && steps[j][i].val == Str("{{" + ("user_input_" + v) + "}}")
    ensures var compiled := CompiledAt(operations, ctx, steps, j);
      && |compiled| == |steps[j]|
      && compiled[i] == Property(steps[j][i].key, Str(""))
  {
    var before := ContextAfter(operations, ctx, steps[..j]);
    NoAnswerYet(operations, ctx, steps, j, v);
    ContextAfterGrows(operations, ctx, steps[..j]);
    CompileStepPointwise(steps[j], ContextFields(before));
    UserInputPlaceholder(before, v);
  }

  /** A later step whose property i is `{{user_input_<v>}}` is handed to
      its operation with the answer given at step k in that property. */
  lemma AnswerRenderedLater(operations: map<string, Operation>, ctx: Context, steps: seq<Fields>, k: nat, j: nat, v: string, i: nat)
    requires k < j < |steps| && AnswersAt(operations, ctx, steps, k, v)
    requires forall m :: k < m < j ==> !AnswersAt(operations, ctx, steps, m, v)
    requires DistinctKeys(ctx.userInput) && Leaves(ContextAfter(operations, ctx, steps[..j]).userInput)
    requires '}' !in v && (v == [] || !IsSpace(v[|v| - 1]))
    requires DistinctKeys(steps[j]) && i < |steps[j]| && steps[j][i].val == Str("{{" + ("user_input_" + v) + "}}")
    ensures var compiled := CompiledAt(operations, ctx, steps, j);
      && |compiled| == |steps[j]|
      && compiled[i] == Property(steps[j][i].key, Str(LeafText(Some(AnswerAt(operations, ctx, steps, k)))))
  {
    var before := ContextAfter(operations, ctx, steps[..j]);
    AnswerPersists(operations, ctx, steps, k, j, v);
    ContextAfterGrows(operations, ctx, steps[..j]);
    CompileStepPointwise(steps[j], ContextFields(before));
    UserInputPlaceholder(before, v);
  }

  // ---------------------------------------------------------------------

  /** `ExecutionEngine`: the operation registry it was built with and the
      context it owns. `calls` records, for the proofs, the compiled steps
      handed to operations. */
  class ExecutionEngine {
    const operations: map<string, Operation>
    var context: Context
    ghost var calls: seq<Fields>

    /** `user_input` is a JavaScript object: no key occurs twice. */
    ghost predicate Valid()
      reads this
    {
      DistinctKeys(context.userInput)
    }

    constructor (operations: map<string, Operation>, utils: Value)
      ensures Valid()
      ensures this.operations == operations
      ensures context == Context([], utils, None) && calls == []
    {
      this.operations := operations;
      context := Context([], utils, None);
      calls := [];
    }

    /** `execute_step(step)`; a thrown error is returned as `failure`. */
    method ExecuteStep(step: Fields) returns (failure: Option<Failure>)
      requires Valid()
      modifies this
      ensures Valid()
      ensures var e := StepSpec(operations, old(context), step);
        && failure == e.failure
        && context == e.context
        && calls == old(calls) + CallList(e.call)
    {
      var compiled := CompileStep(step, ContextFields(context));
      var name := OperationName(compiled);
      if name !in operations {
        return Some(UnknownOperation(name));
      }
      var operation := operations[name];
      calls := calls + [compiled];
      var outcome := operation(compiled, ContextFields(context));
      if outcome.Threw? {
        return Some(OperationFailed(outcome.error));
      }
      if IsAskUser(compiled) {
        context := context.(userInput := Put(context.userInput, AnswerKey(compiled), outcome.result));
      }
      failure := None;
    }

    /** `execute(config)`: stores the project in the context, then runs the
      steps in order, stopping at the first one that fails. */
    method Execute(config: Config) returns (result: RunResult)
      requires Valid()
      modifies this
      ensures Valid()
      ensures var run := RunSteps(operations, old(context).(project := Some(config.project)), config.steps);
        && result == run.result
        && context == run.context
        && calls == old(calls) + run.calls
      ensures context.project == Some(config.project) && context.utils == old(context.utils)
      ensures KeySet(old(context.userInput)) <= KeySet(context.userInput)
    {
      context := context.(project := Some(config.project));
      ghost var start := context;
      ghost var run := RunFrom(operations, start, config.steps, 0, calls);
      var steps := config.steps;
      var i := 0;
      result := Completed;
      while i < |steps|
        invariant 0 <= i <= |steps|
        invariant Valid() && result == Completed
        invariant RunFrom(operations, context, steps, i, calls) == run
      {
        // logger.info(`Executing step: ${step.name}`) has no effect on the run.
        RunFromStep(operations, context, steps, i, calls);
        var failure := ExecuteStep(steps[i]);
        if failure.Some? {
          result := FailedAt(i, failure.value);
          break;
        }
        i := i + 1;
      }
      assert run == Run(result, context, calls);
      RunKeepsContext(operations, start, steps);
      RunFromCalls(operations, start, steps, 0, old(calls), []);
      assert old(calls) + [] == old(calls);
    }
  }
}
