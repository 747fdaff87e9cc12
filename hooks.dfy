/** Hook installation: the public-name filter (`_default_hook_function_filter`),
    the "only decorate once" guard of `_set_hooks`, and the argument routing of
    the `wrapper` it returns. Hooks are modelled as appending what they receive
    to a trace; the wrapped function as recording its call in the same trace
    and returning what `impl` gives for its name and arguments. */
module Hooks {

  /** Python values as the wrapper sees them. An instance's truth value comes
      from its `__bool__`/`__len__`, so it is carried as given. */
  datatype Value =
    | NoneValue
    | Bool(b: bool)
    | Int(i: int)
    | Str(s: string)
    | Instance(id: nat, truthy: bool)

  /** Python truthiness: `if v:`. */
  predicate Truthy(v: Value)
  {
    match v
    case NoneValue => false
    case Bool(b) => b
    case Int(i) => i != 0
    case Str(s) => s != ""
    case Instance(_, t) => t
  }

  /** The arguments of one call: positionals in order, and keyword arguments. */
  datatype Args = Args(positional: seq<Value>, keywords: map<string, Value>)

  /** `pre_hook` and `post_hook`: whether each is given (a function is truthy,
      None is not). */
  datatype HookConfig = HookConfig(pre: bool, post: bool)

  /** What the trace records: the pre-hook's arguments, a call of the
      original function and its arguments, the post-hook's argument. */
  datatype Event =
    | PreHook(args: Args)
    | Called(name: string, args: Args)
    | PostHook(result: Value)

  /** The one error binding can raise: the first positional and a `klass=`
      keyword both fill the wrapper's `klass` parameter. */
  datatype CallError = MultipleValues(parameter: string)

  datatype CallResult = Done(value: Value) | Failed(error: CallError)

  datatype CallOutcome = CallOutcome(trace: seq<Event>, result: CallResult)

  /** A callable attribute: an original function with its attribute names, or
      a wrapper produced by `_set_hooks` around an inner callable. */
  datatype Callable =
    | Function(name: string, attrs: set<string>)
    | Wrapper(inner: Callable, hooks: HookConfig)

  /** The marker the guard looks for, and the one the wrapper is given. */
  const CheckedMarker: string := "__hooks_configured"
  const SetMarker: string := "__hook_configured"

  /** The wrapper's own first parameter, `klass=None`. */
  const KlassParameter: string := "klass"

  /** Attribute names of a callable. A wrapper gets the marker the source sets,
      plus what `functools.wraps` gives it: `__wrapped__` and a copy of the
      wrapped function's `__dict__`. */
  function Attributes(f: Callable): set<string>
  {
    match f
    case Function(_, attrs) => attrs
    case Wrapper(inner, _) => Attributes(inner) + {SetMarker, "__wrapped__"}
  }

  /** `_set_hooks(func=f, ...)`: return `f` itself if it carries the checked
      marker, otherwise a new wrapper around it. */
  function SetHooks(f: Callable, hooks: HookConfig): Callable
  {
    if CheckedMarker in Attributes(f) then f else Wrapper(f, hooks)
  }

  /** How `wrapper(klass=None, *args, **kwargs)` binds a call. */
  datatype Binding = Bound(klass: Value, rest: Args) | Clash

  function Bind(call: Args): Binding
  {
    if |call.positional| > 0 then
      if KlassParameter in call.keywords then Clash
      else Bound(call.positional[0], Args(call.positional[1..], call.keywords))
    else if KlassParameter in call.keywords then
      Bound(call.keywords[KlassParameter], Args([], call.keywords - {KlassParameter}))
    else Bound(NoneValue, call)
  }

  /** What the wrapped function receives: `func(klass, *args, **kwargs)` when
      `klass` is truthy, `func(*args, **kwargs)` otherwise. */
  function Forward(klass: Value, rest: Args): Args
  {
    if Truthy(klass) then Args([klass] + rest.positional, rest.keywords) else rest
  }

  /** Calling a callable with `call`. */
  function Invoke(f: Callable, call: Args, impl: (string, Args) -> Value): CallOutcome
    decreases f
  {
    match f
    case Function(name, _) => CallOutcome([Called(name, call)], Done(impl(name, call)))
    case Wrapper(inner, hooks) =>
      match Bind(call)
      case Clash => CallOutcome([], Failed(MultipleValues(KlassParameter)))
      case Bound(klass, rest) =>
        var pre := if hooks.pre then [PreHook(rest)] else [];
        var o := Invoke(inner, Forward(klass, rest), impl);
        match o.result
        case Failed(e) => CallOutcome(pre + o.trace, Failed(e))
        case Done(v) => CallOutcome(pre + o.trace + (if hooks.post then [PostHook(v)] else []), Done(v))
  }

  /** The calls of the original function recorded in a trace. */
  function Calls(trace: seq<Event>): (calls: seq<Event>)
    ensures forall i :: 0 <= i < |calls| ==> calls[i].Called? && calls[i] in trace
  {
    if trace == [] then []
    else (if trace[0].Called? then [trace[0]] else []) + Calls(trace[1..])
  }

  lemma {:induction false} CallsAppend(a: seq<Event>, b: seq<Event>)
    ensures Calls(a + b) == Calls(a) + Calls(b)
    decreases |a|
  {
    if a == [] {
      assert a + b == b;
    } else {
      assert (a + b)[1..] == a[1..] + b;
      CallsAppend(a[1..], b);
    }
  }

  /** One wrapper around a function, called with at least one positional and
      no `klass=` keyword: the pre-hook gets everything after the first
      positional; the function gets every argument when the first is truthy
      and loses the first when it is falsy; its result goes to the post-hook
      and is returned unchanged. */
  lemma WrapperRouting(name: string, attrs: set<string>, hooks: HookConfig, call: Args, impl: (string, Args) -> Value)
    requires |call.positional| > 0 && KlassParameter !in call.keywords
    ensures var rest := Args(call.positional[1..], call.keywords);
      var received := if Truthy(call.positional[0]) then call else rest;
      var v := impl(name, received);
      Invoke(Wrapper(Function(name, attrs), hooks), call, impl) == CallOutcome(
        (if hooks.pre then [PreHook(rest)] else [])
          + [Called(name, received)]
          + (if hooks.post then [PostHook(v)] else []),
        Done(v))
  {
    assert [call.positional[0]] + call.positional[1..] == call.positional;
  }

  /** Called with no positional and no `klass=` keyword, the wrapper passes
      the call through whole, to the pre-hook and to the function. */
  lemma WrapperRoutingNoPositional(name: string, attrs: set<string>, hooks: HookConfig, call: Args, impl: (string, Args) -> Value)
    requires call.positional == [] && KlassParameter !in call.keywords
    ensures var v := impl(name, call);
      Invoke(Wrapper(Function(name, attrs), hooks), call, impl) == CallOutcome(
        (if hooks.pre then [PreHook(call)] else [])
          + [Called(name, call)]
          + (if hooks.post then [PostHook(v)] else []),
        Done(v))
  {
  }

  /** Called with a `klass=` keyword and no positional, the wrapper takes the
      keyword for its own parameter: the pre-hook gets the other keywords, and
      the function gets the `klass` value as its one positional if it is
      truthy, and only the other keywords if it is falsy. */
  lemma WrapperRoutingKlassKeyword(name: string, attrs: set<string>, hooks: HookConfig, call: Args, impl: (string, Args) -> Value)
    requires call.positional == [] && KlassParameter in call.keywords
    ensures var klass := call.keywords[KlassParameter];
      var rest := Args([], call.keywords - {KlassParameter});
      var received := if Truthy(klass) then Args([klass], rest.keywords) else rest;
      var v := impl(name, received);
      Invoke(Wrapper(Function(name, attrs), hooks), call, impl) == CallOutcome(
        (if hooks.pre then [PreHook(rest)] else [])
          + [Called(name, received)]
          + (if hooks.post then [PostHook(v)] else []),
        Done(v))
  {
    var klass := call.keywords[KlassParameter];
    assert [klass] + [] == [klass];
  }

  /** A `klass=` keyword beside a positional makes every wrapper raise before
      any hook runs; it is the only error a call can raise. */
  lemma {:induction false} OnlyBindingFails(f: Callable, call: Args, impl: (string, Args) -> Value)
    ensures var o := Invoke(f, call, impl);
      (o.result.Failed? ==> o.result.error == MultipleValues(KlassParameter))
      && (f.Wrapper? && |call.positional| > 0 && KlassParameter in call.keywords ==>
            o == CallOutcome([], Failed(MultipleValues(KlassParameter))))
    decreases f
  {
    match f
    case Function(_, _) =>
    case Wrapper(inner, _) =>
      match Bind(call)
      case Clash =>
      case Bound(klass, rest) =>
        OnlyBindingFails(inner, Forward(klass, rest), impl);
  }

  /** However deeply wrapped, a call that returns runs the original function
      exactly once and returns exactly what it returned. */
  lemma {:induction false} ResultPassesThrough(f: Callable, call: Args, impl: (string, Args) -> Value)
    ensures var o := Invoke(f, call, impl);
      o.result.Done? ==>
        |Calls(o.trace)| == 1
        && o.result.value == impl(Calls(o.trace)[0].name, Calls(o.trace)[0].args)
    decreases f
  {
    match f
    case Function(name, _) =>
      assert Calls([Called(name, call)]) == [Called(name, call)] by {
        assert [Called(name, call)][1..] == [];
      }
    case Wrapper(inner, hooks) =>
      match Bind(call)
      case Clash =>
      case Bound(klass, rest) =>
        var o := Invoke(inner, Forward(klass, rest), impl);
        ResultPassesThrough(inner, Forward(klass, rest), impl);
        if o.result.Done? {
          var pre := if hooks.pre then [PreHook(rest)] else [];
          var post := if hooks.post then [PostHook(o.result.value)] else [];
          assert Invoke(f, call, impl).trace == pre + o.trace + post;
          assert Calls(pre) == [] by {
            if hooks.pre {
              assert pre[1..] == [];
            }
          }
          assert Calls(post) == [] by {
            if hooks.post {
              assert post[1..] == [];
            }
          }
          CallsAppend(pre, o.trace);
          CallsAppend(pre + o.trace, post);
        }
  }

  /** Every post-hook, at every layer, receives the value the call returns. */
  lemma {:induction false} PostHooksSeeResult(f: Callable, call: Args, impl: (string, Args) -> Value)
    ensures var o := Invoke(f, call, impl);
      o.result.Done? ==> forall e :: e in o.trace && e.PostHook? ==> e.result == o.result.value
    decreases f
  {
    match f
    case Function(name, _) =>
    case Wrapper(inner, hooks) =>
      match Bind(call)
      case Clash =>
      case Bound(klass, rest) =>
        var o := Invoke(inner, Forward(klass, rest), impl);
        PostHooksSeeResult(inner, Forward(klass, rest), impl);
        if o.result.Done? {
          var pre := if hooks.pre then [PreHook(rest)] else [];
          var post := if hooks.post then [PostHook(o.result.value)] else [];
          assert Invoke(f, call, impl) == CallOutcome(pre + o.trace + post, o.result);
          forall e | e in pre + o.trace + post && e.PostHook?
            ensures e.result == o.result.value
          {
            assert e in pre || e in o.trace || e in post;
          }
        }
  }

  /** The wrapper never acquires the marker the guard checks: it has it only
      if the function it wraps already had it. */
  lemma {:induction false} GuardMarkerNeverSet(f: Callable, hooks: HookConfig)
    ensures CheckedMarker in Attributes(SetHooks(f, hooks)) <==> CheckedMarker in Attributes(f)
    ensures CheckedMarker !in Attributes(f) ==> SetMarker in Attributes(SetHooks(f, hooks))
  {
    assert CheckedMarker != SetMarker && CheckedMarker != "__wrapped__";
  }

  /** `_set_hooks` applied `n` times, as happens when the same function is
      picked up by `n` hook installations (a class and its subclasses). */
  function Rewrapped(f: Callable, hooks: HookConfig, n: nat): Callable
  {
    if n == 0 then f else SetHooks(Rewrapped(f, hooks, n - 1), hooks)
  }

  function Depth(f: Callable): nat
  {
    match f
    case Function(_, _) => 0
    case Wrapper(inner, _) => 1 + Depth(inner)
  }

  /** The guard never fires: a function without the checked marker is wrapped
      once more by every installation, never left as it is. */
  lemma {:induction false} GuardNeverFires(f: Callable, hooks: HookConfig, n: nat)
    requires CheckedMarker !in Attributes(f)
    ensures Depth(Rewrapped(f, hooks, n)) == Depth(f) + n
    ensures CheckedMarker !in Attributes(Rewrapped(f, hooks, n))
  {
    if n > 0 {
      GuardNeverFires(f, hooks, n - 1);
      GuardMarkerNeverSet(Rewrapped(f, hooks, n - 1), hooks);
    }
  }

  function Repeat(e: Event, n: nat): (s: seq<Event>)
    ensures |s| == n
  {
    if n == 0 then [] else Repeat(e, n - 1) + [e]
  }

  /** So a function installed `n` times runs each given hook `n` times per
      call whenever every layer forwards the call unchanged (the wrapper's
      `klass` is bound and, being truthy or absent, passed on as it came):
      every layer's pre-hook logs the same arguments, the function receives
      the whole call once, and every layer's post-hook gets its result. */
  lemma {:induction false} RewrappedRunsHooksRepeatedly(name: string, attrs: set<string>, hooks: HookConfig, n: nat, call: Args, impl: (string, Args) -> Value)
    requires CheckedMarker !in attrs
    requires Bind(call).Bound? && Forward(Bind(call).klass, Bind(call).rest) == call
    ensures var o := Invoke(Rewrapped(Function(name, attrs), hooks, n), call, impl);
      var v := impl(name, call);
      o.result == Done(v)
      && o.trace
        == (if hooks.pre then Repeat(PreHook(Bind(call).rest), n) else [])
          + [Called(name, call)]
          + (if hooks.post then Repeat(PostHook(v), n) else [])
  {
    var f := Function(name, attrs);
    if n > 0 {
      RewrappedRunsHooksRepeatedly(name, attrs, hooks, n - 1, call, impl);
      GuardNeverFires(f, hooks, n - 1);
      assert Rewrapped(f, hooks, n) == Wrapper(Rewrapped(f, hooks, n - 1), hooks);
      var e := PreHook(Bind(call).rest);
      var w := PostHook(impl(name, call));
      var inner := Invoke(Rewrapped(f, hooks, n - 1), call, impl);
      var pre := if hooks.pre then [e] else [];
      var post := if hooks.post then [w] else [];
      var p := if hooks.pre then Repeat(e, n - 1) else [];
      var q := if hooks.post then Repeat(w, n - 1) else [];
      assert inner.trace == p + [Called(name, call)] + q;
      assert Invoke(Rewrapped(f, hooks, n), call, impl).trace == pre + inner.trace + post;
      if hooks.pre {
        RepeatCons(e, n);
      }
      assert pre + p == (if hooks.pre then Repeat(e, n) else []);
      assert q + post == (if hooks.post then Repeat(w, n) else []);
      assert pre + (p + [Called(name, call)] + q) + post == (pre + p) + [Called(name, call)] + (q + post);
    }
  }

  /** With a truthy first positional and no `klass=` keyword, every layer's
      pre-hook logs the arguments after the first, and the function still
      receives the whole call. */
  lemma RewrappedRunsPreHookRepeatedly(name: string, attrs: set<string>, hooks: HookConfig, n: nat, call: Args, impl: (string, Args) -> Value)
    requires CheckedMarker !in attrs
    requires |call.positional| > 0 && Truthy(call.positional[0]) && KlassParameter !in call.keywords
    ensures var o := Invoke(Rewrapped(Function(name, attrs), hooks, n), call, impl);
      var v := impl(name, call);
      o.result == Done(v)
      && o.trace
        == (if hooks.pre then Repeat(PreHook(Args(call.positional[1..], call.keywords)), n) else [])
          + [Called(name, call)]
          + (if hooks.post then Repeat(PostHook(v), n) else [])
  {
    assert [call.positional[0]] + call.positional[1..] == call.positional;
    RewrappedRunsHooksRepeatedly(name, attrs, hooks, n, call, impl);
  }

  /** With no positional and no `klass=` keyword, every layer's pre-hook logs
      the whole call, and the function receives it once. */
  lemma RewrappedNoPositionalRunsHooksRepeatedly(name: string, attrs: set<string>, hooks: HookConfig, n: nat, call: Args, impl: (string, Args) -> Value)
    requires CheckedMarker !in attrs
    requires call.positional == [] && KlassParameter !in call.keywords
    ensures var o := Invoke(Rewrapped(Function(name, attrs), hooks, n), call, impl);
      var v := impl(name, call);
      o.result == Done(v)
      && o.trace
        == (if hooks.pre then Repeat(PreHook(call), n) else [])
          + [Called(name, call)]
          + (if hooks.post then Repeat(PostHook(v), n) else [])
  {
    RewrappedRunsHooksRepeatedly(name, attrs, hooks, n, call, impl);
  }

  /** With a falsy first positional the two defects compound: every layer
      takes the next positional for its receiver. Two pre-hook layers called
      with `(0, 10, 20)` log `(10, 20)` and then `(20,)`; the second layer
      passes its truthy `10` on, so the function receives `(10, 20)`. */
  lemma FalsyFirstArgumentShiftsPerLayer(impl: (string, Args) -> Value)
    ensures Invoke(Wrapper(Wrapper(Function("static_method", {}), PreOnly), PreOnly),
                   Args([Int(0), Int(10), Int(20)], map[]), impl).trace
      == [PreHook(Args([Int(10), Int(20)], map[])), PreHook(Args([Int(20)], map[])),
          Called("static_method", Args([Int(10), Int(20)], map[]))]
  {
    assert [Int(0), Int(10), Int(20)][1..] == [Int(10), Int(20)];
    WrapperRouting("static_method", {}, PreOnly, Args([Int(10), Int(20)], map[]), impl);
    assert [Int(10), Int(20)][1..] == [Int(20)];
  }

  lemma {:induction false} RepeatCons(e: Event, n: nat)
    requires n > 0
    ensures Repeat(e, n) == [e] + Repeat(e, n - 1)
  {
    if n > 1 {
      RepeatCons(e, n - 1);
    }
  }

  // The test scenarios of the hook tests: a pre-hook only.
  const PreOnly: HookConfig := HookConfig(true, false)

  /** An instance-method call `service.instance_method(1, 2, a=3, b="4")`
      reaches the wrapper with the instance first; the pre-hook logs
      `(1, 2), {a: 3, b: "4"}` and the method receives the instance too. */
  lemma InstanceMethodCallLogsArgumentsWithoutReceiver(impl: (string, Args) -> Value)
    ensures var kw := map["a" := Int(3), "b" := Str("4")];
      var call := Args([Instance(1, true), Int(1), Int(2)], kw);
      Invoke(Wrapper(Function("instance_method", {}), PreOnly), call, impl).trace
        == [PreHook(Args([Int(1), Int(2)], kw)), Called("instance_method", call)]
  {
    var kw := map["a" := Int(3), "b" := Str("4")];
    var call := Args([Instance(1, true), Int(1), Int(2)], kw);
    WrapperRouting("instance_method", {}, PreOnly, call, impl);
    assert call.positional[1..] == [Int(1), Int(2)];
  }

  /** `UserService.class_method(5, 6, c=7, d=8)` and
      `UserService.static_method(9, 10, a=11, d=12)` reach the wrapper without
      a receiver, so the pre-hook logs `(6,)` and `(10,)`: the first business
      argument is taken for the receiver. Being truthy, it is still passed
      on, and the methods receive `(5, 6)` and `(9, 10)`. */
  lemma ClassAndStaticCallsLogFromSecondArgument(impl: (string, Args) -> Value)
    ensures var kw := map["c" := Int(7), "d" := Int(8)];
      Invoke(Wrapper(Function("class_method", {}), PreOnly), Args([Int(5), Int(6)], kw), impl).trace
        == [PreHook(Args([Int(6)], kw)), Called("class_method", Args([Int(5), Int(6)], kw))]
    ensures var kw := map["a" := Int(11), "d" := Int(12)];
      Invoke(Wrapper(Function("static_method", {}), PreOnly), Args([Int(9), Int(10)], kw), impl).trace
        == [PreHook(Args([Int(10)], kw)), Called("static_method", Args([Int(9), Int(10)], kw))]
  {
    var kw1 := map["c" := Int(7), "d" := Int(8)];
    WrapperRouting("class_method", {}, PreOnly, Args([Int(5), Int(6)], kw1), impl);
    assert [Int(5), Int(6)][1..] == [Int(6)];
    var kw2 := map["a" := Int(11), "d" := Int(12)];
    WrapperRouting("static_method", {}, PreOnly, Args([Int(9), Int(10)], kw2), impl);
    assert [Int(9), Int(10)][1..] == [Int(10)];
  }

  /** A static method called with a falsy first argument, `static_method(0, 10)`,
      runs with that argument dropped: it receives `(10,)` only. */
  lemma FalsyFirstArgumentDropped(impl: (string, Args) -> Value)
    ensures Invoke(Wrapper(Function("static_method", {}), PreOnly), Args([Int(0), Int(10)], map[]), impl).trace
      == [PreHook(Args([Int(10)], map[])), Called("static_method", Args([Int(10)], map[]))]
  {
    WrapperRouting("static_method", {}, PreOnly, Args([Int(0), Int(10)], map[]), impl);
    assert [Int(0), Int(10)][1..] == [Int(10)];
  }

  /** `str.startswith`. */
  predicate StartsWith(s: string, prefix: string)
  {
    |prefix| <= |s| && s[..|prefix|] == prefix
  }

  /** `str.endswith`. */
  predicate EndsWith(s: string, suffix: string)
  {
    |suffix| <= |s| && s[|s| - |suffix|..] == suffix
  }

  /** Python's `a or b`: `a` if it is truthy, else `b`. */
  function Or(a: Value, b: Value): Value
  {
    if Truthy(a) then a else b
  }

  /** `_default_hook_function_filter(name)`, i.e.
      `not name.startswith("__" or name.endswith("__"))`: the argument of
      `startswith` is the value of the `or`. */
  predicate KeepName(name: string)
  {
    match Or(Str("__"), Bool(EndsWith(name, "__")))
    case Str(prefix) => !StartsWith(name, prefix)
    case _ => assert false; false
  }

  /** The filter keeps a name iff it does not start with two underscores. */
  lemma KeepNameIff(name: string)
    ensures KeepName(name) <==> !(|name| >= 2 && name[0] == '_' && name[1] == '_')
  {
    if |name| >= 2 {
      assert name[..2] == [name[0], name[1]];
    }
  }

  /** What the filter evidently meant: drop names that start or end with two
      underscores. */
  predicate IntendedKeepName(name: string)
  {
    !(StartsWith(name, "__") || EndsWith(name, "__"))
  }

  /** A name that only ends with two underscores is kept, although the
      intended filter would drop it; the two agree on every other name. */
  lemma TrailingDunderKept(name: string)
    ensures EndsWith(name, "__") && !StartsWith(name, "__") ==> KeepName(name) && !IntendedKeepName(name)
    ensures !EndsWith(name, "__") || StartsWith(name, "__") ==> (KeepName(name) <==> IntendedKeepName(name))
    ensures KeepName("save__") && !IntendedKeepName("save__")
  {
    assert "save__"[..2] == "sa";
    assert "save__"[4..] == "__";
  }
}
