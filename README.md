# Context boundaries: a Dafny model of `src/base.py`

`src/base.py` lets a Python class declare itself part of a *context*, a logical
module boundary. Declaring a class, whether with the `context(...)` decorator
or through a `meta_context(...)` metaclass, runs three steps in order:

1. **Hook installation.** Every public callable attribute is wrapped so that
   an optional pre-hook and post-hook run around each call.
2. **Inspector registration.** The process-wide `_inspector_registry` records
   the class's *inspector*, which is the root context that governs it. A class
   whose base is `object` is a root and is its own inspector. Any other class
   walks its resolution order and copies the inspector of each ancestor in turn.
3. **Policy check.** Every value of the class's field annotations and of its
   `__init__`'s annotations (the return annotation included) must be a class
   registered with the same inspector or with an allowed *subcontext*. Otherwise the declaration raises a `TypeError` with a
   fixed message.

The model replaces Python reflection with plain data:

- A class is a `ClassId`. Its base, resolution order and referenced classes
  come in a `ClassInfo`.
- The registry is a `Registry` object holding a `map<ClassId, ClassId>`.
- A class's visible attributes are a `ClassObject` holding a map from names to
  attributes.
- Hooks and the wrapped function append events to a trace.

Modules:

- `Classes`: the data.
- `Registration`: registration as a function of the registry, and its properties.
- `Policy`: the policy check and its properties.
- `InspectorRegistry`: the registry object, whose methods run the source's loops.
- `Hooks`: the name filter, `_set_hooks` and the wrapper's argument routing.
- `Context`: the class object, hook installation and the three-step declaration.

The source has three defects. The model reproduces all three and states each
as a lemma:

- **Name filter.** `not (func.startswith("__" or func.endswith("__")))` only
  drops names that *start* with two underscores, because `"__" or …` is `"__"`
  (`Hooks.KeepNameIff`, `Hooks.TrailingDunderKept`).
- **Decorate-once guard.** The guard tests for `__hooks_configured`, but the
  wrapper is marked `__hook_configured`. So the guard never fires, and each
  installation wraps again: a subclass re-wraps the methods it inherits, and
  the pre-hook then runs once per layer (`Hooks.GuardNeverFires`,
  `Hooks.RewrappedRunsPreHookRepeatedly`,
  `Context.SubclassRewrapsInheritedMethods`).
- **First argument.** The wrapper treats its first positional as a receiver.
  The pre-hook never sees it, and when it is falsy (`0`, `""`, `None`, …) the
  wrapped function does not receive it either (`Hooks.FalsyFirstArgumentDropped`).

In four places the code behaves otherwise than its comments or a quick
reading suggest. The model follows the code:

- The check `hasattr(func, "__hooks_configured")` is commented
  `# Only decorate once` (src/base.py:86), but it never fires, so wrapping is
  not idempotent (`Hooks.GuardNeverFires`).
- The comment `# static method hasn't cls or self argument`
  (src/base.py:94) assumes a static method's first argument never reaches
  `klass`. It does: the pre-hook of `static_method(9, 10)` sees `(10,)`
  (`Hooks.ClassAndStaticCallsLogFromSecondArgument`).
- `_inspector_registry.get(...)["inspector"]` (src/base.py:30, 37) raises a
  `TypeError` (`None` is not subscriptable) for an unregistered class, whether
  it is the class being checked or a class it references
  (`Policy.UnregisteredClassRaises`, `Policy.RejectsFirstOffender`).
- `inspect.get_annotations(klass.__init__)` (src/base.py:33) includes the
  `return` annotation. So an `__init__` written `-> None` puts `None` among
  the referenced classes, and its lookup raises that same `TypeError`, even
  when every referenced class is allowed
  (`Policy.OnlyUnregisteredOffenders`, `Policy.InitReturnAnnotationRejected`).

## Model

| member | source | states |
|---|---|---|
| `InspectorRegistry.Registry.constructor` | tests/test_hooks.py:6-8 | a new registry is empty, as after the fixture's `clear()` |
| `InspectorRegistry.Registry.Register` | src/base.py:69-82 | the loop updates the registry in place exactly as `Registration.Register` describes (result and partial state on KeyError); no key other than the class's own changes |
| `Registration.Ancestors` | src/base.py:75-77 | the parents the loop consults are exactly the resolution-order entries other than the class and `object` |
| `Registration.Register` | src/base.py:69-82 | definition: a root maps to itself; any other class runs `Registration.RegisterLoop`, which skips the class and `object`, raises KeyError on an unregistered parent and otherwise overwrites the class's entry with the parent's inspector, returning the registry in both cases |
| `Registration.AncestorsAppend` | src/base.py:75-77 | the parents consulted form an order-preserving subsequence of the resolution order: filtering a concatenation filters each part in turn |
| `Registration.LastAncestorIsLastVisited` | src/base.py:75-82 | the last ancestor is followed in the resolution order only by the class and `object`, so it is the last parent whose inspector the loop copies; with no ancestors, every entry is the class or `object` |
| `Registration.LoopMatchesWalk` | src/base.py:75-82 | the loop equals the reference definition: with every ancestor registered, the class gets the last ancestor's inspector (unchanged registry if none); otherwise KeyError on the first unregistered ancestor, with the class holding the inspector of the ancestor before it |
| `Registration.RootIsOwnInspector` | src/base.py:71-73 | a class whose base is `object` maps to itself, registration returns, and no other key is written or changed |
| `Registration.OnlyOwnEntryWritten` | src/base.py:72-82 | whatever the outcome, every key other than the class's own keeps its presence and value |
| `Registration.SucceedsIffAncestorsRegistered` | src/base.py:75-80 | registration returns iff the class is a root or every resolution-order entry other than itself and `object` is registered; anything raised is a KeyError |
| `Registration.InspectorOfLastAncestor` | src/base.py:75-82 | on success a non-root class maps to the inspector of the last ancestor in its resolution order, with the rest of the registry unchanged |
| `Registration.FailureKeepsPartialEntry` | src/base.py:80-82 | on failure KeyError names the first unregistered ancestor, and the class already holds the inspector copied from the ancestor just before it (or nothing new if there is none) |
| `Registration.DescendantMapsToRoot` | src/base.py:75-82 | in a single-inheritance chain of any depth below a root, the class maps to that root |
| `Registration.SeparateRootsStayDisjoint` | tests/test_hooks.py:182-208 | registering a descendant of root B maps it to B and leaves every class mapped to another root A mapped to A |
| `Registration.RegisterUnderRoot` | src/base.py:75-82 | registering a subclass of a registered chain ending in a root adds exactly one entry, class to root, and returns |
| `Registration.ClassTreeExample` | tests/test_hooks.py:157-179 | declaring UserContext, UserService, UserRepo, User and SpecialUser gives exactly the registry the test expects, all mapped to UserContext |
| `Policy.CheckPolicy` | src/base.py:29-41 | definition: an unregistered class raises the None-subscript TypeError; otherwise `Policy.CheckRefs` visits the referenced classes in the given order and raises on the first that is unregistered or belongs to another, non-allowed context |
| `Classes.Referenced` | src/base.py:32-34 | definition: the set of the values of the field annotations and of every `__init__` annotation, the return annotation included |
| `Classes.ViolationMessage` | src/base.py:39-41 | definition: the violation text, naming the referenced class, the class's context and the referenced class's context |
| `Policy.AcceptsIff` | src/base.py:29-41 | the check returns iff the class is registered and every referenced class is registered with the class's inspector or an allowed subcontext; anything raised is a TypeError |
| `Policy.RejectsFirstOffender` | src/base.py:36-41 | the error is for the first offending class in iteration order: the None-subscript TypeError if it is unregistered, else the message naming it, the class's context and its own context |
| `Policy.UnregisteredClassRaises` | src/base.py:30 | checking a class that has no registry entry raises the None-subscript TypeError |
| `Policy.AcceptanceIgnoresOrder` | src/base.py:34-36 | whether the check accepts does not depend on the iteration order of the referenced set |
| `Policy.SameContextOrSubcontextAccepted` | src/base.py:38 | references within the same context or into an allowed subcontext are accepted |
| `Policy.CrossContextReferenceMessage` | tests/test_hooks.py:241-284 | UserService referencing CatalogService raises the exact text the tests expect |
| `Policy.OnlyUnregisteredOffenders` | src/base.py:36-39 | if every registered referenced class is allowed and some referenced class is unregistered, the check raises the None-subscript TypeError, in any iteration order |
| `Policy.InitReturnAnnotationRejected` | src/base.py:32-37 | CatalogService with `__init__(self, user_service: UserService) -> None` and UserContext allowlisted raises the None-subscript TypeError in either iteration order, because `None` is referenced |
| `Policy.AllowlistedReferenceAccepted` | tests/test_hooks.py:286-301 | with UserContext as a subcontext, CatalogService may reference UserService |
| `InspectorRegistry.Registry.CheckPolicy` | src/base.py:29-41 | the read-only loop over referenced classes returns what `Policy.CheckPolicy` gives, and returns normally iff every referenced class is allowed |
| `Hooks.KeepName` | src/base.py:65-66 | definition: the filter as written, with the argument of `startswith` being the value of `"__" or func.endswith("__")` |
| `Hooks.SetHooks` | src/base.py:85-87 | definition: the callable itself if it carries `__hooks_configured`, else a new wrapper; `Hooks.Attributes` gives a wrapper `__hook_configured` (src/base.py:104) and what `functools.wraps` copies |
| `Hooks.Invoke` | src/base.py:89-102 | definition: a wrapper binds the call (`Hooks.Bind`: the first positional, else a `klass=` keyword, else None; a positional together with a `klass=` keyword raises), runs the pre-hook on the rest, forwards the receiver only if truthy (`Hooks.Forward`), runs the post-hook on the result and returns it |
| `Hooks.WrapperRouting` | src/base.py:89-102 | with a first positional: the pre-hook gets the remaining arguments; the function gets all of them if the first is truthy and loses the first if it is falsy; the post-hook gets the result, which is returned |
| `Hooks.WrapperRoutingNoPositional` | src/base.py:90-98 | with no positional and no `klass=` keyword, the pre-hook and the function both receive the call unchanged |
| `Hooks.WrapperRoutingKlassKeyword` | src/base.py:90-98 | with a `klass=` keyword and no positional, the pre-hook gets the other keywords; the function gets the `klass` value as its only positional if it is truthy, and only the other keywords otherwise |
| `Hooks.OnlyBindingFails` | src/base.py:90 | a positional together with a `klass=` keyword raises before any hook runs, and that is the only error a call can raise |
| `Hooks.ResultPassesThrough` | src/base.py:95-102 | at any wrapping depth, a call that returns runs the original function exactly once and returns exactly its result |
| `Hooks.PostHooksSeeResult` | src/base.py:100-102 | every post-hook, at every layer, receives the returned value |
| `Hooks.GuardMarkerNeverSet` | src/base.py:85-105 | `_set_hooks` output carries the checked marker iff its input did; a new wrapper carries the other marker |
| `Hooks.GuardNeverFires` | src/base.py:85-87 | a function without the checked marker gains one more wrapper on every installation |
| `Hooks.RewrappedRunsHooksRepeatedly` | src/base.py:85-102 | for any call each wrapper layer forwards unchanged, and any hook configuration: a function installed n times runs the pre-hook (if given) n times with the bound rest of the call, receives the whole call once, runs the post-hook (if given) n times with its result, and that result is returned |
| `Hooks.RewrappedRunsPreHookRepeatedly` | src/base.py:85-102 | for a call with a truthy first positional and no `klass=` keyword, and any hook configuration: a function installed n times runs the pre-hook (if given) n times with the arguments after the first, receives the whole call once, runs the post-hook (if given) n times with its result, and that result is returned |
| `Hooks.RewrappedNoPositionalRunsHooksRepeatedly` | src/base.py:85-102 | for a call with no positional and no `klass=` keyword, and any hook configuration: a function installed n times runs the pre-hook (if given) n times with the whole call, receives the whole call once, and runs the post-hook (if given) n times with its result, which is returned |
| `Hooks.FalsyFirstArgumentShiftsPerLayer` | src/base.py:90-98 | two pre-hook layers called with `(0, 10, 20)` log `(10, 20)` and then `(20,)`, and the function receives `(10, 20)`: each layer takes the next positional for its receiver |
| `Hooks.InstanceMethodCallLogsArgumentsWithoutReceiver` | tests/test_hooks.py:34-50 | `instance_method(1, 2, a=3, b="4")` logs `(1, 2), {a, b}` and the method receives the instance too |
| `Hooks.ClassAndStaticCallsLogFromSecondArgument` | tests/test_hooks.py:39-53 | `class_method(5, 6, …)` logs `(6,)` and `static_method(9, 10, …)` logs `(10,)`, while the methods receive `(5, 6)` and `(9, 10)` |
| `Hooks.FalsyFirstArgumentDropped` | src/base.py:95-98 | `static_method(0, 10)` logs `(10,)` and runs with `(10,)` only |
| `Hooks.KeepNameIff` | src/base.py:65-66 | the filter keeps a name iff it does not start with two underscores |
| `Hooks.TrailingDunderKept` | src/base.py:66 | a name that only ends with two underscores is kept, unlike under the evidently intended filter; the two agree on every other name |
| `Context.HookPolicy` | src/base.py:55-62 | definition: every attribute listed by `dir`, kept by the filter and traced becomes `_set_hooks` of it; every other attribute stays |
| `Context.SubcontextSet` | src/base.py:21 | definition: the set of the given subcontexts, empty when none are given |
| `Context.Declaration` | src/base.py:19-23 | definition: registration, then, if it returned, the policy check against the registry it left, which is kept whatever the check decides |
| `Context.ClassObject.constructor` | src/base.py:55-59 | a class object exposes exactly the given attributes |
| `Context.ClassObject.ApplyHookPolicy` | src/base.py:55-62 | each listed, kept, traced attribute is replaced by `_set_hooks` of it; all other attributes are unchanged |
| `Context.HookPolicyLeavesOthers` | src/base.py:56-60 | attributes with a dunder prefix, untraced attributes and unlisted names are never touched |
| `Context.SubclassRewrapsInheritedMethods` | src/base.py:56-62 | installing hooks twice (parent, then subclass) nests a public function in two wrappers |
| `Context.Declare` | src/base.py:17-26 | hooks are installed whatever happens next; the registry ends as registration leaves it; the outcome is registration's error or else the policy check's verdict on the new registry |
| `Context.DeclarationSucceedsIff` | src/base.py:19-24 | a declaration returns iff registration returns, the class is then registered, and every referenced class is allowed |
| `Context.RejectedClassStaysRegistered` | src/base.py:20-23 | for every input, the declaration's registry is the one registration left, partial KeyError entry included, whatever the policy check decides: a root maps to itself, and a subclass with ancestors maps to the last ancestor's inspector |
| `Context.RejectedUserServiceStaysRegistered` | tests/test_hooks.py:253-262 | declaring UserService under UserContext with a CatalogService annotation raises the violation message and still leaves UserService registered under UserContext |

## Left out

- `print` (src/base.py:70, 78) is output only and is not modelled.
- Reflection is supplied as inputs: `dir`, `getattr`, `setattr`,
  `klass.__base__`, `klass.__mro__`, `inspect.get_annotations`, and the
  `isinstance` test against `trace_types`. A class's attributes are a map. The
  names `dir` lists are a sequence of distinct names from that map. An
  attribute is `Traced` or `Untraced`.
- How Python's descriptor protocol decides whether an instance, a class or
  nothing arrives as the wrapper's first argument is not modelled. Each call is
  given as the argument list the wrapper receives.
- The iteration order of the set of referenced classes is unspecified in
  Python. It is a parameter. Only the choice of error depends on it.
- `Hooks.Invoke`: hooks and wrapped functions are total, and their effects are
  trace events. Exceptions they raise, and arity errors, are not modelled.
- `Hooks.OnlyBindingFails`: only the kind of the "multiple values for argument
  'klass'" `TypeError` is modelled. Its text depends on the interpreter version.
- `functools.wraps` is modelled only for its `__wrapped__` attribute and its
  copy of the wrapped function's `__dict__`. The name, qualname and docstring
  it copies do not affect behaviour.
- The metaclass machinery of `meta_context` (`type.__new__`) is not modelled.
  A class declared under it is a call of `Context.Declare` with the metaclass's
  hooks and subcontexts.
- Concurrent declarations racing on the registry are not modelled. The source
  assumes a single thread.
