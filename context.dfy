/** The `context` decorator: install hooks on the class, register its
    inspector, check the cross-context policy, in that order. The
    `meta_context` metaclass runs the same three steps on every class it
    creates, with the hooks and subcontexts it was configured with, so
    declaring a class under it is a call of Declare. */
module Context {
  import opened Classes
  import Registration
  import Policy
  import Hooks
  import opened InspectorRegistry

  /** An attribute of a class as `getattr` returns it: a callable whose type is
      one of the traced function and method types, or anything else. */
  datatype Attr = Traced(f: Hooks.Callable) | Untraced(kind: string)

  /** What `_apply_default_hook_policy` leaves: every attribute whose name is
      listed by `dir`, passes the name filter and is traced is replaced by
      `_set_hooks` of it; everything else stays. */
  function HookPolicy(attrs: map<string, Attr>, names: seq<string>, hooks: Hooks.HookConfig): map<string, Attr>
  {
    map k | k in attrs ::
      if k in names && Hooks.KeepName(k) && attrs[k].Traced? then Traced(Hooks.SetHooks(attrs[k].f, hooks))
      else attrs[k]
  }

  predicate Distinct(names: seq<string>)
  {
    forall i, j :: 0 <= i < j < |names| ==> names[i] != names[j]
  }

  /** A class object, reduced to the attributes visible on it. */
  class ClassObject {
    var attrs: map<string, Attr>

    constructor (attrs: map<string, Attr>)
      ensures this.attrs == attrs
    {
      this.attrs := attrs;
    }

    /** `_apply_default_hook_policy(klass=this, ...)`, with `names` the list
        `dir(klass)` gives: every name once, each naming an attribute. */
    method ApplyHookPolicy(names: seq<string>, hooks: Hooks.HookConfig)
      requires Distinct(names) && forall i :: 0 <= i < |names| ==> names[i] in attrs
      modifies this
      ensures attrs == HookPolicy(old(attrs), names, hooks)
    {
      var i := 0;
      while i < |names|
        invariant 0 <= i <= |names|
        invariant attrs == HookPolicy(old(attrs), names[..i], hooks)
      {
        var key := names[i];
        HookPolicyExtend(old(attrs), names, i, hooks);
        if Hooks.KeepName(key) {
          var func := attrs[key];
          if func.Traced? {
            var wrapped := Hooks.SetHooks(func.f, hooks);
            attrs := attrs[key := Traced(wrapped)];
          }
        }
        i := i + 1;
      }
      assert names[..|names|] == names;
    }
  }

  /** Visiting one more name of `dir`'s list wraps that one attribute, if it
      is kept and traced, and nothing else. */
  lemma HookPolicyExtend(attrs: map<string, Attr>, names: seq<string>, i: nat, hooks: Hooks.HookConfig)
    requires Distinct(names) && i < |names| && names[i] in attrs
    ensures var key := names[i];
      var cur := HookPolicy(attrs, names[..i], hooks);
      key in cur && cur[key] == attrs[key]
      && HookPolicy(attrs, names[..i + 1], hooks)
         == if Hooks.KeepName(key) && attrs[key].Traced? then cur[key := Traced(Hooks.SetHooks(attrs[key].f, hooks))] else cur
  {
    var key := names[i];
    assert key !in names[..i] by {
      forall j | 0 <= j < i ensures names[..i][j] != key {
        assert names[..i][j] == names[j];
      }
    }
    assert names[..i + 1] == names[..i] + [key];
  }

  /** `set(subcontexts) if subcontexts else set()`. */
  function SubcontextSet(subcontexts: Option<seq<ClassId>>): set<ClassId>
  {
    match subcontexts
    case None => {}
    case Some(s) => set c | c in s
  }

  /** Registration followed, if it returned, by the policy check against the
      registry it left; the registry keeps what registration wrote whatever
      the check decides. */
  function Declaration(reg: map<ClassId, ClassId>, info: ClassInfo, order: seq<ClassId>, subs: set<ClassId>): Registration.RegisterResult
  {
    var r := Registration.Register(reg, info);
    if r.outcome.Raised? then r
    else Registration.RegisterResult(r.registry, Policy.CheckPolicy(r.registry, info.id, order, subs))
  }

  /** `context(pre_hook=..., post_hook=..., subcontexts=...)(klass)`, with
      `names` what `dir(klass)` lists and `order` the iteration order of the
      set of referenced classes. */
  method Declare(registry: Registry, cls: ClassObject, info: ClassInfo, names: seq<string>, order: seq<ClassId>,
                 hooks: Hooks.HookConfig, subcontexts: Option<seq<ClassId>>)
    returns (outcome: Outcome)
    requires Distinct(names) && forall i :: 0 <= i < |names| ==> names[i] in cls.attrs
    requires forall r :: r in order <==> r in Referenced(info)
    modifies registry, cls
    ensures cls.attrs == HookPolicy(old(cls.attrs), names, hooks)
    ensures Registration.RegisterResult(registry.entries, outcome)
      == Declaration(old(registry.entries), info, order, SubcontextSet(subcontexts))
  {
    cls.ApplyHookPolicy(names, hooks);
    outcome := registry.Register(info);
    if outcome.Raised? {
      return;
    }
    var subs := SubcontextSet(subcontexts);
    outcome := registry.CheckPolicy(info.id, order, subs);
  }

  /** A declaration succeeds iff registration succeeds, the class then has an
      entry, and every referenced class is allowed under the registry as
      registration left it. */
  lemma DeclarationSucceedsIff(reg: map<ClassId, ClassId>, info: ClassInfo, order: seq<ClassId>, subs: set<ClassId>)
    ensures var r := Registration.Register(reg, info);
      Declaration(reg, info, order, subs).outcome == Returned <==>
        r.outcome == Returned && info.id in r.registry
        && forall x :: x in order ==> Policy.Allowed(r.registry, info.id, x, subs)
  {
    var r := Registration.Register(reg, info);
    Policy.AcceptsIff(r.registry, info.id, order, subs);
  }

  /** Whatever the policy check decides, the declaration leaves the registry
      as registration wrote it, including the partial entry a KeyError leaves:
      a root is its own inspector, and a subclass with ancestors holds the
      inspector of the last one, even when the check then raises. */
  lemma RejectedClassStaysRegistered(reg: map<ClassId, ClassId>, info: ClassInfo, order: seq<ClassId>, subs: set<ClassId>)
    ensures var r := Registration.Register(reg, info);
      var d := Declaration(reg, info, order, subs);
      var anc := Registration.Ancestors(info.id, info.mro);
      d.registry == r.registry
      && (info.base == Object ==> info.id in d.registry && d.registry[info.id] == info.id)
      && (info.base != Object && r.outcome == Returned && anc != [] ==>
            Registration.Last(anc) in reg && info.id in d.registry
            && d.registry[info.id] == reg[Registration.Last(anc)])
  {
    var r := Registration.Register(reg, info);
    if info.base != Object && r.outcome == Returned {
      Registration.SucceedsIffAncestorsRegistered(reg, info);
      Registration.InspectorOfLastAncestor(reg, info);
    }
  }

  /** The rejected declaration of the cross-context tests: UserService under
      UserContext, annotated with CatalogService, raises the violation and is
      nonetheless left registered under UserContext. */
  lemma RejectedUserServiceStaysRegistered()
    ensures var before := map[UserContext := UserContext, CatalogContext := CatalogContext,
                              CatalogService := CatalogContext];
      var info := ClassInfo(UserService, UserContext, [UserService, UserContext, Object], [CatalogService], []);
      Declaration(before, info, [CatalogService], {})
        == Registration.RegisterResult(before[UserService := UserContext],
             Raised(TypeError(ViolationMessage(CatalogService, UserContext, CatalogContext))))
  {
    var before := map[UserContext := UserContext, CatalogContext := CatalogContext,
                      CatalogService := CatalogContext];
    var info := ClassInfo(UserService, UserContext, [UserService, UserContext, Object], [CatalogService], []);
    Registration.RegisterUnderRoot(before, UserService, [UserContext]);
    assert info == Registration.Subclass(UserService, [UserContext]).(fieldRefs := [CatalogService]);
    var after := before[UserService := UserContext];
    assert after[UserService] == UserContext && after[CatalogService] == CatalogContext;
    Policy.RejectsFirstOffender(after, UserService, [CatalogService], {}, 0);
  }

  /** A subclass picks up its parent's already hooked methods through `dir`
      and `getattr`, and since the guard never fires it wraps them again: after
      two installations a public traced function sits inside two wrappers. */
  lemma SubclassRewrapsInheritedMethods(attrs: map<string, Attr>, names: seq<string>, h1: Hooks.HookConfig, h2: Hooks.HookConfig, k: string)
    requires k in attrs && k in names && Hooks.KeepName(k) && attrs[k].Traced?
    requires Hooks.CheckedMarker !in Hooks.Attributes(attrs[k].f)
    ensures var twice := HookPolicy(HookPolicy(attrs, names, h1), names, h2);
      k in twice && twice[k] == Traced(Hooks.Wrapper(Hooks.Wrapper(attrs[k].f, h1), h2))
  {
    Hooks.GuardMarkerNeverSet(attrs[k].f, h1);
  }

  /** Names starting with two underscores and untraced attributes are never
      touched; nor is any attribute `dir` does not list. */
  lemma HookPolicyLeavesOthers(attrs: map<string, Attr>, names: seq<string>, hooks: Hooks.HookConfig, k: string)
    requires k in attrs
    requires !(k in names && Hooks.KeepName(k) && attrs[k].Traced?)
    ensures var after := HookPolicy(attrs, names, hooks);
      after.Keys == attrs.Keys && after[k] == attrs[k]
  {
  }
}
