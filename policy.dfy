/** The cross-context policy check (`_apply_default_inspector_policy`). It only
    reads the registry: it returns, or raises a TypeError. */
module Policy {
  import opened Classes

  /** A referenced class `r` may be used from the context of `klass`: it is
      registered, and its inspector is the same as the class's or is one of
      the allowed subcontexts. */
  predicate Allowed(reg: map<ClassId, ClassId>, klass: ClassId, r: ClassId, subs: set<ClassId>)
    requires klass in reg
  {
    r in reg && (reg[r] == reg[klass] || reg[r] in subs)
  }

  /** The `for field in all_params` loop, visiting the referenced classes in
      the order `refs`, with `here` the inspector of the class being checked.
      An unregistered class makes `.get(field)` return None, and subscripting
      None raises TypeError. */
  function CheckRefs(reg: map<ClassId, ClassId>, here: ClassId, refs: seq<ClassId>, subs: set<ClassId>): Outcome
  {
    if refs == [] then Returned
    else if refs[0] !in reg then Raised(TypeError(NoneNotSubscriptable))
    else if here != reg[refs[0]] && reg[refs[0]] !in subs then
      Raised(TypeError(ViolationMessage(refs[0], here, reg[refs[0]])))
    else CheckRefs(reg, here, refs[1..], subs)
  }

  /** `_apply_default_inspector_policy(klass=klass, subcontexts=subs)`, where
      `refs` is the order in which the set of referenced classes is iterated. */
  function CheckPolicy(reg: map<ClassId, ClassId>, klass: ClassId, refs: seq<ClassId>, subs: set<ClassId>): Outcome
  {
    if klass !in reg then Raised(TypeError(NoneNotSubscriptable))
    else CheckRefs(reg, reg[klass], refs, subs)
  }

  /** The check accepts iff the class is registered and every referenced class
      is allowed; whatever it raises is a TypeError. */
  lemma {:induction false} AcceptsIff(reg: map<ClassId, ClassId>, klass: ClassId, refs: seq<ClassId>, subs: set<ClassId>)
    ensures var o := CheckPolicy(reg, klass, refs, subs);
      (o == Returned <==> klass in reg && forall r :: r in refs ==> Allowed(reg, klass, r, subs))
      && (o.Raised? ==> o.error.TypeError?)
    decreases |refs|
  {
    if klass in reg && refs != [] {
      assert refs[0] in refs;
      if Allowed(reg, klass, refs[0], subs) {
        AcceptsIff(reg, klass, refs[1..], subs);
        assert forall r :: r in refs <==> r == refs[0] || r in refs[1..];
      }
    }
  }

  /** The error names the first offending class in iteration order: if it is
      unregistered, the None-subscript TypeError; otherwise the violation
      message with the offending class, the class's context and the foreign
      context. */
  lemma {:induction false} RejectsFirstOffender(reg: map<ClassId, ClassId>, klass: ClassId, refs: seq<ClassId>, subs: set<ClassId>, i: nat)
    requires klass in reg && i < |refs|
    requires !Allowed(reg, klass, refs[i], subs)
    requires forall j :: 0 <= j < i ==> Allowed(reg, klass, refs[j], subs)
    ensures CheckPolicy(reg, klass, refs, subs) == Raised(TypeError(
      if refs[i] !in reg then NoneNotSubscriptable
      else ViolationMessage(refs[i], reg[klass], reg[refs[i]])))
    decreases i
  {
    if i > 0 {
      assert Allowed(reg, klass, refs[0], subs);
      RejectsFirstOffender(reg, klass, refs[1..], subs, i - 1);
    }
  }

  /** The class under check must itself be registered. */
  lemma UnregisteredClassRaises(reg: map<ClassId, ClassId>, klass: ClassId, refs: seq<ClassId>, subs: set<ClassId>)
    requires klass !in reg
    ensures CheckPolicy(reg, klass, refs, subs) == Raised(TypeError(NoneNotSubscriptable))
  {
  }

  /** When every registered referenced class is allowed but some referenced
      class is unregistered, the check raises the None-subscript TypeError,
      whatever the order. */
  lemma {:induction false} OnlyUnregisteredOffenders(reg: map<ClassId, ClassId>, klass: ClassId, refs: seq<ClassId>, subs: set<ClassId>)
    requires klass in reg
    requires forall r :: r in refs && r in reg ==> Allowed(reg, klass, r, subs)
    requires exists r :: r in refs && r !in reg
    ensures CheckPolicy(reg, klass, refs, subs) == Raised(TypeError(NoneNotSubscriptable))
    decreases |refs|
  {
    if refs[0] in reg {
      assert refs[0] in refs;
      var r :| r in refs && r !in reg;
      assert r in refs[1..];
      assert forall x :: x in refs[1..] ==> x in refs;
      OnlyUnregisteredOffenders(reg, klass, refs[1..], subs);
    }
  }

  /** Acceptance does not depend on the order in which the referenced classes
      are visited, only on which classes they are; only the choice of error does. */
  lemma AcceptanceIgnoresOrder(reg: map<ClassId, ClassId>, klass: ClassId, refs1: seq<ClassId>, refs2: seq<ClassId>, subs: set<ClassId>)
    requires forall r :: r in refs1 <==> r in refs2
    ensures CheckPolicy(reg, klass, refs1, subs) == Returned <==> CheckPolicy(reg, klass, refs2, subs) == Returned
  {
    AcceptsIff(reg, klass, refs1, subs);
    AcceptsIff(reg, klass, refs2, subs);
  }

  /** A class with the same inspector is always allowed, and so is any class
      whose inspector is listed as a subcontext. */
  lemma SameContextOrSubcontextAccepted(reg: map<ClassId, ClassId>, klass: ClassId, refs: seq<ClassId>, subs: set<ClassId>)
    requires klass in reg
    requires forall r :: r in refs ==> r in reg && (reg[r] == reg[klass] || reg[r] in subs)
    ensures CheckPolicy(reg, klass, refs, subs) == Returned
  {
    AcceptsIff(reg, klass, refs, subs);
  }

  /** The registry after declaring UserContext, CatalogContext, CatalogService
      and UserService, as in the cross-context test scenarios. */
  function ScenarioRegistry(): map<ClassId, ClassId>
  {
    map[UserContext := UserContext, CatalogContext := CatalogContext,
        CatalogService := CatalogContext, UserService := UserContext]
  }

  /** UserService referencing CatalogService (by field or by `__init__`
      parameter) is rejected with the exact text the tests expect (written
      here split where the class names are interpolated). */
  lemma CrossContextReferenceMessage()
    ensures CheckPolicy(ScenarioRegistry(), UserService, [CatalogService], {})
      == Raised(TypeError("Class '" + "CatalogService" + "' can not be used in context '" + "UserContext"
                          + "' because it used in context '" + "CatalogContext" + "'"))
  {
    var reg := ScenarioRegistry();
    assert reg[UserService] == UserContext && reg[CatalogService] == CatalogContext;
    RejectsFirstOffender(reg, UserService, [CatalogService], {}, 0);
  }

  /** Listing UserContext as a subcontext lets CatalogService reference UserService. */
  lemma AllowlistedReferenceAccepted()
    ensures CheckPolicy(ScenarioRegistry(), CatalogService, [UserService], {UserContext}) == Returned
  {
    var reg := ScenarioRegistry();
    assert reg[UserService] == UserContext && reg[CatalogService] == CatalogContext;
    SameContextOrSubcontextAccepted(reg, CatalogService, [UserService], {UserContext});
  }

  /** The allowlisted scenario with the common `-> None` on `__init__`:
      CatalogService's `__init__(self, user_service: UserService) -> None`
      references UserService and `None`, and the lookup of `None` raises,
      in either iteration order, although UserService itself is allowed. */
  lemma InitReturnAnnotationRejected(order: seq<ClassId>)
    requires forall r :: r in order <==> r == UserService || r == NoneAnnotation
    ensures CheckPolicy(ScenarioRegistry(), CatalogService, order, {UserContext})
      == Raised(TypeError(NoneNotSubscriptable))
  {
    var reg := ScenarioRegistry();
    assert reg[UserService] == UserContext && NoneAnnotation !in reg;
    OnlyUnregisteredOffenders(reg, CatalogService, order, {UserContext});
  }
}
