/** The process-wide `_inspector_registry` as an object: a map from each
    declared class to its inspector, updated in place by registration and
    read by the policy check. */
module InspectorRegistry {
  import opened Classes
  import Registration
  import Policy

  class Registry {
    var entries: map<ClassId, ClassId>

    /** A fresh, empty registry (what the test fixture's `clear()` leaves). */
    constructor ()
      ensures entries == map[]
    {
      entries := map[];
    }

    /** `_register_class_inspector(klass=c)`: writes the class's entry, in the
        loop for a non-root class, and raises KeyError on an unregistered
        ancestor, leaving behind whatever the loop had written. */
    method Register(c: ClassInfo) returns (outcome: Outcome)
      modifies this
      ensures Registration.RegisterResult(entries, outcome) == Registration.Register(old(entries), c)
      ensures forall k :: k != c.id ==> (k in entries <==> k in old(entries))
      ensures forall k :: k != c.id && k in old(entries) ==> entries[k] == old(entries)[k]
    {
      Registration.OnlyOwnEntryWritten(entries, c);
      if c.base == Object {
        entries := entries[c.id := c.id];
        return Returned;
      }
      var i := 0;
      while i < |c.mro|
        invariant 0 <= i <= |c.mro|
        invariant Registration.RegisterLoop(entries, c.id, c.mro[i..]) == Registration.RegisterLoop(old(entries), c.id, c.mro)
      {
        var parent := c.mro[i];
        assert c.mro[i..][1..] == c.mro[i + 1..];
        if parent != c.id && parent != Object {
          if parent !in entries {
            return Raised(KeyError(parent));
          }
          var inspector := entries[parent];
          entries := entries[c.id := inspector];
        }
        i := i + 1;
      }
      return Returned;
    }

    /** `_apply_default_inspector_policy(klass=klass, subcontexts=subs)`,
        visiting the referenced classes in the order `refs`. It changes nothing. */
    method CheckPolicy(klass: ClassId, refs: seq<ClassId>, subs: set<ClassId>) returns (outcome: Outcome)
      ensures outcome == Policy.CheckPolicy(entries, klass, refs, subs)
      ensures outcome == Returned <==>
        klass in entries && forall r :: r in refs ==> Policy.Allowed(entries, klass, r, subs)
    {
      Policy.AcceptsIff(entries, klass, refs, subs);
      if klass !in entries {
        return Raised(TypeError(NoneNotSubscriptable));
      }
      var here := entries[klass];
      var i := 0;
      while i < |refs|
        invariant 0 <= i <= |refs|
        invariant Policy.CheckRefs(entries, here, refs[i..], subs) == Policy.CheckRefs(entries, here, refs, subs)
      {
        var field := refs[i];
        assert refs[i..][1..] == refs[i + 1..];
        if field !in entries {
          return Raised(TypeError(NoneNotSubscriptable));
        }
        var inspector := entries[field];
        if here != inspector && inspector !in subs {
          return Raised(TypeError(ViolationMessage(field, here, inspector)));
        }
        i := i + 1;
      }
      return Returned;
    }
  }
}
