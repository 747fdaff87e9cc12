/** Inspector registration (`_register_class_inspector`) as a function of the
    registry it starts from. The registry maps every declared class to its
    inspector, the context root that governs it. */
module Registration {
  import opened Classes

  /** The registry after a registration attempt, and whether it raised.
      The registry is returned on failure too: the source writes the entry
      inside the loop, so a failing call can leave a partial update behind. */
  datatype RegisterResult = RegisterResult(registry: map<ClassId, ClassId>, outcome: Outcome)

  function Last(s: seq<ClassId>): ClassId
    requires s != []
  {
    s[|s| - 1]
  }

  /** The entries of the resolution order whose inspector the loop copies:
      everything except the class itself and `object`, in order. */
  function Ancestors(klass: ClassId, mro: seq<ClassId>): (anc: seq<ClassId>)
    ensures forall a :: a in anc <==> a in mro && a != klass && a != Object
  {
    if mro == [] then []
    else if mro[0] == klass || mro[0] == Object then Ancestors(klass, mro[1..])
    else [mro[0]] + Ancestors(klass, mro[1..])
  }

  /** The ancestors are an order-preserving subsequence of the resolution
      order: filtering a concatenation filters each part in turn. */
  lemma {:induction false} AncestorsAppend(klass: ClassId, front: seq<ClassId>, back: seq<ClassId>)
    ensures Ancestors(klass, front + back) == Ancestors(klass, front) + Ancestors(klass, back)
    decreases |front|
  {
    if front == [] {
      assert front + back == back;
    } else {
      assert (front + back)[1..] == front[1..] + back;
      AncestorsAppend(klass, front[1..], back);
    }
  }

  /** The ancestors keep the resolution order: the last of them is followed
      in the resolution order only by the class itself and `object`, so it is
      the last parent the loop visits. */
  lemma {:induction false} LastAncestorIsLastVisited(klass: ClassId, mro: seq<ClassId>)
    ensures var anc := Ancestors(klass, mro);
      (anc != [] ==>
        exists j :: 0 <= j < |mro| && mro[j] == Last(anc)
                    && forall j' :: j < j' < |mro| ==> mro[j'] == klass || mro[j'] == Object)
      && (anc == [] ==> forall j :: 0 <= j < |mro| ==> mro[j] == klass || mro[j] == Object)
    decreases |mro|
  {
    if mro != [] {
      LastAncestorIsLastVisited(klass, mro[1..]);
      var rest := Ancestors(klass, mro[1..]);
      if rest != [] {
        var j :| 0 <= j < |mro[1..]| && mro[1..][j] == Last(rest)
                 && forall j' :: j < j' < |mro[1..]| ==> mro[1..][j'] == klass || mro[1..][j'] == Object;
        assert Last(Ancestors(klass, mro)) == Last(rest);
        assert forall j' :: j + 1 < j' < |mro| ==> mro[j'] == mro[1..][j' - 1];
      } else {
        assert forall j :: 1 <= j < |mro| ==> mro[j] == mro[1..][j - 1];
      }
    }
  }

  /** The `for parent in klass.__mro__` loop, over the part of the resolution
      order still to visit: skip the class and `object`, raise KeyError on an
      unregistered parent, otherwise overwrite the class's entry with the
      parent's inspector. */
  function RegisterLoop(reg: map<ClassId, ClassId>, klass: ClassId, mro: seq<ClassId>): RegisterResult
    decreases |mro|
  {
    if mro == [] then RegisterResult(reg, Returned)
    else if mro[0] == klass || mro[0] == Object then RegisterLoop(reg, klass, mro[1..])
    else if mro[0] !in reg then RegisterResult(reg, Raised(KeyError(mro[0])))
    else RegisterLoop(reg[klass := reg[mro[0]]], klass, mro[1..])
  }

  /** `_register_class_inspector(klass=c)`: a class whose base is `object` is
      a context root and becomes its own inspector; any other class runs the loop. */
  function Register(reg: map<ClassId, ClassId>, c: ClassInfo): RegisterResult
  {
    if c.base == Object then RegisterResult(reg[c.id := c.id], Returned)
    else RegisterLoop(reg, c.id, c.mro)
  }

  /** Index of the first entry of `anc` that has no registry entry. */
  function FirstUnregistered(reg: map<ClassId, ClassId>, anc: seq<ClassId>): (i: nat)
    requires exists a :: a in anc && a !in reg
    ensures i < |anc| && anc[i] !in reg
    ensures forall j :: 0 <= j < i ==> anc[j] in reg
  {
    if anc[0] !in reg then 0
    else
      assert exists a :: a in anc[1..] && a !in reg by {
        var a :| a in anc && a !in reg;
        assert a != anc[0];
      }
      1 + FirstUnregistered(reg, anc[1..])
  }

  /** Reference definition of the loop's effect, stated over the ancestors
      alone: if all are registered, the class ends with the inspector of the
      last one (unchanged if there is none); otherwise KeyError names the
      first unregistered one, and the class holds the inspector of the
      ancestor just before it (unchanged if there is none). */
  function Walk(reg: map<ClassId, ClassId>, klass: ClassId, anc: seq<ClassId>): RegisterResult
  {
    if AllRegistered(reg, anc) then
      RegisterResult(if anc == [] then reg else reg[klass := reg[Last(anc)]], Returned)
    else
      var i := FirstUnregistered(reg, anc);
      RegisterResult(if i == 0 then reg else reg[klass := reg[anc[i - 1]]], Raised(KeyError(anc[i])))
  }

  lemma FirstUnregisteredSameKeys(reg: map<ClassId, ClassId>, reg': map<ClassId, ClassId>, anc: seq<ClassId>)
    requires exists a :: a in anc && a !in reg
    requires forall a :: a in anc ==> (a in reg <==> a in reg')
    ensures exists a :: a in anc && a !in reg'
    ensures FirstUnregistered(reg, anc) == FirstUnregistered(reg', anc)
  {
    var a :| a in anc && a !in reg;
    assert a !in reg';
    var i := FirstUnregistered(reg, anc);
    assert anc[i] !in reg';
    FirstUnregisteredUnique(reg', anc, i);
  }

  /** The index FirstUnregistered returns is the only one its contract allows. */
  lemma FirstUnregisteredUnique(reg: map<ClassId, ClassId>, anc: seq<ClassId>, i: nat)
    requires i < |anc| && anc[i] !in reg && forall j :: 0 <= j < i ==> anc[j] in reg
    ensures exists a :: a in anc && a !in reg
    ensures FirstUnregistered(reg, anc) == i
  {
    assert anc[i] in anc;
    var k := FirstUnregistered(reg, anc);
    assert anc[k] !in reg;
  }

  predicate AllRegistered(reg: map<ClassId, ClassId>, anc: seq<ClassId>)
  {
    forall a :: a in anc ==> a in reg
  }

  /** One step of the walk: overwriting the class's entry with the first
      ancestor's inspector and walking the rest gives the same as walking all. */
  lemma WalkStep(reg: map<ClassId, ClassId>, klass: ClassId, p: ClassId, rest: seq<ClassId>)
    requires p in reg && p != klass && klass !in rest
    ensures Walk(reg[klass := reg[p]], klass, rest) == Walk(reg, klass, [p] + rest)
  {
    var reg' := reg[klass := reg[p]];
    var anc := [p] + rest;
    assert anc[1..] == rest;
    if AllRegistered(reg, rest) {
      WalkStepAll(reg, klass, p, rest);
    } else {
      WalkStepMissing(reg, klass, p, rest);
    }
  }

  lemma WalkStepMissing(reg: map<ClassId, ClassId>, klass: ClassId, p: ClassId, rest: seq<ClassId>)
    requires p in reg && p != klass && klass !in rest
    requires !AllRegistered(reg, rest)
    ensures Walk(reg[klass := reg[p]], klass, rest) == Walk(reg, klass, [p] + rest)
  {
    var reg' := reg[klass := reg[p]];
    var anc := [p] + rest;
    assert !AllRegistered(reg', rest) && !AllRegistered(reg, anc) by {
      var a :| a in rest && a !in reg;
      assert a in anc && a !in reg';
    }
    var i := FirstUnregistered(reg, rest);
    assert FirstUnregistered(reg', rest) == i by {
      FirstUnregisteredSameKeys(reg, reg', rest);
    }
    FirstUnregisteredCons(reg, p, rest);
    assert anc[i + 1] == rest[i];
    if i > 0 {
      var q := rest[i - 1];
      assert anc[i] == q && q != klass;
      assert reg'[klass := reg'[q]] == reg[klass := reg[q]] by {
        assert reg'[q] == reg[q];
      }
    }
  }

  /** Putting a registered class in front shifts the first unregistered index by one. */
  lemma FirstUnregisteredCons(reg: map<ClassId, ClassId>, p: ClassId, rest: seq<ClassId>)
    requires p in reg && exists a :: a in rest && a !in reg
    ensures exists a :: a in [p] + rest && a !in reg
    ensures FirstUnregistered(reg, [p] + rest) == FirstUnregistered(reg, rest) + 1
  {
    var anc := [p] + rest;
    var i := FirstUnregistered(reg, rest);
    forall j | 0 <= j < i + 1 ensures anc[j] in reg {
      if j > 0 {
        assert anc[j] == rest[j - 1];
      }
    }
    assert anc[i + 1] == rest[i];
    FirstUnregisteredUnique(reg, anc, i + 1);
  }

  lemma WalkStepAll(reg: map<ClassId, ClassId>, klass: ClassId, p: ClassId, rest: seq<ClassId>)
    requires p in reg && p != klass && klass !in rest
    requires AllRegistered(reg, rest)
    ensures Walk(reg[klass := reg[p]], klass, rest) == Walk(reg, klass, [p] + rest)
  {
    var reg' := reg[klass := reg[p]];
    var anc := [p] + rest;
    assert AllRegistered(reg, anc);
    assert AllRegistered(reg', rest);
    if rest != [] {
      assert Last(anc) == Last(rest);
      assert Last(rest) in rest;
    }
  }

  /** The loop computes the reference definition. */
  lemma {:induction false} LoopMatchesWalk(reg: map<ClassId, ClassId>, klass: ClassId, mro: seq<ClassId>)
    ensures RegisterLoop(reg, klass, mro) == Walk(reg, klass, Ancestors(klass, mro))
    decreases |mro|
  {
    if mro == [] {
    } else if mro[0] == klass || mro[0] == Object {
      LoopMatchesWalk(reg, klass, mro[1..]);
    } else if mro[0] !in reg {
      var anc := Ancestors(klass, mro);
      assert anc[0] == mro[0];
      assert FirstUnregistered(reg, anc) == 0;
    } else {
      LoopMatchesWalk(reg[klass := reg[mro[0]]], klass, mro[1..]);
      WalkStep(reg, klass, mro[0], Ancestors(klass, mro[1..]));
    }
  }

  /** A root maps to itself and no other key is written (src/base.py:71-73). */
  lemma RootIsOwnInspector(reg: map<ClassId, ClassId>, c: ClassInfo)
    requires c.base == Object
    ensures var r := Register(reg, c);
      r.outcome == Returned && c.id in r.registry && r.registry[c.id] == c.id
      && r.registry.Keys == reg.Keys + {c.id}
      && forall k :: k in reg && k != c.id ==> r.registry[k] == reg[k]
  {
  }

  /** Whatever happens, only the class's own key is written. */
  lemma OnlyOwnEntryWritten(reg: map<ClassId, ClassId>, c: ClassInfo)
    ensures var r := Register(reg, c);
      forall k :: k != c.id ==> (k in r.registry <==> k in reg) && (k in reg ==> r.registry[k] == reg[k])
  {
    if c.base != Object {
      LoopMatchesWalk(reg, c.id, c.mro);
    }
  }

  /** Registration raises exactly when some ancestor other than the class and
      `object` was never registered, and then the error is a KeyError. */
  lemma SucceedsIffAncestorsRegistered(reg: map<ClassId, ClassId>, c: ClassInfo)
    ensures var r := Register(reg, c);
      (r.outcome == Returned <==>
        c.base == Object || forall p :: p in c.mro && p != c.id && p != Object ==> p in reg)
      && (r.outcome.Raised? ==> r.outcome.error.KeyError?)
  {
    if c.base != Object {
      LoopMatchesWalk(reg, c.id, c.mro);
    }
  }

  /** On success a non-root class holds the inspector of the last entry of its
      resolution order that is neither itself nor `object`. */
  lemma InspectorOfLastAncestor(reg: map<ClassId, ClassId>, c: ClassInfo)
    requires c.base != Object
    requires forall p :: p in c.mro && p != c.id && p != Object ==> p in reg
    ensures var anc := Ancestors(c.id, c.mro); var r := Register(reg, c);
      r.outcome == Returned
      && (anc != [] ==> Last(anc) in reg && r.registry == reg[c.id := reg[Last(anc)]])
      && (anc == [] ==> r.registry == reg)
  {
    LoopMatchesWalk(reg, c.id, c.mro);
    var anc := Ancestors(c.id, c.mro);
    assert AllRegistered(reg, anc);
    if anc != [] {
      assert Last(anc) in anc;
    }
  }

  /** On failure the KeyError names the first unregistered ancestor, and the
      class already holds the inspector of the ancestor visited just before. */
  lemma FailureKeepsPartialEntry(reg: map<ClassId, ClassId>, c: ClassInfo, i: nat)
    requires c.base != Object
    requires var anc := Ancestors(c.id, c.mro);
      i < |anc| && anc[i] !in reg && forall j :: 0 <= j < i ==> anc[j] in reg
    ensures var anc := Ancestors(c.id, c.mro); var r := Register(reg, c);
      r.outcome == Raised(KeyError(anc[i]))
      && r.registry == (if i == 0 then reg else reg[c.id := reg[anc[i - 1]]])
  {
    var anc := Ancestors(c.id, c.mro);
    LoopMatchesWalk(reg, c.id, c.mro);
    FirstUnregisteredUnique(reg, anc, i);
    assert !AllRegistered(reg, anc) by {
      assert anc[i] in anc;
    }
  }

  /** Single inheritance below a root: the resolution order is the class, its
      chain of ancestors ending in the root, and `object`. With the ancestors
      registered and the root its own inspector, the class maps to the root,
      however deep the chain (e.g. SpecialUser -> User -> UserContext). */
  lemma DescendantMapsToRoot(reg: map<ClassId, ClassId>, c: ClassInfo, chain: seq<ClassId>)
    requires c.base != Object
    requires chain != [] && c.mro == [c.id] + chain + [Object]
    requires c.id !in chain && Object !in chain
    requires forall p :: p in chain ==> p in reg
    requires reg[Last(chain)] == Last(chain)
    ensures var r := Register(reg, c);
      r.outcome == Returned && c.id in r.registry && r.registry[c.id] == Last(chain)
  {
    AncestorsOfChain(c.id, chain);
    assert c.mro == [c.id] + (chain + [Object]);
    InspectorOfLastAncestor(reg, c);
  }

  lemma {:induction false} AncestorsOfChain(klass: ClassId, chain: seq<ClassId>)
    requires klass !in chain && Object !in chain
    ensures Ancestors(klass, [klass] + (chain + [Object])) == chain
    decreases |chain|
  {
    var mro := [klass] + (chain + [Object]);
    assert mro[0] == klass && mro[1..] == chain + [Object];
    TailAncestors(klass, chain);
  }

  lemma {:induction false} TailAncestors(klass: ClassId, chain: seq<ClassId>)
    requires klass !in chain && Object !in chain
    ensures Ancestors(klass, chain + [Object]) == chain
    decreases |chain|
  {
    if chain == [] {
      assert [Object][1..] == [];
    } else {
      assert (chain + [Object])[1..] == chain[1..] + [Object];
      TailAncestors(klass, chain[1..]);
    }
  }

  /** Two separate roots: registering a class that descends from root B leaves
      every other class governed by root A governed by A (the assignments stay
      disjoint), and the new class is governed by B. */
  lemma SeparateRootsStayDisjoint(reg: map<ClassId, ClassId>, c: ClassInfo, chain: seq<ClassId>, a: ClassId)
    requires c.base != Object
    requires chain != [] && c.mro == [c.id] + chain + [Object]
    requires c.id !in chain && Object !in chain
    requires forall p :: p in chain ==> p in reg
    requires reg[Last(chain)] == Last(chain) && Last(chain) != a
    ensures var r := Register(reg, c);
      c.id in r.registry && r.registry[c.id] == Last(chain)
      && forall k :: k in reg && k != c.id && reg[k] == a ==> k in r.registry && r.registry[k] == a
  {
    DescendantMapsToRoot(reg, c, chain);
    OnlyOwnEntryWritten(reg, c);
  }

  /** A class declared with a single chain of ancestors, nearest first. */
  function Subclass(c: ClassId, chain: seq<ClassId>): ClassInfo
    requires chain != []
  {
    ClassInfo(c, chain[0], [c] + chain + [Object], [], [])
  }

  /** One step of the tree example: registering a subclass of a chain whose
      last element is its own inspector adds the class under that root. */
  lemma RegisterUnderRoot(reg: map<ClassId, ClassId>, c: ClassId, chain: seq<ClassId>)
    requires chain != [] && chain[0] != Object && c !in chain && Object !in chain
    requires forall p :: p in chain ==> p in reg
    requires reg[Last(chain)] == Last(chain)
    ensures Register(reg, Subclass(c, chain)) == RegisterResult(reg[c := Last(chain)], Returned)
  {
    var info := Subclass(c, chain);
    AncestorsOfChain(c, chain);
    assert info.mro == [c] + (chain + [Object]);
    InspectorOfLastAncestor(reg, info);
  }

  /** Declaring UserContext, then UserService, UserRepo and User under it, then
      SpecialUser under User, maps all five to UserContext. */
  lemma ClassTreeExample()
    ensures var r1 := Register(map[], ClassInfo(UserContext, Object, [UserContext, Object], [], []));
      var r2 := Register(r1.registry, Subclass(UserService, [UserContext]));
      var r3 := Register(r2.registry, Subclass(UserRepo, [UserContext]));
      var r4 := Register(r3.registry, Subclass(User, [UserContext]));
      var r5 := Register(r4.registry, Subclass(SpecialUser, [User, UserContext]));
      r5.outcome == Returned
      && r5.registry == map[UserContext := UserContext, UserService := UserContext, UserRepo := UserContext,
                            User := UserContext, SpecialUser := UserContext]
  {
    var reg1 := map[UserContext := UserContext];
    RegisterUnderRoot(reg1, UserService, [UserContext]);
    var reg2 := reg1[UserService := UserContext];
    RegisterUnderRoot(reg2, UserRepo, [UserContext]);
    var reg3 := reg2[UserRepo := UserContext];
    RegisterUnderRoot(reg3, User, [UserContext]);
    var reg4 := reg3[User := UserContext];
    RegisterUnderRoot(reg4, SpecialUser, [User, UserContext]);
  }
}
