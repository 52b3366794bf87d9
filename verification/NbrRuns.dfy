/** Whole runs of the neighbour tables: age across operations, and slots that are lost. */
module NbrRuns {
  import opened NbrModel
  import opened NbrTable

  /** What happened; index and place are what nbr_table_add_lladdr chose. */
  datatype Event =
    | Add(t: nat, a: LinkAddr, index: int, place: int)
    | Remove(t: nat, item: int)
    | SetLocks
    | Update(was: LinkAddr, now: LinkAddr, remove: bool)
    | Other

  ghost predicate Step(v: Nbrs, e: Event, w: Nbrs)
    requires v.Shaped()
  {
    match e
    case Add(t, a, index, place) =>
      && t < MAX_NUM_TABLES && -1 <= index < |v.claimed| && place < |v.keys|
      && Placed(v, a, index, place) && w == Added(v, a, t, index, place)
    case Remove(t, item) =>
      && t < MAX_NUM_TABLES && -1 <= item < |v.claimed|
      && w == if item == -1 then v else Unused(v, item, t)
    case SetLocks => w == v.(locked := w.locked) && |w.locked| == |v.locked|
    case Update(was, now, remove) => w == Updated(v, was, now, remove)
    case Other => w == v
  }

  ghost predicate RunOk(vs: seq<Nbrs>, es: seq<Event>) {
    && |vs| == |es| + 1
    && Initial(vs[0])
    && (forall i :: 0 <= i < |es| ==> StepAt(vs, es, i))
  }

  ghost predicate StepAt(vs: seq<Nbrs>, es: seq<Event>, i: nat)
    requires i < |es| && i + 1 < |vs|
  {
    vs[i].Shaped() && Step(vs[i], es[i], vs[i + 1])
  }

  /** Every operation keeps the invariant. */
  lemma StepInv(v: Nbrs, e: Event, w: Nbrs)
    requires v.Inv() && Step(v, e, w)
    ensures w.Inv()
  {
    hide Victim, AllLocked, FirstFree, WithBit, WithoutBit, Nbrs.Inv;
    ShapedOf(v);
    match e
    case Add(_, _, _, _) => AddInv(v, e, w);
    case Remove(t, item) =>
      if item != -1 {
        UnusedInv(v, item, t);
      }
    case SetLocks => LocksInv(v, w);
    case Update(was, now, _) =>
      FoundIn(v.keys, v.addr, was);
      var i, j := v.Find(was), v.Find(now);
      if i != -1 && j == -1 {
        RenamedInv(v, i, now);
      } else if i != -1 {
        RemovedInv(v, i);
      }
    case Other =>
  }

  lemma LocksInv(v: Nbrs, w: Nbrs)
    requires v.Inv() && w == v.(locked := w.locked) && |w.locked| == |v.locked|
    ensures w.Inv()
  {
  }

  lemma AddInv(v: Nbrs, e: Event, w: Nbrs)
    requires v.Inv() && e.Add? && Step(v, e, w)
    ensures w.Inv()
  {
    hide Victim, AllLocked, FirstFree, Nbrs.Inv, Used;
    ShapedOf(v);
    FoundIn(v.keys, v.addr, e.a);
    if e.index != -1 {
      if v.Find(e.a) != -1 {
        UsedInv(v, e.index, e.t);
      } else {
        var u := if e.place < 0 then v else Removed(v, v.keys[e.place]);
        if e.place < 0 {
          FreeNotListed(v, e.a, e.index, e.place);
        } else {
          assert v.keys[e.place] in v.keys;
          RemovedInv(v, v.keys[e.place]);
          RemovedFind(v, v.keys[e.place], e.a);
        }
        EnteredInv(u, e.index, e.a);
        UsedInv(Entered(u, e.index, e.a), e.index, e.t);
      }
    }
  }

  lemma RemovedFind(v: Nbrs, k: nat, a: LinkAddr)
    requires v.Inv() && k in v.keys && v.Find(a) == -1
    ensures Removed(v, k).Inv() && Removed(v, k).Find(a) == -1
  {
    RemovedInv(v, k);
    WithoutIs(v.keys, k);
    FoundIn(v.keys, v.addr, a);
    FindIs(Removed(v, k), a, -1);
  }

  /** So it holds in every state of every run. */
  lemma {:induction false} RunInv(vs: seq<Nbrs>, es: seq<Event>, i: nat)
    requires RunOk(vs, es) && i <= |es|
    ensures vs[i].Inv()
    decreases i
  {
    hide Step, Nbrs.Inv;
    if i == 0 {
      InitialInv(vs[0]);
    } else {
      RunInv(vs, es, i - 1);
      assert StepAt(vs, es, i - 1);
      StepInv(vs[i - 1], es[i - 1], vs[i]);
    }
  }

  // ---- Age ---------------------------------------------------------------------------

  /** The event enters slot k for an address that was not listed. */
  predicate Enters(v: Nbrs, e: Event, k: nat)
    requires v.Shaped()
  {
    e.Add? && e.index == k && v.Find(e.a) == -1
  }

  /** The last of the first i events that entered slot k, or -1. */
  ghost function EnteredAt(vs: seq<Nbrs>, es: seq<Event>, i: nat, k: nat): (j: int)
    requires i <= |es| < |vs| && forall n :: 0 <= n < |vs| ==> vs[n].Shaped()
    ensures -1 <= j < i
  {
    if i == 0 then -1
    else if Enters(vs[i - 1], es[i - 1], k) then i - 1
    else EnteredAt(vs, es, i - 1, k)
  }

  ghost predicate Ascends(keys: seq<nat>, age: nat -> int) {
    forall p, q :: 0 <= p < q < |keys| ==> age(keys[p]) < age(keys[q])
  }

  lemma {:induction false} WithoutAscends(keys: seq<nat>, age: nat -> int, k: nat)
    requires Ascends(keys, age)
    ensures Ascends(Without(keys, k), age)
    ensures forall i :: i in Without(keys, k) ==> i in keys
    decreases |keys|
  {
    if keys != [] {
      WithoutAscends(keys[1..], age, k);
      var rest := Without(keys[1..], k);
      assert keys == [keys[0]] + keys[1..];
      forall q | 0 <= q < |rest| ensures age(keys[0]) < age(rest[q]) {
        assert rest[q] in keys[1..];
      }
    }
  }

  /** A slot entered last is younger than all others. */
  lemma AppendAscends(keys: seq<nat>, age: nat -> int, age': nat -> int, k: nat)
    requires Ascends(keys, age)
    requires forall i :: i in keys ==> age'(i) == age(i) < age'(k)
    ensures Ascends(keys + [k], age')
  {
    forall p, q | 0 <= p < q <= |keys| ensures age'((keys + [k])[p]) < age'((keys + [k])[q]) {
      assert keys[p] in keys;
      assert q < |keys| ==> keys[q] in keys;
    }
  }

  lemma SameAges(keys: seq<nat>, age: nat -> int, age': nat -> int)
    requires Ascends(keys, age) && forall i :: i in keys ==> age'(i) == age(i)
    ensures Ascends(keys, age')
  {
    forall p, q | 0 <= p < q < |keys| ensures age'(keys[p]) < age'(keys[q]) {
      assert keys[p] in keys && keys[q] in keys;
    }
  }

  /** What a step does to the list. */
  lemma KeysAfter(v: Nbrs, e: Event, w: Nbrs)
    requires v.Inv() && Step(v, e, w)
    ensures
      if e.Add? && e.index != -1 && v.Find(e.a) == -1 then
        var rest := if e.place < 0 then v.keys else Without(v.keys, v.keys[e.place]);
        e.index !in rest && w.keys == rest + [e.index]
      else if e.Update? && Dropped(v, e.was, e.now, e.remove) != -1 then
        w.keys == Without(v.keys, Dropped(v, e.was, e.now, e.remove))
      else w.keys == v.keys
  {
    hide Victim, AllLocked, FirstFree, WithBit, WithoutBit;
    if e.Add? && e.index != -1 && v.Find(e.a) == -1 {
      if e.place >= 0 {
        WithoutIs(v.keys, v.keys[e.place]);
        WithoutAbsent(Without(v.keys, v.keys[e.place]), e.index);
      } else {
        FreeNotListed(v, e.a, e.index, e.place);
        WithoutAbsent(v.keys, e.index);
      }
    }
  }

  lemma FreeNotListed(v: Nbrs, a: LinkAddr, k: int, p: int)
    requires v.Inv() && v.Find(a) == -1 && k != -1 && p < 0 && Placed(v, a, k, p)
    ensures k !in v.keys
  {
    assert k == FirstFree(v.claimed) && k < |v.claimed|;
  }

  /** One step keeps the list in order of age; n is later than all that was. */
  lemma AgeStep(v: Nbrs, e: Event, w: Nbrs, age: nat -> int, age': nat -> int, n: int)
    requires v.Inv() && Step(v, e, w) && Ascends(v.keys, age)
    requires forall k: nat :: age(k) < n && age'(k) == if Enters(v, e, k) then n else age(k)
    ensures Ascends(w.keys, age')
  {
    hide Placed, Added, Updated, Unused, Ascends, Nbrs.Inv, Without;
    ShapedOf(v);
    KeysAfter(v, e, w);
    if e.Add? && e.index != -1 && v.Find(e.a) == -1 {
      var rest := if e.place < 0 then v.keys else Without(v.keys, v.keys[e.place]);
      if e.place >= 0 {
        WithoutAscends(v.keys, age, v.keys[e.place]);
      }
      AppendAscends(rest, age, age', e.index);
    } else {
      if e.Update? && Dropped(v, e.was, e.now, e.remove) != -1 {
        WithoutAscends(v.keys, age, Dropped(v, e.was, e.now, e.remove));
      }
      SameAges(w.keys, age, age');
    }
  }

  ghost function Age(vs: seq<Nbrs>, es: seq<Event>, i: nat): nat -> int
    requires i <= |es| < |vs| && forall n :: 0 <= n < |vs| ==> vs[n].Shaped()
  {
    (k: nat) => EnteredAt(vs, es, i, k)
  }

  /** In every state of every run the list is in the order in which its members were entered. */
  lemma {:induction false} ListIsByAge(vs: seq<Nbrs>, es: seq<Event>, i: nat)
    requires RunOk(vs, es) && i <= |es|
    ensures forall n :: 0 <= n < |vs| ==> vs[n].Shaped()
    ensures Ascends(vs[i].keys, Age(vs, es, i))
    decreases i
  {
    hide Step, EnteredAt, Enters, Nbrs.Inv;
    AllShaped(vs, es);
    if i > 0 {
      ListIsByAge(vs, es, i - 1);
      RunInv(vs, es, i - 1);
      assert StepAt(vs, es, i - 1);
      var age, age' := Age(vs, es, i - 1), Age(vs, es, i);
      forall k: nat
        ensures age(k) < i - 1 && age'(k) == if Enters(vs[i - 1], es[i - 1], k) then i - 1 else age(k)
      {
        AgeAfter(vs, es, i, k);
      }
      AgeStep(vs[i - 1], es[i - 1], vs[i], age, age', i - 1);
    }
  }

  lemma AllShaped(vs: seq<Nbrs>, es: seq<Event>)
    requires RunOk(vs, es)
    ensures forall i :: 0 <= i < |vs| ==> vs[i].Shaped()
  {
    hide Nbrs.Inv;
    forall i | 0 <= i < |vs| ensures vs[i].Shaped() {
      RunInv(vs, es, i);
      ShapedOf(vs[i]);
    }
  }

  lemma AgeAfter(vs: seq<Nbrs>, es: seq<Event>, i: nat, k: nat)
    requires 0 < i <= |es| < |vs| && forall n :: 0 <= n < |vs| ==> vs[n].Shaped()
    ensures EnteredAt(vs, es, i, k) == if Enters(vs[i - 1], es[i - 1], k) then i - 1 else EnteredAt(vs, es, i - 1, k)
  {
  }

  /** Whoever is evicted in a run has the fewest users among the unlocked neighbours, and of those that have as few was
      entered first. */
  lemma EvictsOldest(vs: seq<Nbrs>, es: seq<Event>, i: nat, q: nat)
    requires RunOk(vs, es) && i < |es| && es[i].Add? && es[i].place >= 0
    requires q in vs[i].keys && q < |vs[i].locked| && vs[i].locked[q] == 0
    ensures vs[i].Shaped() && forall n :: 0 <= n < |vs| ==> vs[n].Shaped()
    ensures
      var v, p := vs[i], es[i].place;
      && p < |v.keys| && v.locked[v.keys[p]] == 0
      && var k := v.keys[p];
      Count(v.used[k]) < Count(v.used[q])
      || (Count(v.used[k]) == Count(v.used[q]) && (k == q || EnteredAt(vs, es, i, k) < EnteredAt(vs, es, i, q)))
  {
    hide Count, EnteredAt;
    var v, p := vs[i], es[i].place;
    assert StepAt(vs, es, i);
    ListIsByAge(vs, es, i);
    var r :| 0 <= r < |v.keys| && v.keys[r] == q;
    assert Victim(v, p);
    var age := Age(vs, es, i);
    assert p < r ==> age(v.keys[p]) < age(v.keys[r]);
  }

  // ---- Lost slots --------------------------------------------------------------------

  /** A slot is lost exactly when a neighbour is to be given an address that another neighbour has, and the duplicate
      is to be removed; and what is lost stays lost. */
  lemma LeaksIff(v: Nbrs, e: Event, w: Nbrs, k: nat)
    requires v.Inv() && Step(v, e, w)
    ensures Leaked(w, k) <==>
      Leaked(v, k) || (e.Update? && e.remove && v.Find(e.was) == k && v.Find(e.now) != -1 && v.Find(e.now) != k)
  {
    hide Victim, AllLocked, FirstFree, WithBit, WithoutBit, Nbrs.Inv, Without;
    if e.Add? {
      AddLeaksNone(v, e, w, k);
    } else if e.Update? {
      UpdateLeaksIff(v, e, w, k);
    }
  }

  lemma AddLeaksNone(v: Nbrs, e: Event, w: Nbrs, k: nat)
    requires v.Inv() && Step(v, e, w) && e.Add?
    ensures Leaked(w, k) <==> Leaked(v, k)
  {
    hide Victim, AllLocked, WithBit, FirstFree, Nbrs.Inv, Without;
    ShapedOf(v);
    FoundIn(v.keys, v.addr, e.a);
    if e.index != -1 && v.Find(e.a) == -1 {
      KeysAfter(v, e, w);
      if e.place >= 0 {
        SameMembers(v, v.keys[e.place], w.keys, k) by {
          assert v.keys[e.place] in v.keys;
        }
      } else {
        FreeIsFree(v, e.a, e.index, e.place);
      }
    }
  }

  /** Evicting a neighbour and entering its slot again leaves the same slots listed. */
  lemma SameMembers(v: Nbrs, k: nat, keys: seq<nat>, i: nat)
    requires v.Inv() && k in v.keys && keys == Without(v.keys, k) + [k]
    ensures i in keys <==> i in v.keys
    ensures k < |v.claimed| && v.claimed[k]
  {
    WithoutIs(v.keys, k);
  }

  lemma FreeIsFree(v: Nbrs, a: LinkAddr, k: int, p: int)
    requires v.Shaped() && v.Find(a) == -1 && k != -1 && p < 0 && Placed(v, a, k, p)
    ensures 0 <= k < |v.claimed| && !v.claimed[k]
  {
  }

  lemma UpdateLeaksIff(v: Nbrs, e: Event, w: Nbrs, k: nat)
    requires v.Inv() && Step(v, e, w) && e.Update?
    ensures Leaked(w, k) <==>
      Leaked(v, k) || (e.remove && v.Find(e.was) == k && v.Find(e.now) != -1 && v.Find(e.now) != k)
  {
    KeysAfter(v, e, w);
    FoundIn(v.keys, v.addr, e.was);
    if Dropped(v, e.was, e.now, e.remove) != -1 {
      WithoutIs(v.keys, Dropped(v, e.was, e.now, e.remove));
    }
  }

  /** Over any stretch of any run a lost slot stays lost, and no neighbour is ever put into it. */
  lemma {:induction false} LeakedForever(vs: seq<Nbrs>, es: seq<Event>, i: nat, j: nat, k: nat)
    requires RunOk(vs, es) && i <= j <= |es| && Leaked(vs[i], k)
    ensures Leaked(vs[j], k)
    ensures forall n :: i <= n < j && es[n].Add? ==> es[n].index != k
    decreases j
  {
    hide Step, Leaked, Nbrs.Inv;
    if i < j {
      LeakedForever(vs, es, i, j - 1, k);
      RunInv(vs, es, j - 1);
      assert StepAt(vs, es, j - 1);
      LeaksIff(vs[j - 1], es[j - 1], vs[j], k);
      if es[j - 1].Add? {
        NeverPlaced(vs[j - 1], es[j - 1], vs[j], k);
      }
    }
  }

  lemma NeverPlaced(v: Nbrs, e: Event, w: Nbrs, k: nat)
    requires v.Inv() && Step(v, e, w) && e.Add? && Leaked(v, k)
    ensures e.index != k
  {
    hide Victim, AllLocked, Added;
    FoundIn(v.keys, v.addr, e.a);
  }

  /** Two neighbours with addresses 5 and 6, of which 5 is to become 6: slot 0 is lost, and no slot is left to give out. */
  lemma DuplicateLeaks()
    ensures
      var v := Nbrs([true, true], [1, 1], [0, 0], [5, 6], [0, 1]);
      && v.Inv()
      && var w := Updated(v, 5, 6, true);
      Leaked(w, 0) && w.keys == [1] && FirstFree(w.claimed) == 2
  {
    var v := Nbrs([true, true], [1, 1], [0, 0], [5, 6], [0, 1]);
    assert [0, 1][1..] == [1] && [1][1..] == [];
    assert FindIn([1], v.addr, 6) == 1;
    assert v.Find(5) == 0 && v.Find(6) == 1;
    assert Without([0, 1], 0) == [1];
    assert v.claimed[..1] == [true] && [true][..0] == [];
    assert FirstFree([true]) == 1;
  }

  // ---- The operations make such runs -----------------------------------------------------

  datatype Op =
    | DoRegister(callback: bool)
    | DoAdd(t: nat, a: Option<LinkAddr>)
    | DoGet(t: nat, a: Option<LinkAddr>)
    | DoRemove(t: nat, item: int)
    | DoLock(t: nat, item: int)
    | DoUnlock(t: nat, item: int)
    | DoUpdate(was: Option<LinkAddr>, now: LinkAddr, remove: bool)

  /** Whether the operation names a table that is registered and an item of it, or the null item. */
  predicate Meant(op: Op, tables: nat, size: nat) {
    match op
    case DoAdd(t, _) => t < tables
    case DoGet(t, _) => t < tables
    case DoRemove(t, item) => t < tables && -1 <= item < size
    case DoLock(t, item) => t < tables && -1 <= item < size
    case DoUnlock(t, item) => t < tables && -1 <= item < size
    case _ => true
  }

  method Perform(nbrs: Neighbors, op: Op) returns (ghost e: Event)
    requires nbrs.Valid()
    modifies nbrs, nbrs.usedMap, nbrs.lockedMap, nbrs.claimed, nbrs.lladdr, nbrs.data
    ensures nbrs.Valid() && old(nbrs.View()).Shaped() && Step(old(nbrs.View()), e, nbrs.View())
  {
    hide Nbrs.Inv, Placed, Added, Unused, Updated, Called, Callbacks, HasBit, NbrModel.Lookup;
    ShapedOf(nbrs.View());
    e := Other;
    if Meant(op, |nbrs.hooks|, nbrs.size) {
      match op
      case DoRegister(callback) =>
        var t := nbrs.Register(callback);
      case DoAdd(t, a) =>
        var index;
        ghost var p;
        index, p := nbrs.AddLladdr(t, a);
        e := Add(t, Address(a), index, p);
      case DoGet(t, a) =>
        var index := nbrs.GetFromLladdr(t, a);
      case DoRemove(t, item) =>
        var ok := nbrs.Remove(t, item);
        e := Remove(t, item);
      case DoLock(t, item) =>
        var ok := nbrs.Lock(t, item);
        e := SetLocks;
      case DoUnlock(t, item) =>
        var ok := nbrs.Unlock(t, item);
        e := SetLocks;
      case DoUpdate(was, now, remove) =>
        var ok := nbrs.UpdateLladdr(was, now, remove);
        e := Update(Address(was), now, remove);
    }
  }

  /** Every sequence of operations on fresh tables is a run. */
  method RunAll(n: nat, ops: seq<Op>) returns (nbrs: Neighbors, ghost vs: seq<Nbrs>, ghost es: seq<Event>)
    ensures nbrs.Valid() && RunOk(vs, es) && |es| == |ops| && vs[|ops|] == nbrs.View()
  {
    hide Nbrs.Inv, Initial, Step;
    nbrs := new Neighbors(n);
    vs, es := [nbrs.View()], [];
    for i := 0 to |ops|
      invariant fresh(nbrs) && fresh(nbrs.usedMap) && fresh(nbrs.lockedMap)
      invariant fresh(nbrs.claimed) && fresh(nbrs.lladdr) && fresh(nbrs.data)
      invariant nbrs.Valid() && |es| == i && |vs| == i + 1 && vs[i] == nbrs.View() && Initial(vs[0])
      invariant forall j :: 0 <= j < i ==> StepAt(vs, es, j)
    {
      ghost var vs0, es0 := vs, es;
      ghost var e := Perform(nbrs, ops[i]);
      vs, es := vs + [nbrs.View()], es + [e];
      forall j | 0 <= j < i + 1 ensures StepAt(vs, es, j) {
        if j < i {
          assert StepAt(vs0, es0, j);
        }
      }
    }
  }
}
