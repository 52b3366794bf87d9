/** nbr-table.c: neighbour tables that share one list of link-layer addresses. */
module NbrTable {
  import opened Bits
  import opened NbrModel

  class Neighbors {
    const size: nat
    const usedMap: array<u8>
    const lockedMap: array<u8>
    const claimed: array<bool>
    const lladdr: array<LinkAddr>
    var keys: seq<nat>
    /** For each registered table whether it has a callback; and the calls made, as (table, slot). */
    var hooks: seq<bool>
    var calls: seq<(nat, nat)>
    /** Row t holds the items of table t. */
    const data: array2<Item>

    ghost function View(): Nbrs
      reads this, usedMap, lockedMap, claimed, lladdr
    {
      Nbrs(claimed[..], usedMap[..], lockedMap[..], lladdr[..], keys)
    }

    /** The arrays are there and separate. */
    ghost predicate Shaped()
      reads this
    {
      && usedMap.Length == size && lockedMap.Length == size && claimed.Length == size && lladdr.Length == size
      && data.Length0 == MAX_NUM_TABLES && data.Length1 == size
      && usedMap != lockedMap
      && |hooks| <= MAX_NUM_TABLES
    }

    ghost predicate Valid()
      reads this, usedMap, lockedMap, claimed, lladdr
    {
      Shaped() && View().Inv()
    }

    ghost function Row(t: nat): (r: seq<Item>)
      requires t < data.Length0
      reads data
      ensures |r| == data.Length1
    {
      seq(data.Length1, i requires 0 <= i < data.Length1 reads data => data[t, i])
    }

    /** Table t as a map from address to item. */
    ghost function Lookup(t: nat, a: LinkAddr): Option<Item>
      requires Valid() && t < MAX_NUM_TABLES
      reads this, usedMap, lockedMap, claimed, lladdr, data
    {
      NbrModel.Lookup(View(), Row(t), t, a)
    }

    constructor (n: nat)
      ensures Valid() && size == n && hooks == [] && calls == [] && Initial(View())
      ensures forall u: nat, b: LinkAddr :: u < MAX_NUM_TABLES ==> Lookup(u, b) == None
      ensures fresh(usedMap) && fresh(lockedMap) && fresh(claimed) && fresh(lladdr) && fresh(data)
    {
      size := n;
      usedMap := new u8[n](i => 0);
      lockedMap := new u8[n](i => 0);
      claimed := new bool[n](i => false);
      lladdr := new LinkAddr[n](i => 0);
      data := new Item[MAX_NUM_TABLES, n]((t, i) => 0);
      keys, hooks, calls := [], [], [];
    }

    /** nbr_table_register: the new table's index, or -1. */
    method Register(callback: bool) returns (t: int)
      requires Valid()
      modifies `hooks
      ensures Valid()
      ensures if |old(hooks)| < 8 then t == |old(hooks)| && hooks == old(hooks) + [callback]
              else t == -1 && hooks == old(hooks)
    {
      if |hooks| < MAX_NUM_TABLES {
        t := |hooks|;
        hooks := hooks + [callback];
      } else {
        t := -1;
      }
    }

    method IndexFromLladdr(a: Option<LinkAddr>) returns (index: int)
      requires Valid()
      ensures index == View().Find(match a case None => LINKADDR_NULL case Some(addr) => addr)
      ensures index != -1 ==> 0 <= index < size && index in keys && lladdr[index] == Address(a)
    {
      hide Nbrs.Inv;
      assert View().Shaped() by {
        ShapedOf(View());
      }
      var addr := Address(a);
      FoundIn(keys, lladdr[..], addr);
      assert keys[0..] == keys;
      for p := 0 to |keys|
        invariant FindIn(keys, lladdr[..], addr) == FindIn(keys[p..], lladdr[..], addr)
      {
        if lladdr[keys[p]] == addr {
          return keys[p];
        }
        assert keys[p..][1..] == keys[p + 1..];
      }
      index := -1;
    }

    /** memb_alloc. */
    method MembAlloc() returns (k: int)
      requires Shaped()
      modifies claimed
      ensures
        var f := FirstFree(old(claimed[..]));
        if f < size then k == f && claimed[..] == old(claimed[..])[f := true]
        else k == -1 && claimed[..] == old(claimed[..])
    {
      ghost var s := claimed[..];
      for i := 0 to size
        invariant claimed[..] == s && forall j :: 0 <= j < i ==> s[j]
      {
        if !claimed[i] {
          claimed[i] := true;
          return i;
        }
      }
      k := -1;
    }

    method RemoveKey(k: nat)
      requires Valid() && k in keys
      modifies this, usedMap
      ensures Valid() && hooks == old(hooks) && View() == Removed(old(View()), k)
      ensures calls == old(calls) + Callbacks(hooks, old(usedMap[k]), k, |hooks|)
    {
      hide HasBit, Nbrs.Inv;
      ghost var v, c := View(), calls;
      assert k < size && Removed(v, k).Inv() by {
        RemovedAt(v, k);
      }
      for i := 0 to MAX_NUM_TABLES
        invariant Shaped() && keys == v.keys && hooks == old(hooks) && usedMap[..] == v.used
        invariant calls == c + Callbacks(hooks, v.used[k], k, if i < |hooks| then i else |hooks|)
      {
        if i < |hooks| && hooks[i] {
          TestIsBit(usedMap[k], i);
          if Bitwise(AndFn, usedMap[k], Pow2(i)) != 0 {
            calls := calls + [(i, k)];
          }
        }
      }
      usedMap[k] := 0;
      keys := Without(keys, k);
      assert View() == Removed(v, k);
    }

    method CountUsers(used: u8) returns (usedCount: nat)
      ensures usedCount == Count(used)
    {
      var rest := used;
      usedCount := 0;
      while rest != 0
        invariant 0 <= rest && usedCount + Count(rest) == Count(used)
        decreases rest
      {
        if rest % 2 == 1 {
          usedCount := usedCount + 1;
        }
        rest := rest / 2;
      }
    }

    /** The replacement policy; p is the victim's place in the list. */
    method FindVictim() returns (p: int)
      requires Valid()
      ensures if AllLocked(View()) then p == -1 else 0 <= p < |keys| && Victim(View(), p)
    {
      hide Count;
      ghost var v := View();
      p := -1;
      var leastUsedCount := 0;
      for q := 0 to |keys|
        invariant p == -1 ==> forall r :: 0 <= r < q ==> v.locked[v.keys[r]] != 0
        invariant p != -1 ==>
          && 0 <= p < q && v.locked[v.keys[p]] == 0 && leastUsedCount == Count(v.used[v.keys[p]])
          && forall r :: 0 <= r < q && v.locked[v.keys[r]] == 0 ==>
               leastUsedCount < Count(v.used[v.keys[r]]) || (leastUsedCount == Count(v.used[v.keys[r]]) && p <= r)
      {
        var index := keys[q];
        if lockedMap[index] == 0 {
          var usedCount := CountUsers(usedMap[index]);
          if p == -1 || usedCount < leastUsedCount {
            p := q;
            leastUsedCount := usedCount;
            if usedCount == 0 {
              break;
            }
          }
        }
      }
    }

    /** A slot for a new neighbour, or -1; p is the evicted neighbour's place in the list, if one had to go. */
    method Allocate() returns (k: int, ghost p: int)
      requires Valid()
      modifies this, usedMap, claimed
      ensures Shaped() && hooks == old(hooks)
      ensures Allocated(old(View()), View(), k, p)
      ensures p < |old(keys)| && calls == old(calls) + Called(hooks, old(View()), p)
    {
      hide Nbrs.Inv, Victim, AllLocked, HasBit;
      ghost var v := View();
      ShapedOf(v);
      k := MembAlloc();
      p := -1;
      if k == -1 {
        var q := FindVictim();
        if q != -1 {
          assert keys[q] in keys;
          k := keys[q];
          p := q;
          RemoveKey(k);
        }
      }
    }

    /** nbr_table_add_lladdr for table t: the slot of the item, or -1; p is the place of the neighbour evicted for it, or -1. */
    method AddLladdr(t: nat, a: Option<LinkAddr>) returns (index: int, ghost p: int)
      requires Valid() && t < |hooks|
      modifies this, usedMap, claimed, lladdr, data
      ensures Valid() && hooks == old(hooks)
      ensures Placed(old(View()), Address(a), index, p)
      ensures -1 <= index < size && p < |old(keys)|
      ensures View() == Added(old(View()), Address(a), t, index, p)
      ensures index != -1 ==> index == View().Find(Address(a))
      ensures forall u: nat, b: LinkAddr :: u < MAX_NUM_TABLES ==>
        Lookup(u, b) ==
          if index != -1 && u == t && b == Address(a) then Some(0)
          else if Gone(old(View()), p) == Some(b) then None
          else old(Lookup(u, b))
      ensures calls == old(calls) + Called(hooks, old(View()), p)
    {
      hide Nbrs.Inv, Nbrs.Find, Victim, AllLocked, HasBit, NbrModel.Lookup, Callbacks, WithBit, Bitwise;
      ghost var v := View();
      ShapedOf(v);
      p := -1;
      var addr := Address(a);
      index := IndexFromLladdr(a);
      ghost var w := v;
      if index == -1 {
        var k: int;
        k, p := Allocate();
        if k == -1 {
          return;
        }
        AllocatedInv(v, View(), k, p, addr);
        EnteredAllocated(v, View(), k, p, addr);
        w := Entered(View(), k, addr);
        ShapedOf(w);
        forall u: nat, b: LinkAddr | u < MAX_NUM_TABLES
          ensures NbrModel.Lookup(w, Row(u), u, b) == if Gone(v, p) == Some(b) then None else NbrModel.Lookup(v, Row(u), u, b)
        {
          AllocatedLookup(v, View(), k, p, addr, Row(u), u, b);
        }
        keys := Without(keys, k) + [k];
        index := k;
        lladdr[k] := addr;
        assert View() == w;
      }
      label Entry:
      data[t, index] := 0;
      usedMap[index] := WithBit(usedMap[index], t);
      UsedInv(w, index, t);
      assert View() == Used(w, index, t);
      forall u: nat, b: LinkAddr | u < MAX_NUM_TABLES
        ensures NbrModel.Lookup(View(), Row(u), u, b) ==
          if u == t && b == addr then Some(0) else old@Entry(NbrModel.Lookup(w, Row(u), u, b))
      {
        UsedLookup(w, old@Entry(Row(u)), Row(u), index, t, u, b);
      }
    }

    /** nbr_table_get_from_lladdr: the slot of table t's item for a, or -1. */
    method GetFromLladdr(t: nat, a: Option<LinkAddr>) returns (index: int)
      requires Valid() && t < MAX_NUM_TABLES
      ensures match Lookup(t, Address(a))
        case None => index == -1
        case Some(item) => 0 <= index < size && data[t, index] == item && lladdr[index] == Address(a)
    {
      index := IndexFromLladdr(a);
      if index != -1 {
        TestIsBit(usedMap[index], t);
        if Bitwise(AndFn, usedMap[index], Pow2(t)) == 0 {
          index := -1;
        }
      }
    }

    /** nbr_table_remove; item is a slot, or -1 for a null item. */
    method Remove(t: nat, item: int) returns (ok: bool)
      requires Valid() && t < MAX_NUM_TABLES && -1 <= item < size
      modifies usedMap, lockedMap
      ensures Valid() && ok == (item != -1)
      ensures View() == if item == -1 then old(View()) else Unused(old(View()), item, t)
      ensures item != -1 ==> !HasBit(lockedMap[item], t)
      ensures forall u: nat, b: LinkAddr :: u < MAX_NUM_TABLES ==>
        Lookup(u, b) == if item in keys && u == t && b == lladdr[item] then None else old(Lookup(u, b))
    {
      hide Nbrs.Inv, HasBit, NbrModel.Lookup, WithoutBit;
      ghost var v := View();
      ShapedOf(v);
      if item == -1 {
        return false;
      }
      UnusedInv(v, item, t);
      ShapedOf(Unused(v, item, t));
      usedMap[item] := WithoutBit(usedMap[item], t);
      lockedMap[item] := WithoutBit(lockedMap[item], t);
      assert View() == Unused(v, item, t);
      forall u: nat, b: LinkAddr | u < MAX_NUM_TABLES
        ensures NbrModel.Lookup(View(), Row(u), u, b) ==
          if item in keys && u == t && b == v.addr[item] then None else NbrModel.Lookup(v, Row(u), u, b)
      {
        UnusedLookup(v, Row(u), item, t, u, b);
      }
      ok := true;
    }

    /** nbr_table_lock. */
    method Lock(t: nat, item: int) returns (ok: bool)
      requires Valid() && t < MAX_NUM_TABLES && -1 <= item < size
      modifies lockedMap
      ensures Valid() && ok == (item != -1)
      ensures View() == old(View()).(locked := lockedMap[..])
      ensures forall u: nat, i :: u < MAX_NUM_TABLES && 0 <= i < size ==>
        (HasBit(lockedMap[i], u) <==> (u == t && i == item) || old(HasBit(lockedMap[i], u)))
    {
      hide HasBit, WithBit;
      if item == -1 {
        return false;
      }
      forall u: nat | u < MAX_NUM_TABLES
        ensures HasBit(WithBit(lockedMap[item], t), u) <==> u == t || HasBit(lockedMap[item], u)
      {
        BitsOfWith(lockedMap[item], t, u);
      }
      lockedMap[item] := WithBit(lockedMap[item], t);
      ok := true;
    }

    /** nbr_table_unlock. */
    method Unlock(t: nat, item: int) returns (ok: bool)
      requires Valid() && t < MAX_NUM_TABLES && -1 <= item < size
      modifies lockedMap
      ensures Valid() && ok == (item != -1)
      ensures View() == old(View()).(locked := lockedMap[..])
      ensures forall u: nat, i :: u < MAX_NUM_TABLES && 0 <= i < size ==>
        (HasBit(lockedMap[i], u) <==> !(u == t && i == item) && old(HasBit(lockedMap[i], u)))
    {
      hide HasBit, WithoutBit;
      if item == -1 {
        return false;
      }
      forall u: nat | u < MAX_NUM_TABLES
        ensures HasBit(WithoutBit(lockedMap[item], t), u) <==> u != t && HasBit(lockedMap[item], u)
      {
        BitsOfWithout(lockedMap[item], t, u);
      }
      lockedMap[item] := WithoutBit(lockedMap[item], t);
      ok := true;
    }

    /** nbr_table_update_lladdr. Renames a neighbour unless the new address is taken, in which case the neighbour
        is dropped on request; its slot then stays claimed although no key lists it. */
    method UpdateLladdr(oldAddr: Option<LinkAddr>, newAddr: LinkAddr, removeIfDuplicate: bool) returns (ok: bool)
      requires Valid()
      modifies this, usedMap, lladdr
      ensures Valid() && hooks == old(hooks)
      ensures View() == Updated(old(View()), Address(oldAddr), newAddr, removeIfDuplicate)
      ensures
        var i := Dropped(old(View()), Address(oldAddr), newAddr, removeIfDuplicate);
        calls == old(calls) + if i == -1 then [] else Callbacks(hooks, old(usedMap[..])[i], i, |hooks|)
      ensures
        var was := Address(oldAddr);
        var known, taken := old(View()).Find(was) != -1, old(View()).Find(newAddr) != -1;
        && ok == (known && (!taken || newAddr == was))
        && forall u: nat, b: LinkAddr :: u < MAX_NUM_TABLES ==>
          Lookup(u, b) ==
            if ok then Renamed(was, newAddr, b, old(Lookup(u, was)), old(Lookup(u, b)))
            else if known && removeIfDuplicate && b == was then None
            else old(Lookup(u, b))
    {
      hide Nbrs.Inv, Nbrs.Find, HasBit, NbrModel.Lookup, Callbacks;
      ghost var v := View();
      ShapedOf(v);
      var index := IndexFromLladdr(oldAddr);
      if index == -1 {
        return false;
      }
      var newIndex := IndexFromLladdr(Some(newAddr));
      if newIndex != -1 {
        SameAddress(v, index, newIndex);
        if newIndex == index {
          return true;
        }
        if removeIfDuplicate {
          RemoveKey(index);
          ShapedOf(View());
          forall u: nat, b: LinkAddr | u < MAX_NUM_TABLES
            ensures NbrModel.Lookup(View(), Row(u), u, b) ==
              if b == v.addr[index] then None else NbrModel.Lookup(v, Row(u), u, b)
          {
            RemovedLookup(v, Row(u), index, u, b);
          }
        }
        return false;
      }
      RenamedInv(v, index, newAddr);
      ShapedOf(v.(addr := v.addr[index := newAddr]));
      lladdr[index] := newAddr;
      assert View() == v.(addr := v.addr[index := newAddr]);
      forall u: nat, b: LinkAddr | u < MAX_NUM_TABLES
        ensures NbrModel.Lookup(View(), Row(u), u, b) ==
          if b == newAddr then NbrModel.Lookup(v, Row(u), u, v.addr[index])
          else if b == v.addr[index] then None else NbrModel.Lookup(v, Row(u), u, b)
      {
        RenamedLookup(v, Row(u), index, newAddr, u, b);
      }
      ok := true;
    }
  }

  /** No address stands for the null one. */
  function Address(a: Option<LinkAddr>): LinkAddr {
    if a.None? then LINKADDR_NULL else a.value
  }

  lemma RemovedAt(v: Nbrs, k: nat)
    requires v.Inv() && k in v.keys
    ensures k < |v.used| && Removed(v, k).Inv()
  {
    RemovedInv(v, k);
  }
}
