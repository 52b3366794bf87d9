/** The state of the neighbour tables as values: bitmaps, the list of keys, and each table as a map from address to item. */
module NbrModel {
  import opened Bits

  const MAX_NUM_TABLES: nat := 8

  // ---- Bitmaps, one bit per table ----------------------------------------------------

  predicate HasBit(m: nat, t: nat) {
    Bit(m, t) == 1
  }

  /** m | 1 << t. */
  function WithBit(m: u8, t: nat): (r: u8)
    requires t < 8
  {
    BitBound(t);
    BitwiseByte(OrFn, m, Pow2(t));
    Bitwise(OrFn, m, Pow2(t))
  }

  /** m & ~(1 << t). */
  function WithoutBit(m: u8, t: nat): (r: u8)
    requires t < 8
  {
    BitBound(t);
    BitwiseByte(AndFn, m, 255 - Pow2(t));
    Bitwise(AndFn, m, 255 - Pow2(t))
  }

  lemma BitBound(t: nat)
    requires t < 8
    ensures 1 <= Pow2(t) < 256
  {
    Pow2Monotone(t, 7);
    assert Pow2(7) == 128;
  }

  lemma BitwiseByte(fn: BitFn, x: nat, y: nat)
    requires x < 256 && y < 256
    ensures Bitwise(fn, x, y) < 256
  {
    hide Bitwise;
    Pow2At8();
    BitwiseSplit(fn, 8, x, 0, y, 0);
  }

  lemma {:induction false} PowBits(t: nat, u: nat)
    ensures Bit(Pow2(t), u) == if u == t then 1 else 0
    decreases t
  {
    if u == 0 {
      assert Pow2(0) == 1;
    } else if t == 0 {
      OneShort(u);
    } else {
      BitShift(Pow2(t), u);
      PowBits(t - 1, u - 1);
    }
  }

  lemma OneShort(u: nat)
    requires u > 0
    ensures Bit(1, u) == 0
  {
    Pow2Monotone(1, u);
    assert Pow2(1) == 2;
    DivUnique(1, Pow2(u), 0, 1);
  }

  lemma {:induction false} OnesBits(k: nat, u: nat)
    ensures Bit(Pow2(k) - 1, u) == if u < k then 1 else 0
    decreases k
  {
    if k == 0 {
      ZeroBits(u);
    } else if u == 0 {
      assert Pow2(0) == 1;
    } else {
      BitShift(Pow2(k) - 1, u);
      assert (Pow2(k) - 1) / 2 == Pow2(k - 1) - 1;
      OnesBits(k - 1, u - 1);
    }
  }

  lemma ZeroBits(u: nat)
    ensures Bit(0, u) == 0
  {
    DivUnique(0, Pow2(u), 0, 0);
  }

  /** ~(1 << t) in k bits. */
  lemma {:induction false} HoleBits(k: nat, t: nat, u: nat)
    requires t < k
    ensures Pow2(k) - 1 - Pow2(t) >= 0
    ensures Bit(Pow2(k) - 1 - Pow2(t), u) == if u < k && u != t then 1 else 0
    decreases k
  {
    hide Bit, Pow2;
    Pow2Monotone(t, k - 1);
    HoleHalved(k, t);
    var h := Pow2(k) - 1 - Pow2(t);
    if u == 0 {
      LowBit(h);
    } else {
      BitShift(h, u);
      if t == 0 {
        OnesBits(k - 1, u - 1);
      } else {
        HoleBits(k - 1, t - 1, u - 1);
      }
    }
  }

  lemma HoleHalved(k: nat, t: nat)
    requires t < k && Pow2(t) <= Pow2(k - 1)
    ensures
      var h := Pow2(k) - 1 - Pow2(t);
      && h >= 0
      && h / 2 == Pow2(k - 1) - 1 - (if t == 0 then 0 else Pow2(t - 1))
      && h % 2 == if t == 0 then 0 else 1
  {
  }

  lemma BitsOfWith(m: u8, t: nat, u: nat)
    requires t < 8
    ensures HasBit(WithBit(m, t), u) <==> u == t || HasBit(m, u)
  {
    hide Bitwise, Bit;
    PowBits(t, u);
    BitwiseBit(OrFn, m, Pow2(t), u);
    BitIsBinary(m, u);
  }

  lemma BitsOfWithout(m: u8, t: nat, u: nat)
    requires t < 8 && u < 8
    ensures HasBit(WithoutBit(m, t), u) <==> u != t && HasBit(m, u)
  {
    hide Bitwise, Bit;
    Pow2At8();
    HoleBits(8, t, u);
    BitwiseBit(AndFn, m, 255 - Pow2(t), u);
    BitIsBinary(m, u);
  }

  lemma BitIsBinary(m: nat, u: nat)
    ensures Bit(m, u) < 2
  {
  }

  /** The test (m & 1 << t) != 0. */
  lemma {:induction false} TestIsBit(m: nat, t: nat)
    ensures Bitwise(AndFn, m, Pow2(t)) != 0 <==> HasBit(m, t)
    decreases t
  {
    hide Bitwise;
    BitwiseUnfold(AndFn, m, Pow2(t));
    if t == 0 {
      assert Pow2(0) == 1;
      BitwiseZero(AndFn, m / 2);
    } else {
      BitShift(m, t);
      TestIsBit(m / 2, t - 1);
    }
  }

  lemma {:induction false} NoBits(m: nat, k: nat)
    requires m < Pow2(k)
    ensures m == 0 <==> forall u :: 0 <= u < k ==> !HasBit(m, u)
    decreases k
  {
    hide Bit;
    if k == 0 {
      assert Pow2(0) == 1;
    } else {
      NoBits(m / 2, k - 1);
      LowBit(m);
      forall u | 0 < u < k ensures Bit(m, u) == Bit(m / 2, u - 1) {
        BitShift(m, u);
      }
      if m != 0 && m % 2 == 0 {
        var u :| 0 <= u < k - 1 && HasBit(m / 2, u);
        assert HasBit(m, u + 1);
      } else if m != 0 {
        assert HasBit(m, 0);
      }
      ZeroAll(m, k);
    }
  }

  lemma LowBit(m: nat)
    ensures Bit(m, 0) == m % 2
  {
    assert Pow2(0) == 1;
  }

  lemma ZeroAll(m: nat, k: nat)
    ensures m == 0 ==> forall u :: 0 <= u < k ==> !HasBit(m, u)
  {
    forall u | 0 <= u < k ensures Bit(0, u) == 0 {
      ZeroBits(u);
    }
  }

  /** The loop that counts set bits. */
  function Count(m: nat): nat {
    if m == 0 then 0 else m % 2 + Count(m / 2)
  }

  /** The number of tables below k whose bit is set. */
  function UsersBelow(m: nat, k: nat): nat {
    if k == 0 then 0 else UsersBelow(m, k - 1) + Bit(m, k - 1)
  }

  lemma {:induction false} UsersShift(m: nat, k: nat)
    ensures UsersBelow(m, k + 1) == m % 2 + UsersBelow(m / 2, k)
    decreases k
  {
    hide Bit;
    LowBit(m);
    if k > 0 {
      UsersShift(m, k - 1);
      BitShift(m, k);
    }
  }

  lemma {:induction false} CountsUsers(m: nat, k: nat)
    requires m < Pow2(k)
    ensures Count(m) == UsersBelow(m, k)
    decreases k
  {
    hide Bit;
    if k == 0 {
      assert Pow2(0) == 1;
    } else {
      CountsUsers(m / 2, k - 1);
      UsersShift(m, k - 1);
    }
  }

  // ---- The list of keys --------------------------------------------------------------

  type LinkAddr = nat
  type Item = nat

  const LINKADDR_NULL: LinkAddr := 0

  datatype Option<T> = None | Some(value: T)

  predicate Distinct(s: seq<nat>) {
    forall i, j :: 0 <= i < j < |s| ==> s[i] != s[j]
  }

  predicate InRange(s: seq<nat>, n: nat) {
    forall p :: 0 <= p < |s| ==> s[p] < n
  }

  /** list_remove. */
  function Without(s: seq<nat>, k: nat): seq<nat> {
    if s == [] then []
    else if s[0] == k then s[1..]
    else [s[0]] + Without(s[1..], k)
  }

  lemma {:induction false} WithoutIs(s: seq<nat>, k: nat)
    requires Distinct(s)
    ensures Distinct(Without(s, k))
    ensures forall i :: i in Without(s, k) <==> i in s && i != k
    decreases |s|
  {
    if s != [] {
      WithoutIs(s[1..], k);
      assert s == [s[0]] + s[1..];
      assert s[0] !in s[1..];
    }
  }

  // ---- The state ---------------------------------------------------------------------

  /** The static variables of nbr-table.c, with memb's reference counts; keys holds slot numbers, oldest first. */
  datatype Nbrs = Nbrs(claimed: seq<bool>, used: seq<u8>, locked: seq<u8>, addr: seq<LinkAddr>, keys: seq<nat>) {
    predicate Shaped() {
      && |used| == |claimed| && |locked| == |claimed| && |addr| == |claimed|
      && InRange(keys, |claimed|)
    }

    /** Listed keys have different addresses, and what a table uses or memb has not given out is not lost. */
    ghost predicate Inv() {
      && Shaped()
      && Distinct(keys)
      && (forall i, j :: i in keys && j in keys && addr[i] == addr[j] ==> i == j)
      && (forall i :: 0 <= i < |claimed| && used[i] != 0 ==> i in keys)
      && (forall i :: i in keys ==> claimed[i])
    }

    /** index_from_lladdr. */
    function Find(a: LinkAddr): int
      requires Shaped()
    {
      FindIn(keys, addr, a)
    }
  }

  function FindIn(keys: seq<nat>, addr: seq<LinkAddr>, a: LinkAddr): int
    requires InRange(keys, |addr|)
  {
    if keys == [] then -1
    else if addr[keys[0]] == a then keys[0]
    else FindIn(keys[1..], addr, a)
  }

  lemma {:induction false} FoundIn(keys: seq<nat>, addr: seq<LinkAddr>, a: LinkAddr)
    requires InRange(keys, |addr|)
    ensures
      var i := FindIn(keys, addr, a);
      if i == -1 then forall k :: k in keys ==> addr[k] != a else i in keys && addr[i] == a
    decreases |keys|
  {
    if keys != [] {
      FoundIn(keys[1..], addr, a);
      assert keys == [keys[0]] + keys[1..];
    }
  }

  /** Find answers with the slot that has the address, if one is listed. */
  lemma FindIs(v: Nbrs, a: LinkAddr, i: int)
    requires v.Inv()
    requires if i == -1 then forall k :: k in v.keys ==> v.addr[k] != a else 0 <= i && i in v.keys && v.addr[i] == a
    ensures v.Find(a) == i
  {
    FoundIn(v.keys, v.addr, a);
  }

  /** Table t, whose items are row, as a map from address to item. */
  function Lookup(v: Nbrs, row: seq<Item>, t: nat, a: LinkAddr): Option<Item>
    requires v.Shaped() && |row| == |v.claimed|
  {
    FoundIn(v.keys, v.addr, a);
    var i := v.Find(a);
    if i != -1 && HasBit(v.used[i], t) then Some(row[i]) else None
  }

  ghost predicate Initial(v: Nbrs) {
    && v.Shaped() && v.keys == []
    && forall i :: 0 <= i < |v.claimed| ==> !v.claimed[i] && v.used[i] == 0 && v.locked[i] == 0
  }

  lemma InitialInv(v: Nbrs)
    requires Initial(v)
    ensures v.Inv()
  {
  }

  // ---- What the operations do to it --------------------------------------------------

  /** remove_key, apart from the callbacks. */
  function Removed(v: Nbrs, k: nat): Nbrs
    requires k < |v.used|
  {
    v.(used := v.used[k := 0], keys := Without(v.keys, k))
  }

  lemma RemovedInv(v: Nbrs, k: nat)
    requires v.Inv() && k in v.keys
    ensures Removed(v, k).Inv() && k !in Removed(v, k).keys
  {
    WithoutIs(v.keys, k);
    var s := Without(v.keys, k);
    forall p | 0 <= p < |s| ensures s[p] < |v.claimed| {
      assert s[p] in s;
    }
  }

  /** A removed neighbour is gone from every table, and no other neighbour is touched. */
  lemma RemovedLookup(v: Nbrs, row: seq<Item>, k: nat, t: nat, a: LinkAddr)
    requires v.Inv() && k in v.keys && |row| == |v.claimed|
    ensures Removed(v, k).Shaped()
    ensures Lookup(Removed(v, k), row, t, a) == if a == v.addr[k] then None else Lookup(v, row, t, a)
  {
    hide HasBit;
    var w := Removed(v, k);
    WithoutIs(v.keys, k);
    RemovedInv(v, k);
    FoundIn(v.keys, v.addr, a);
    FindIs(w, a, if a == v.addr[k] then -1 else v.Find(a));
  }

  /** Entering a claimed slot that is not listed, for address a. */
  function Entered(v: Nbrs, k: nat, a: LinkAddr): Nbrs
    requires k < |v.addr| && k < |v.claimed|
  {
    v.(claimed := v.claimed[k := true], keys := Without(v.keys, k) + [k], addr := v.addr[k := a])
  }

  lemma {:induction false} WithoutAbsent(s: seq<nat>, k: nat)
    requires k !in s
    ensures Without(s, k) == s
    decreases |s|
  {
    if s != [] {
      WithoutAbsent(s[1..], k);
    }
  }

  lemma EnteredInv(v: Nbrs, k: nat, a: LinkAddr)
    requires v.Inv() && k < |v.claimed| && k !in v.keys && v.Find(a) == -1
    ensures Entered(v, k, a).Inv() && k in Entered(v, k, a).keys
  {
    WithoutAbsent(v.keys, k);
    FoundIn(v.keys, v.addr, a);
    assert k in [k];
  }

  /** A slot entered for a new address is used by no table yet. */
  lemma EnteredLookup(v: Nbrs, row: seq<Item>, k: nat, a: LinkAddr, t: nat, b: LinkAddr)
    requires v.Inv() && k < |v.claimed| && k !in v.keys && v.Find(a) == -1 && |row| == |v.claimed|
    ensures Entered(v, k, a).Shaped()
    ensures Lookup(Entered(v, k, a), row, t, b) == Lookup(v, row, t, b)
  {
    hide HasBit;
    var w := Entered(v, k, a);
    EnteredInv(v, k, a);
    WithoutAbsent(v.keys, k);
    FoundIn(v.keys, v.addr, b);
    FindIs(w, b, if b == a then k else v.Find(b));
    if b == a {
      ZeroHasNoBit(t);
    }
  }

  lemma ZeroHasNoBit(t: nat)
    ensures !HasBit(0, t)
  {
    ZeroBits(t);
  }

  /** Setting or clearing table t's bit of slot k. */
  lemma BitLookup(v: Nbrs, w: Nbrs, row: seq<Item>, row': seq<Item>, k: nat, t: nat, u: nat, b: LinkAddr)
    requires v.Inv() && k in v.keys && |row| == |row'| == |v.claimed|
    requires w.Shaped() && w == v.(used := w.used, locked := w.locked)
    requires forall i :: 0 <= i < |v.used| && i != k ==> w.used[i] == v.used[i]
    requires u != t ==> (HasBit(w.used[k], u) <==> HasBit(v.used[k], u))
    requires forall i :: 0 <= i < |row| && (u != t || i != k) ==> row'[i] == row[i]
    ensures Lookup(w, row', u, b) ==
      if u == t && b == v.addr[k] then (if HasBit(w.used[k], t) then Some(row'[k]) else None)
      else Lookup(v, row, u, b)
  {
    hide HasBit;
    FoundIn(v.keys, v.addr, b);
    if b == v.addr[k] {
      FindIs(v, b, k);
    }
  }

  /** Readdressing a listed slot to an address that is not listed renames one key of every table's map. */
  lemma RenamedLookup(v: Nbrs, row: seq<Item>, k: nat, a: LinkAddr, t: nat, b: LinkAddr)
    requires v.Inv() && k in v.keys && v.Find(a) == -1 && |row| == |v.claimed|
    ensures
      var w := v.(addr := v.addr[k := a]);
      && w.Inv()
      && Lookup(w, row, t, b) ==
        if b == a then Lookup(v, row, t, v.addr[k]) else if b == v.addr[k] then None else Lookup(v, row, t, b)
  {
    hide HasBit;
    var w := v.(addr := v.addr[k := a]);
    FoundIn(v.keys, v.addr, a);
    FoundIn(v.keys, v.addr, b);
    FindIs(v, v.addr[k], k);
    assert w.Inv();
    FindIs(w, b, if b == a then k else if b == v.addr[k] then -1 else v.Find(b));
  }

  // ---- Which neighbour is evicted ----------------------------------------------------

  /** keys[p] is unlocked, and no unlocked key has fewer users, or as few and is older. */
  predicate Victim(v: Nbrs, p: nat)
    requires v.Shaped() && p < |v.keys|
  {
    && v.locked[v.keys[p]] == 0
    && forall q :: 0 <= q < |v.keys| && v.locked[v.keys[q]] == 0 ==>
         Count(v.used[v.keys[p]]) < Count(v.used[v.keys[q]]) ||
         (Count(v.used[v.keys[p]]) == Count(v.used[v.keys[q]]) && p <= q)
  }

  predicate AllLocked(v: Nbrs)
    requires v.Shaped()
  {
    forall q :: 0 <= q < |v.keys| ==> v.locked[v.keys[q]] != 0
  }

  lemma VictimUnique(v: Nbrs, p: nat, q: nat)
    requires v.Shaped() && p < |v.keys| && q < |v.keys| && Victim(v, p) && Victim(v, q)
    ensures p == q
  {
  }

  /** The first slot that memb has not given out, or the number of slots. */
  function FirstFree(claimed: seq<bool>): (i: nat)
    ensures i <= |claimed|
    ensures i < |claimed| ==> !claimed[i]
    ensures forall k :: 0 <= k < i ==> claimed[k]
  {
    if claimed == [] then 0
    else if claimed[|claimed| - 1] then
      (var i := FirstFree(claimed[..|claimed| - 1]); if i == |claimed| - 1 then |claimed| else i)
    else FirstFree(claimed[..|claimed| - 1])
  }

  /** The callbacks that remove_key makes for tables below n, in order. */
  function Callbacks(hooks: seq<bool>, used: nat, k: nat, n: nat): seq<(nat, nat)>
    requires n <= |hooks|
  {
    if n == 0 then []
    else Callbacks(hooks, used, k, n - 1) + (if hooks[n - 1] && HasBit(used, n - 1) then [(n - 1, k)] else [])
  }

  /** Calls for slot k and for tables below n, each table at most once. */
  predicate Ascending(cs: seq<(nat, nat)>, k: nat, n: nat) {
    && (forall i :: 0 <= i < |cs| ==> cs[i].0 < n && cs[i].1 == k)
    && (forall i, j :: 0 <= i < j < |cs| ==> cs[i].0 < cs[j].0)
  }

  /** Every table that has a callback and uses the neighbour is called once, and no other. */
  lemma {:induction false} CallbacksOnce(hooks: seq<bool>, used: nat, k: nat, n: nat, t: nat)
    requires n <= |hooks|
    ensures Ascending(Callbacks(hooks, used, k, n), k, n)
    ensures (t, k) in Callbacks(hooks, used, k, n) <==> t < n && hooks[t] && HasBit(used, t)
    decreases n
  {
    hide HasBit, Ascending;
    if n == 0 {
      NoCalls(k);
    } else {
      CallbacksOnce(hooks, used, k, n - 1, t);
      var cs := Callbacks(hooks, used, k, n - 1);
      assert cs + [] == cs;
      OneMoreCall(cs, k, n - 1);
    }
  }

  lemma NoCalls(k: nat)
    ensures Ascending([], k, 0)
  {
  }

  lemma OneMoreCall(cs: seq<(nat, nat)>, k: nat, n: nat)
    requires Ascending(cs, k, n)
    ensures Ascending(cs, k, n + 1) && Ascending(cs + [(n, k)], k, n + 1)
  {
  }

  // ---- Adding a neighbour ------------------------------------------------------------

  /** What nbr_table_allocate may do: give out the first free slot, fail, or evict the victim at place p. */
  ghost predicate Allocated(v: Nbrs, w: Nbrs, k: int, p: int)
    requires v.Shaped()
  {
    var f := FirstFree(v.claimed);
    if f < |v.claimed| then k == f && p == -1 && w == v.(claimed := v.claimed[f := true])
    else if AllLocked(v) then k == -1 && p == -1 && w == v
    else 0 <= p < |v.keys| && Victim(v, p) && k == v.keys[p] && w == Removed(v, k)
  }

  /** The address that an allocation evicts. */
  function Gone(v: Nbrs, p: int): Option<LinkAddr>
    requires v.Shaped() && p < |v.keys|
  {
    if p < 0 then None else Some(v.addr[v.keys[p]])
  }

  /** The callbacks for the neighbour at place p, one for each table that has one and uses it. */
  function Called(hooks: seq<bool>, v: Nbrs, p: int): seq<(nat, nat)>
    requires v.Shaped() && p < |v.keys|
  {
    if p < 0 then [] else Callbacks(hooks, v.used[v.keys[p]], v.keys[p], |hooks|)
  }

  /** Where nbr_table_add_lladdr puts address a: its own slot, the first free one, or that of the victim at place p;
      it fails exactly when a is new, no slot is free and every neighbour is locked. */
  ghost predicate Placed(v: Nbrs, a: LinkAddr, k: int, p: int)
    requires v.Shaped()
  {
    var f := FirstFree(v.claimed);
    if v.Find(a) != -1 then k == v.Find(a) && p == -1
    else if f < |v.claimed| then k == f && p == -1
    else if AllLocked(v) then k == -1 && p == -1
    else 0 <= p < |v.keys| && Victim(v, p) && k == v.keys[p]
  }

  lemma AllocatedInv(v: Nbrs, w: Nbrs, k: int, p: int, a: LinkAddr)
    requires v.Inv() && Allocated(v, w, k, p) && k != -1 && v.Find(a) == -1
    ensures 0 <= k < |w.claimed| && w.claimed[k] && w.Inv() && k !in w.keys && w.Find(a) == -1
    ensures Entered(w, k, a).Inv() && k in Entered(w, k, a).keys && p < |v.keys|
  {
    hide Victim, AllLocked, FirstFree;
    FoundIn(v.keys, v.addr, a);
    if p != -1 {
      assert k in v.keys;
      RemovedInv(v, k);
      WithoutIs(v.keys, k);
    }
    FindIs(w, a, -1);
    EnteredInv(w, k, a);
  }

  lemma AllocatedLookup(v: Nbrs, w: Nbrs, k: int, p: int, a: LinkAddr, row: seq<Item>, t: nat, b: LinkAddr)
    requires v.Inv() && Allocated(v, w, k, p) && k != -1 && v.Find(a) == -1 && |row| == |v.claimed|
    ensures 0 <= k < |w.claimed| && Entered(w, k, a).Shaped() && p < |v.keys|
    ensures Lookup(Entered(w, k, a), row, t, b) == if Gone(v, p) == Some(b) then None else Lookup(v, row, t, b)
  {
    hide Victim, AllLocked, FirstFree, HasBit, Nbrs.Inv;
    AllocatedInv(v, w, k, p, a);
    EnteredLookup(w, row, k, a, t, b);
    if p != -1 {
      assert k in v.keys;
      RemovedLookup(v, row, k, t, b);
    } else {
      assert v.Shaped() by {
        ShapedOf(v);
      }
    }
  }

  lemma ShapedOf(v: Nbrs)
    requires v.Inv()
    ensures v.Shaped()
  {
  }

  /** Table t's bit of slot k set. */
  function Used(v: Nbrs, k: nat, t: nat): Nbrs
    requires k < |v.used| && t < 8
  {
    v.(used := v.used[k := WithBit(v.used[k], t)])
  }

  lemma UsedInv(w: Nbrs, k: nat, t: nat)
    requires w.Inv() && k in w.keys && t < 8
    ensures k < |w.used| && Used(w, k, t).Inv() && Used(w, k, t).Find(w.addr[k]) == k
  {
    hide WithBit;
    FindIs(Used(w, k, t), w.addr[k], k);
  }

  lemma UsedLookup(w: Nbrs, row: seq<Item>, row': seq<Item>, k: nat, t: nat, u: nat, b: LinkAddr)
    requires w.Inv() && k in w.keys && t < 8 && |row| == |row'| == |w.claimed|
    requires forall i :: 0 <= i < |row| && (u != t || i != k) ==> row'[i] == row[i]
    ensures k < |w.used| && Used(w, k, t).Shaped()
    ensures Lookup(Used(w, k, t), row', u, b) ==
      if u == t && b == w.addr[k] then Some(row'[k]) else Lookup(w, row, u, b)
  {
    hide WithBit, HasBit;
    BitsOfWith(w.used[k], t, u);
    BitLookup(w, Used(w, k, t), row, row', k, t, u, b);
  }

  /** The state after address a is put into slot k for table t, the neighbour at place p being evicted for it. */
  function Added(v: Nbrs, a: LinkAddr, t: nat, k: int, p: int): Nbrs
    requires v.Shaped() && t < 8 && -1 <= k < |v.claimed| && p < |v.keys|
  {
    if k == -1 then v
    else if v.Find(a) != -1 then Used(v, k, t)
    else Used(Entered(if p < 0 then v else Removed(v, v.keys[p]), k, a), k, t)
  }

  /** Where a fresh slot is entered, memb has set its count already. */
  lemma EnteredAllocated(v: Nbrs, w: Nbrs, k: int, p: int, a: LinkAddr)
    requires v.Shaped() && Allocated(v, w, k, p) && 0 <= k < |v.claimed|
    ensures k < |w.claimed| && k < |w.addr| && p < |v.keys|
    ensures Entered(w, k, a) == Entered(if p < 0 then v else Removed(v, v.keys[p]), k, a)
  {
    hide Victim, AllLocked;
  }

  // ---- Removing and renaming ---------------------------------------------------------

  /** Table t's bits of slot k cleared. */
  function Unused(v: Nbrs, k: nat, t: nat): Nbrs
    requires k < |v.used| && k < |v.locked| && t < 8
  {
    v.(used := v.used[k := WithoutBit(v.used[k], t)], locked := v.locked[k := WithoutBit(v.locked[k], t)])
  }

  /** Clearing bits keeps the invariant, also for a slot that is not listed: no table uses that. */
  lemma UnusedInv(v: Nbrs, k: nat, t: nat)
    requires v.Inv() && k < |v.claimed| && t < 8
    ensures k < |v.used| && k < |v.locked|
    ensures Unused(v, k, t).Inv() && !HasBit(Unused(v, k, t).locked[k], t)
  {
    hide WithoutBit, HasBit;
    BitsOfWithout(v.locked[k], t, t);
    if v.used[k] == 0 {
      NothingToClear(t);
    }
  }

  lemma NothingToClear(t: nat)
    requires t < 8
    ensures WithoutBit(0, t) == 0
  {
    BitwiseZero(AndFn, 255 - Pow2(t)) by {
      BitBound(t);
    }
  }

  lemma UnusedLookup(v: Nbrs, row: seq<Item>, k: nat, t: nat, u: nat, b: LinkAddr)
    requires v.Inv() && k < |v.claimed| && t < 8 && u < 8 && |row| == |v.claimed|
    ensures k < |v.used| && k < |v.locked| && k < |v.addr| && Unused(v, k, t).Shaped()
    ensures Lookup(Unused(v, k, t), row, u, b) ==
      if k in v.keys && u == t && b == v.addr[k] then None else Lookup(v, row, u, b)
  {
    hide WithoutBit, HasBit;
    if k in v.keys {
      BitsOfWithout(v.used[k], t, u);
      BitLookup(v, Unused(v, k, t), row, row, k, t, u, b);
    } else {
      NothingToClear(t);
      assert Unused(v, k, t).used == v.used;
    }
  }

  /** The map with key was renamed to now, at b; atWas and atB are its old values there. */
  function Renamed(was: LinkAddr, now: LinkAddr, b: LinkAddr, atWas: Option<Item>, atB: Option<Item>): Option<Item> {
    if b == now then atWas else if b == was then None else atB
  }

  lemma RenamedInv(v: Nbrs, k: nat, a: LinkAddr)
    requires v.Inv() && k in v.keys && v.Find(a) == -1
    ensures v.(addr := v.addr[k := a]).Inv()
  {
    FoundIn(v.keys, v.addr, a);
  }

  lemma SameAddress(v: Nbrs, i: int, j: int)
    requires v.Inv() && i in v.keys && j in v.keys
    ensures i < |v.addr| && j < |v.addr|
    ensures v.addr[i] == v.addr[j] <==> i == j
  {
  }

  /** nbr_table_update_lladdr. */
  function Updated(v: Nbrs, was: LinkAddr, now: LinkAddr, remove: bool): Nbrs
    requires v.Shaped()
  {
    FoundIn(v.keys, v.addr, was);
    var i, j := v.Find(was), v.Find(now);
    if i == -1 || i == j then v
    else if j == -1 then v.(addr := v.addr[i := now])
    else if remove then Removed(v, i)
    else v
  }

  /** The slot that nbr_table_update_lladdr drops as a duplicate, or -1. */
  function Dropped(v: Nbrs, was: LinkAddr, now: LinkAddr, remove: bool): (i: int)
    requires v.Shaped()
    ensures i == -1 || (0 <= i < |v.used| && i in v.keys)
  {
    FoundIn(v.keys, v.addr, was);
    var i, j := v.Find(was), v.Find(now);
    if remove && i != -1 && j != -1 && i != j then i else -1
  }

  /** Claimed, so that memb does not give it out, and not listed, so that it is neither found nor evicted. */
  predicate Leaked(v: Nbrs, k: nat) {
    k < |v.claimed| && v.claimed[k] && k !in v.keys
  }
}
