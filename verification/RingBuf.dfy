/** ringbuf.c: a byte ring with one producer and one consumer, whose indices are masked to a power of two. */
module RingBuf {
  import opened Bits

  // ---- Masked index arithmetic -------------------------------------------------------

  /** C's & of a 32-bit int, in two's complement, with a mask that is not negative. */
  function AndInt(x: int, mask: nat): nat {
    Bitwise(AndFn, x % B32, mask)
  }

  /** The sizes that ringbuf_init is meant for. */
  ghost predicate PowerSize(size: nat) {
    exists k: nat :: k <= 7 && size == Pow2(k)
  }

  lemma SizeBounds(size: nat)
    requires PowerSize(size)
    ensures 1 <= size <= 128
  {
    var k: nat :| k <= 7 && size == Pow2(k);
    Pow2Monotone(k, 7);
    assert Pow2(7) == 128;
  }

  /** Masking is reduction modulo the size, also of a negative difference. */
  lemma MaskIsMod(x: int, size: nat)
    requires PowerSize(size)
    ensures size >= 1 && AndInt(x, size - 1) == x % size
  {
    hide Bitwise;
    var k: nat :| k <= 7 && size == Pow2(k);
    AndMask(x % B32, k);
    Pow2At32();
    Pow2Add(k, 32 - k);
    ModOfMod(x, size, Pow2(32 - k));
  }

  lemma ModOfMod(x: int, d: nat, m: nat)
    requires d > 0 && m > 0
    ensures d * m > 0 && x % (d * m) % d == x % d
  {
    MulAtLeast(d, m);
    var w := d * m;
    var q, r := x / w, x % w;
    var p, t := r / d, r % d;
    assert r == d * p + t;
    assert x == d * (m * q + p) + t by {
      assert d * (m * q + p) == d * (m * q) + d * p;
      assert w * q == d * (m * q) by {
        MulAssoc(d, m, q);
      }
    }
    DivUnique(x, d, m * q + p, t);
  }

  /** The distance between two counters, from their remainders. */
  lemma GapOfCounters(a: nat, b: nat, size: nat)
    requires size > 0 && b <= a && a - b < size
    ensures (a % size - b % size) % size == a - b
  {
    var p, q := a / size, b / size;
    assert a == size * p + a % size && b == size * q + b % size;
    assert a % size - b % size == size * (q - p) + (a - b) by {
      assert size * (q - p) == size * q - size * p;
    }
    DivUnique(a % size - b % size, size, q - p, a - b);
  }

  lemma NextOfCounter(a: nat, size: nat)
    requires size > 0
    ensures (a % size + 1) % size == (a + 1) % size
  {
    var p := a / size;
    var x := a % size + 1;
    var q, r := x / size, x % size;
    assert a + 1 == size * (p + q) + r by {
      assert a == size * p + a % size;
      assert x == size * q + r;
      assert size * (p + q) == size * p + size * q;
    }
    DivUnique(a + 1, size, p + q, r);
  }

  /** Counters less than size apart that fall on the same slot are equal. */
  lemma SlotsDiffer(a: nat, b: nat, size: nat)
    requires size > 0 && b < a && a - b < size
    ensures a % size != b % size
  {
    GapOfCounters(a, b, size);
    if a % size == b % size {
      DivUnique(0, size, 0, 0);
    }
  }

  // ---- The two calls as steps --------------------------------------------------------

  /** Where ringbuf_put stands between two accesses to shared memory; p is its copy of put_ptr. */
  datatype Producer = Outside | Loaded(c: u8, p: u8) | Admitted(c: u8) | Stored(c: u8)

  /** Where ringbuf_get stands; q is its copy of put_ptr, seen the number of bytes sent when it was taken. */
  datatype Consumer = Away | Looked(q: u8, seen: nat) | Granted | Fetched(c: u8)

  datatype State = State(
    data: seq<u8>, putPtr: u8, getPtr: u8,
    producer: Producer, consumer: Consumer,
    sent: seq<u8>, received: seq<u8>)
  {
    function Size(): nat { |data| }
    function Mask(): int { |data| - 1 }
  }

  /** sent and received are the history: bytes whose put, respectively get, has moved its index. */
  function Initial(data: seq<u8>): State {
    State(data, 0, 0, Outside, Away, [], [])
  }

  /** One access to shared memory by one of the two calls. */
  datatype Step =
    | PutReadsPut(c: u8) | PutReadsGet | PutWritesData | PutWritesPut
    | GetReadsPut | GetReadsGet | GetReadsData | GetWritesGet

  predicate Enabled(s: State, step: Step) {
    match step
    case PutReadsPut(_) => s.producer.Outside?
    case PutReadsGet => s.producer.Loaded?
    case PutWritesData => s.producer.Admitted?
    case PutWritesPut => s.producer.Stored?
    case GetReadsPut => s.consumer.Away?
    case GetReadsGet => s.consumer.Looked?
    case GetReadsData => s.consumer.Granted?
    case GetWritesGet => s.consumer.Fetched?
  }

  /** The put that is at its test refuses its byte. */
  predicate Refuses(s: State)
    requires s.producer.Loaded? && s.Size() > 0
  {
    AndInt(s.producer.p - s.getPtr, s.Mask()) == s.Mask()
  }

  /** The get that is at its test finds nothing. */
  predicate FindsNothing(s: State)
    requires s.consumer.Looked? && s.Size() > 0
  {
    AndInt(s.consumer.q - s.getPtr, s.Mask()) == 0
  }

  function Advanced(ptr: u8, mask: nat): nat {
    AndInt(ptr + 1, mask)
  }

  /** The indices lie inside the ring and stay there. */
  predicate Defined(s: State) {
    && 0 < s.Size() <= 128 && s.putPtr < s.Size() && s.getPtr < s.Size()
    && Advanced(s.putPtr, s.Mask()) < s.Size() && Advanced(s.getPtr, s.Mask()) < s.Size()
  }

  function Apply(s: State, step: Step): State
    requires Enabled(s, step) && Defined(s)
  {
    match step
    case PutReadsPut(c) => s.(producer := Loaded(c, s.putPtr))
    case PutReadsGet => s.(producer := if Refuses(s) then Outside else Admitted(s.producer.c))
    case PutWritesData => s.(data := s.data[s.putPtr := s.producer.c], producer := Stored(s.producer.c))
    case PutWritesPut =>
      s.(putPtr := Advanced(s.putPtr, s.Mask()), producer := Outside, sent := s.sent + [s.producer.c])
    case GetReadsPut => s.(consumer := Looked(s.putPtr, |s.sent|))
    case GetReadsGet => s.(consumer := if FindsNothing(s) then Away else Granted)
    case GetReadsData => s.(consumer := Fetched(s.data[s.getPtr]))
    case GetWritesGet =>
      s.(getPtr := Advanced(s.getPtr, s.Mask()), consumer := Away, received := s.received + [s.consumer.c])
  }

  /** The slot of byte i of the stream. */
  function Slot(i: nat, size: nat): (k: nat)
    requires size > 0
    ensures k < size
  {
    i % size
  }

  /** Byte i of the stream lies in its slot. */
  predicate InPlace(s: State, i: nat)
    requires i < |s.sent| && s.Size() > 0
  {
    s.data[Slot(i, s.Size())] == s.sent[i]
  }

  /** How many bytes are in the ring. */
  function Held(s: State): int {
    |s.sent| - |s.received|
  }

  ghost predicate Inv(s: State) {
    && PowerSize(s.Size()) && s.Size() > 0
    && s.received <= s.sent
    && Held(s) < s.Size()
    && s.putPtr == Slot(|s.sent|, s.Size())
    && s.getPtr == Slot(|s.received|, s.Size())
    && (forall i :: |s.received| <= i < |s.sent| ==> InPlace(s, i))
    && ProducerInv(s) && ConsumerInv(s)
  }

  ghost predicate ProducerInv(s: State)
    requires s.Size() > 0
  {
    match s.producer
    case Outside => true
    case Loaded(_, p) => p == s.putPtr
    case Admitted(_) => Held(s) < s.Size() - 1
    case Stored(c) => Held(s) < s.Size() - 1 && s.data[Slot(|s.sent|, s.Size())] == c
  }

  /** A get's copy of put_ptr may be old. */
  ghost predicate ConsumerInv(s: State)
    requires s.Size() > 0
  {
    match s.consumer
    case Away => true
    case Looked(q, seen) => |s.received| <= seen <= |s.sent| && q == Slot(seen, s.Size())
    case Granted => Held(s) > 0
    case Fetched(c) => Held(s) > 0 && c == s.sent[|s.received|]
  }

  lemma InitialInv(data: seq<u8>)
    requires PowerSize(|data|)
    ensures Inv(Initial(data))
  {
    SizeBounds(|data|);
    DivUnique(0, |data|, 0, 0);
  }

  /** The indices stay inside the ring, so every step is defined. */
  lemma StepDefined(s: State)
    requires Inv(s)
    ensures Defined(s)
    ensures Advanced(s.putPtr, s.Mask()) == Slot(|s.sent| + 1, s.Size())
    ensures Advanced(s.getPtr, s.Mask()) == Slot(|s.received| + 1, s.Size())
  {
    hide AndInt;
    SizeBounds(s.Size());
    MaskIsMod(s.putPtr + 1, s.Size());
    MaskIsMod(s.getPtr + 1, s.Size());
    NextOfCounter(|s.sent|, s.Size());
    NextOfCounter(|s.received|, s.Size());
  }

  /** A put refuses its byte exactly when size - 1 bytes are in the ring. */
  lemma RefusesIffFull(s: State)
    requires Inv(s) && s.producer.Loaded?
    ensures Refuses(s) <==> Held(s) == s.Size() - 1
  {
    hide AndInt;
    MaskIsMod(s.producer.p - s.getPtr, s.Size());
    GapOfCounters(|s.sent|, |s.received|, s.Size());
  }

  /** A get returns -1 exactly when it looked at put_ptr while the ring was empty. */
  lemma NothingIffEmpty(s: State)
    requires Inv(s) && s.consumer.Looked?
    ensures FindsNothing(s) <==> s.consumer.seen == |s.received|
  {
    hide AndInt;
    MaskIsMod(s.consumer.q - s.getPtr, s.Size());
    GapOfCounters(s.consumer.seen, |s.received|, s.Size());
  }

  /** A put never writes the slot of a byte that has still to be got. */
  lemma WriteMissesHeld(s: State, c: u8)
    requires Inv(s) && s.producer == Admitted(c)
    ensures s.putPtr < s.Size()
    ensures forall i :: |s.received| <= i < |s.sent| ==> Slot(i, s.Size()) != s.putPtr
  {
    forall i | |s.received| <= i < |s.sent| ensures Slot(i, s.Size()) != s.putPtr {
      SlotsDiffer(|s.sent|, i, s.Size());
    }
  }

  lemma PutReadsKeep(s: State, step: Step)
    requires Inv(s) && Enabled(s, step) && (step.PutReadsPut? || step.PutReadsGet?)
    ensures Defined(s) && Inv(Apply(s, step))
  {
    hide AndInt, PowerSize, Advanced, Refuses, Slot, ConsumerInv;
    StepDefined(s);
    if step.PutReadsGet? {
      RefusesIffFull(s);
    }
    var t := Apply(s, step);
    SameRing(s, t);
  }

  lemma PutWritesDataKeeps(s: State)
    requires Inv(s) && s.producer.Admitted?
    ensures Defined(s) && Inv(Apply(s, PutWritesData))
  {
    hide AndInt, PowerSize, Advanced, Slot;
    StepDefined(s);
    WriteMissesHeld(s, s.producer.c);
    var t := Apply(s, PutWritesData);
    forall i | |t.received| <= i < |t.sent| ensures InPlace(t, i) {
      assert InPlace(s, i);
    }
  }

  lemma PutWritesPutKeeps(s: State)
    requires Inv(s) && s.producer.Stored?
    ensures Defined(s) && Inv(Apply(s, PutWritesPut))
  {
    hide AndInt, PowerSize, Advanced, Slot;
    StepDefined(s);
    var t := Apply(s, PutWritesPut);
    forall i | |t.received| <= i < |t.sent| ensures InPlace(t, i) {
      if i < |s.sent| {
        assert InPlace(s, i);
      }
    }
  }

  lemma GetReadsKeep(s: State, step: Step)
    requires Inv(s) && Enabled(s, step) && (step.GetReadsPut? || step.GetReadsGet? || step.GetReadsData?)
    ensures Defined(s) && Inv(Apply(s, step))
  {
    hide AndInt, PowerSize, Advanced, FindsNothing, Slot, ProducerInv;
    StepDefined(s);
    if step.GetReadsGet? {
      NothingIffEmpty(s);
    } else if step.GetReadsData? {
      assert InPlace(s, |s.received|);
    }
    SameRing(s, Apply(s, step));
  }

  lemma GetWritesGetKeeps(s: State)
    requires Inv(s) && s.consumer.Fetched?
    ensures Defined(s) && Inv(Apply(s, GetWritesGet))
  {
    hide AndInt, PowerSize, Advanced, Slot;
    StepDefined(s);
    var t := Apply(s, GetWritesGet);
    forall i | |t.received| <= i < |t.sent| ensures InPlace(t, i) {
      assert InPlace(s, i);
    }
  }

  /** A call's move alone leaves the ring and the other call as they are. */
  lemma SameRing(s: State, t: State)
    requires Inv(s) && t.data == s.data && t.sent == s.sent && t.received == s.received
    requires t.putPtr == s.putPtr && t.getPtr == s.getPtr
    ensures t.producer == s.producer ==> ProducerInv(t)
    ensures t.consumer == s.consumer ==> ConsumerInv(t)
    ensures forall i :: |t.received| <= i < |t.sent| ==> InPlace(t, i)
  {
    hide Slot, PowerSize;
    forall i | |t.received| <= i < |t.sent| ensures InPlace(t, i) {
      assert InPlace(s, i);
    }
  }

  lemma StepKeepsInv(s: State, step: Step)
    requires Inv(s) && Enabled(s, step)
    ensures Defined(s) && Inv(Apply(s, step))
  {
    hide Inv, Defined, Apply;
    match step
    case PutReadsPut(_) => PutReadsKeep(s, step);
    case PutReadsGet => PutReadsKeep(s, step);
    case PutWritesData => PutWritesDataKeeps(s);
    case PutWritesPut => PutWritesPutKeeps(s);
    case GetWritesGet => GetWritesGetKeeps(s);
    case _ => GetReadsKeep(s, step);
  }

  // ---- All interleavings -------------------------------------------------------------

  /** Runs the steps in order; a step that its call is not ready for does not happen. */
  function Run(s: State, steps: seq<Step>): (r: State)
    requires Inv(s)
    ensures Inv(r)
    decreases |steps|
  {
    if steps == [] then s
    else if !Enabled(s, steps[0]) then Run(s, steps[1..])
    else
      StepKeepsInv(s, steps[0]);
      Run(Apply(s, steps[0]), steps[1..])
  }

  /** Whatever the interleaving: bytes come out as they went in, none lost or repeated, at most size - 1 are held. */
  lemma FirstInFirstOut(data: seq<u8>, steps: seq<Step>)
    requires PowerSize(|data|)
    ensures Inv(Initial(data))
    ensures
      var s := Run(Initial(data), steps);
      && s.received <= s.sent
      && |s.sent| - |s.received| <= |data| - 1
      && |s.data| == |data|
  {
    InitialInv(data);
    SizeKept(Initial(data), steps);
  }

  lemma {:induction false} SizeKept(s: State, steps: seq<Step>)
    requires Inv(s)
    ensures Run(s, steps).Size() == s.Size()
    decreases |steps|
  {
    hide Inv, AndInt, PowerSize, Advanced, Refuses, FindsNothing;
    if steps != [] {
      if Enabled(s, steps[0]) {
        StepKeepsInv(s, steps[0]);
        SizeKept(Apply(s, steps[0]), steps[1..]);
      } else {
        SizeKept(s, steps[1..]);
      }
    }
  }

  // ---- The calls, undisturbed --------------------------------------------------------

  const PUT: seq<Step> := [PutReadsGet, PutWritesData, PutWritesPut]
  const GET: seq<Step> := [GetReadsPut, GetReadsGet, GetReadsData, GetWritesGet]

  /** A put all of whose steps are taken in a row. */
  function PutAlone(s: State, c: u8): State
    requires Inv(s)
  {
    Run(s, [PutReadsPut(c)] + PUT)
  }

  function GetAlone(s: State): State
    requires Inv(s)
  {
    Run(s, GET)
  }

  lemma RunOne(s: State, steps: seq<Step>)
    requires Inv(s) && steps != []
    ensures Enabled(s, steps[0]) ==> Defined(s) && Inv(Apply(s, steps[0]))
    ensures Run(s, steps) == if Enabled(s, steps[0]) then Run(Apply(s, steps[0]), steps[1..]) else Run(s, steps[1..])
  {
    hide Inv, Apply, Defined;
    if Enabled(s, steps[0]) {
      StepKeepsInv(s, steps[0]);
    }
  }

  /** Takes effect if and only if there is room. */
  lemma PutAloneIs(s: State, c: u8)
    requires Inv(s) && s.producer.Outside?
    ensures
      var t := PutAlone(s, c);
      if Held(s) == s.Size() - 1 then t == s
      else Defined(s) && t == s.(data := s.data[s.putPtr := c], putPtr := Advanced(s.putPtr, s.Mask()), sent := s.sent + [c])
  {
    hide Inv, Advanced, Refuses, FindsNothing;
    StepDefined(s);
    var steps := [PutReadsPut(c)] + PUT;
    assert steps[1..][1..] == steps[2..] && steps[2..][1..] == steps[3..] && steps[3..][1..] == [];
    RunOne(s, steps);
    var s1 := Apply(s, PutReadsPut(c));
    RefusesIffFull(s1);
    RunOne(s1, steps[1..]);
    var s2 := Apply(s1, PutReadsGet);
    RunOne(s2, steps[2..]);
    if s2.producer.Admitted? {
      var s3 := Apply(s2, PutWritesData);
      RunOne(s3, steps[3..]);
    } else {
      RunOne(s2, steps[3..]);
    }
  }

  lemma GetAloneIs(s: State)
    requires Inv(s) && s.consumer.Away?
    ensures
      var t := GetAlone(s);
      if Held(s) == 0 then t == s
      else
        && Defined(s) && s.data[s.getPtr] == s.sent[|s.received|]
        && t == s.(getPtr := Advanced(s.getPtr, s.Mask()), received := s.received + [s.sent[|s.received|]])
  {
    hide Inv, Advanced, Refuses, FindsNothing;
    StepDefined(s);
    assert GET[1..][1..] == GET[2..] && GET[2..][1..] == GET[3..] && GET[3..][1..] == [];
    RunOne(s, GET);
    var s1 := Apply(s, GetReadsPut);
    NothingIffEmpty(s1);
    RunOne(s1, GET[1..]);
    var s2 := Apply(s1, GetReadsGet);
    RunOne(s2, GET[2..]);
    if s2.consumer.Granted? {
      OldestByte(s2);
      var s3 := Apply(s2, GetReadsData);
      RunOne(s3, GET[3..]);
      StepKeepsInv(s3, GetWritesGet);
    } else {
      RunOne(s2, GET[3..]);
    }
  }

  lemma OldestByte(s: State)
    requires Inv(s) && s.consumer.Granted?
    ensures s.getPtr < s.Size() && s.data[s.getPtr] == s.sent[|s.received|]
  {
    assert InPlace(s, |s.received|);
  }

  class Ringbuf {
    const data: array<u8>
    const mask: u8
    var putPtr: u8
    var getPtr: u8
    ghost var sent: seq<u8>
    ghost var received: seq<u8>

    ghost function View(): State
      reads this, data
    {
      State(data[..], putPtr, getPtr, Outside, Away, sent, received)
    }

    ghost predicate Valid()
      reads this, data
    {
      Inv(View()) && mask == data.Length - 1
    }

    constructor RingbufInit(dataptr: array<u8>)
      requires PowerSize(dataptr.Length)
      ensures Valid() && data == dataptr && View() == Initial(dataptr[..])
    {
      SizeBounds(dataptr.Length);
      InitialInv(dataptr[..]);
      data := dataptr;
      mask := dataptr.Length - 1;
      putPtr, getPtr := 0, 0;
      sent, received := [], [];
    }

    method RingbufPut(c: u8) returns (r: int)
      requires Valid()
      modifies this, data
      ensures Valid() && View() == PutAlone(old(View()), c)
      ensures r == if old(Held(View())) == mask then 0 else 1
      ensures sent == if r == 1 then old(sent) + [c] else old(sent)
      ensures received == old(received)
    {
      hide Inv, AndInt, Run, PutAlone;
      ghost var s := View();
      PutAloneIs(s, c);
      PutKeeps(s, c);
      StepDefined(s);
      RefusesIffFull(s.(producer := Loaded(c, putPtr))) by {
        LoadedInv(s, c);
      }
      if AndInt(putPtr - getPtr, mask) == mask {
        return 0;
      }
      data[putPtr] := c;
      putPtr := AndInt(putPtr + 1, mask);
      sent := sent + [c];
      r := 1;
    }

    method RingbufGet() returns (r: int)
      requires Valid()
      modifies this
      ensures Valid() && View() == GetAlone(old(View()))
      ensures r == if old(Held(View())) == 0 then -1 else old(sent[|received|])
      ensures received == if r == -1 then old(received) else old(received) + [r]
      ensures sent == old(sent)
    {
      hide Inv, AndInt, Run, GetAlone;
      ghost var s := View();
      GetAloneIs(s);
      GetKeeps(s);
      StepDefined(s);
      HeldBounds(s);
      ElementsAre(s);
      if AndInt(putPtr - getPtr, mask) > 0 {
        var c := data[getPtr];
        getPtr := AndInt(getPtr + 1, mask);
        received := received + [c];
        return c;
      } else {
        return -1;
      }
    }

    method RingbufElements() returns (r: int)
      requires Valid()
      ensures r == Held(View()) && 0 <= r <= mask
    {
      hide Inv, AndInt;
      HeldBounds(View());
      ElementsAre(View());
      r := AndInt(putPtr - getPtr, mask);
    }
  }

  lemma PutKeeps(s: State, c: u8)
    requires Inv(s)
    ensures Inv(PutAlone(s, c))
  {
    hide Inv;
  }

  lemma GetKeeps(s: State)
    requires Inv(s)
    ensures Inv(GetAlone(s))
  {
    hide Inv;
  }

  lemma LoadedInv(s: State, c: u8)
    requires Inv(s)
    ensures Inv(s.(producer := Loaded(c, s.putPtr)))
  {
    hide Slot, PowerSize;
    var t := s.(producer := Loaded(c, s.putPtr));
    SameRing(s, t);
  }

  lemma HeldBounds(s: State)
    requires Inv(s)
    ensures 0 <= Held(s) < s.Size() && s.received <= s.sent
  {
  }

  /** The masked difference of the indices counts the bytes held. */
  lemma ElementsAre(s: State)
    requires Inv(s)
    ensures AndInt(s.putPtr - s.getPtr, s.Mask()) == Held(s)
  {
    hide AndInt;
    MaskIsMod(s.putPtr - s.getPtr, s.Size());
    GapOfCounters(|s.sent|, |s.received|, s.Size());
  }
}
