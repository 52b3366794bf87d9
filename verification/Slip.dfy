/** slip.c: SLIP framing (RFC 1055) over a cyclic receive buffer. */
module Slip {
  import opened Bits

  const END: u8 := 0xC0
  const ESC: u8 := 0xDB
  const ESC_END: u8 := 0xDC
  const ESC_ESC: u8 := 0xDD

  type Bytes = seq<u8>

  // ---- The encoding ------------------------------------------------------------------

  function Escape(c: u8): Bytes {
    if c == END then [ESC, ESC_END] else if c == ESC then [ESC, ESC_ESC] else [c]
  }

  function Escaped(p: Bytes): Bytes {
    if p == [] then [] else Escaped(p[..|p| - 1]) + Escape(p[|p| - 1])
  }

  function Frame(p: Bytes): Bytes {
    [END] + Escaped(p) + [END]
  }

  /** The bytes of RFC 1055. */
  lemma EscapeBytes(c: u8)
    ensures Escape(c) == if c == 0xC0 then [0xDB, 0xDC] else if c == 0xDB then [0xDB, 0xDD] else [c]
  {
  }

  /** C0 DB goes over the wire as C0 DB DC DB DD C0. */
  lemma FrameBytes()
    ensures Escaped([0xC0, 0xDB]) == [0xDB, 0xDC, 0xDB, 0xDD]
    ensures Frame([0xC0, 0xDB]) == [0xC0, 0xDB, 0xDC, 0xDB, 0xDD, 0xC0]
  {
    var none: Bytes := [];
    var first: Bytes := [0xC0];
    assert first[..0] == none && none + [0xDB, 0xDC] == [0xDB, 0xDC];
    assert Escaped(first) == Escaped(none) + Escape(0xC0);
    assert [0xC0, 0xDB][..1] == first;
    assert [0xDB, 0xDC] + [0xDB, 0xDD] == [0xDB, 0xDC, 0xDB, 0xDD];
  }

  method SlipWrite(ptr: Bytes) returns (wire: Bytes)
    requires |ptr| < B16
    ensures wire == Frame(ptr)
  {
    wire := [END];
    for i := 0 to |ptr|
      invariant wire == [END] + Escaped(ptr[..i])
    {
      assert ptr[..i + 1][..i] == ptr[..i];
      var c := ptr[i];
      if c == END {
        wire := wire + [ESC];
        c := ESC_END;
      } else if c == ESC {
        wire := wire + [ESC];
        c := ESC_ESC;
      }
      wire := wire + [c];
    }
    assert ptr[..|ptr|] == ptr;
    wire := wire + [END];
  }

  lemma {:induction false} EscapedPlain(p: Bytes)
    requires forall i :: 0 <= i < |p| ==> p[i] != END && p[i] != ESC
    ensures Escaped(p) == p
    decreases |p|
  {
    if p != [] {
      EscapedPlain(p[..|p| - 1]);
    }
  }

  // ---- The decoding ------------------------------------------------------------------

  /** Behind an escape, DC stands for C0 and DD for DB; any other byte is left out. */
  lemma DecodeBytes(out: Bytes, c: u8)
    ensures DecodeByte((out, false), 0xDB) == (out, true)
    ensures c != 0xDB ==> DecodeByte((out, false), c) == (out + [c], false)
    ensures DecodeByte((out, true), c)
      == (if c == 0xDC then out + [0xC0] else if c == 0xDD then out + [0xDB] else out, false)
  {
  }

  /** What is put out so far and whether an escape is open, before and after byte c. */
  function DecodeByte(d: (Bytes, bool), c: u8): (Bytes, bool) {
    if d.1 then
      (if c == ESC_ESC then d.0 + [ESC] else if c == ESC_END then d.0 + [END] else d.0, false)
    else if c == ESC then (d.0, true)
    else (d.0 + [c], false)
  }

  /** What decoding s puts out, and whether its last byte was an escape still open. */
  function Decode(s: Bytes): (Bytes, bool) {
    if s == [] then ([], false) else DecodeByte(Decode(s[..|s| - 1]), s[|s| - 1])
  }

  lemma DecodeNext(s: Bytes, c: u8)
    ensures Decode(s + [c]) == DecodeByte(Decode(s), c)
  {
    assert (s + [c])[..|s|] == s;
  }

  lemma {:induction false} DecodeGrows(s: Bytes, k: nat)
    requires k <= |s|
    ensures |Decode(s[..k]).0| <= |Decode(s).0|
    decreases |s| - k
  {
    if k == |s| {
      assert s[..k] == s;
    } else {
      assert s[..k + 1] == s[..k] + [s[k]];
      DecodeNext(s[..k], s[k]);
      DecodeGrows(s, k + 1);
    }
  }

  /** Decoding undoes escaping. */
  lemma {:induction false} DecodeEscaped(p: Bytes)
    ensures Decode(Escaped(p)) == (p, false)
    decreases |p|
  {
    hide Decode, DecodeByte, Escape;
    if p == [] {
      NothingDecoded();
    } else {
      var q, c := p[..|p| - 1], p[|p| - 1];
      DecodeEscaped(q);
      DecodeEscape(Escaped(q), c);
      assert q + [c] == p;
    }
  }

  lemma DecodeEscape(s: Bytes, c: u8)
    requires !Decode(s).1
    ensures Decode(s + Escape(c)) == (Decode(s).0 + [c], false)
  {
    hide Decode;
    if c == END || c == ESC {
      var e := Escape(c)[1];
      DecodeNext(s, ESC);
      DecodeNext(s + [ESC], e);
      assert s + Escape(c) == s + [ESC] + [e];
    } else {
      DecodeNext(s, c);
    }
  }

  lemma {:induction false} EscapedNonempty(p: Bytes)
    ensures |p| <= |Escaped(p)|
    decreases |p|
  {
    if p != [] {
      EscapedNonempty(p[..|p| - 1]);
    }
  }

  // ---- The decoding loop, with its test of the length ----------------------------------

  /** A decoding loop over s that starts from d: once more than blen bytes are out, a further byte makes it give up. */
  function Scan(s: Bytes, blen: nat, d: (Bytes, bool)): (Bytes, bool) {
    if s == [] then d
    else if |d.0| > blen then ([], d.1)
    else Scan(s[1..], blen, DecodeByte(d, s[0]))
  }

  /** Whether that loop writes behind blen bytes. */
  predicate Exceeds(s: Bytes, blen: nat, d: (Bytes, bool)) {
    s != [] && |d.0| <= blen && (|DecodeByte(d, s[0]).0| > blen || Exceeds(s[1..], blen, DecodeByte(d, s[0])))
  }

  lemma FirstByte(done: Bytes, s: Bytes)
    requires s != []
    ensures done + s == done + [s[0]] + s[1..]
    ensures Decode(done + [s[0]]) == DecodeByte(Decode(done), s[0])
  {
    DecodeNext(done, s[0]);
  }

  lemma Grows(done: Bytes, s: Bytes)
    ensures |Decode(done).0| <= |Decode(done + s).0|
  {
    assert (done + s)[..|done|] == done;
    DecodeGrows(done + s, |done|);
  }

  /** A packet that fits is decoded whole, and nothing is written behind it. */
  lemma {:induction false} ScanFits(s: Bytes, blen: nat, done: Bytes)
    requires |Decode(done + s).0| <= blen
    ensures Scan(s, blen, Decode(done)) == Decode(done + s) && !Exceeds(s, blen, Decode(done))
    decreases |s|
  {
    hide Decode, DecodeByte;
    if s == [] {
      assert done + s == done;
    } else {
      FirstByte(done, s);
      Grows(done, s);
      Grows(done + [s[0]], s[1..]);
      ScanFits(s[1..], blen, done + [s[0]]);
    }
  }

  /** A packet that does not fit is written one byte too far. It is then dropped, except when only its last byte
      was too many: that one goes unnoticed. */
  lemma {:induction false} ScanOverlong(s: Bytes, blen: nat, done: Bytes)
    requires |Decode(done).0| <= blen < |Decode(done + s).0|
    ensures s != [] && Exceeds(s, blen, Decode(done))
    ensures
      var all := done + s;
      Scan(s, blen, Decode(done)).0 == if |Decode(all[..|all| - 1]).0| <= blen then Decode(all).0 else []
    decreases |s|
  {
    hide Decode, DecodeByte;
    assert s == [] ==> done + s == done;
    if s != [] {
      FirstByte(done, s);
      var next := done + [s[0]];
      if |Decode(next).0| <= blen {
        ScanOverlong(s[1..], blen, next);
      } else if |s| == 1 {
        assert (done + s)[..|done|] == done && s[1..] == [] && done + s == next;
      } else {
        assert (done + s)[..|done + s| - 1] == next + s[1..|s| - 1];
        Grows(next, s[1..|s| - 1]);
      }
    }
  }

  // ---- The receiver's state ----------------------------------------------------------

  datatype State = TwoPackets | Ok | Esc | Rubbish

  datatype Receiver = Receiver(state: State, begin: nat, nextFree: nat, pktEnd: nat, rxbuf: Bytes) {
    ghost predicate Valid() {
      2 <= |rxbuf| && begin < |rxbuf| && nextFree < |rxbuf| && pktEnd < |rxbuf|
    }
  }

  function Bump(i: nat, n: nat): nat {
    if i + 1 == n then 0 else i + 1
  }

  /** The bytes at [b, e), cyclically. */
  function Region(buf: Bytes, b: nat, e: nat): Bytes
    requires b < |buf| && e < |buf|
  {
    if b <= e then buf[b..e] else buf[b..] + buf[..e]
  }

  lemma RegionGrows(buf: Bytes, b: nat, e: nat, c: u8)
    requires b < |buf| && e < |buf| && Bump(e, |buf|) != b
    ensures Bump(e, |buf|) < |buf|
    ensures Region(buf[e := c], b, Bump(e, |buf|)) == Region(buf, b, e) + [c]
  {
    var buf' := buf[e := c];
    if b <= e {
      if e + 1 == |buf| {
        assert buf'[b..] + buf'[..0] == buf[b..e] + [c];
      } else {
        assert buf'[b..e + 1] == buf[b..e] + [c];
      }
    } else {
      assert buf'[b..] == buf[b..] && buf'[..e + 1] == buf[..e] + [c];
    }
  }

  lemma RegionFull(buf: Bytes, b: nat, e: nat)
    requires b < |buf| && e < |buf|
    ensures |Region(buf, b, e)| < |buf|
    ensures Bump(e, |buf|) == b <==> |Region(buf, b, e)| == |buf| - 1
    ensures b == e <==> Region(buf, b, e) == []
  {
  }

  /** One byte from the line. */
  function Input(r: Receiver, c: u8): Receiver
    requires r.Valid()
    ensures Input(r, c).Valid() && |Input(r, c).rxbuf| == |r.rxbuf|
  {
    if r.state.Rubbish? then
      if c == END then r.(state := Ok) else r
    else if r.state.Esc? && c != ESC_END && c != ESC_ESC then
      r.(state := Rubbish, nextFree := r.pktEnd)
    else
      var state := if c == ESC then Esc else if r.state.Esc? then Ok else r.state;
      var next := Bump(r.nextFree, |r.rxbuf|);
      if next == r.begin then
        r.(state := Rubbish, nextFree := r.pktEnd)
      else
        var t := r.(state := state, nextFree := next, rxbuf := r.rxbuf[r.nextFree := c]);
        if c != END then t
        else if r.nextFree == r.pktEnd then t.(nextFree := r.nextFree)
        else if r.begin == r.pktEnd then t.(pktEnd := r.nextFree)
        else t
  }

  /** Whether the byte ends a packet that is not empty, for which the process is polled. */
  predicate Completes(r: Receiver, c: u8)
    requires r.Valid()
  {
    && c == END && !r.state.Rubbish? && !r.state.Esc?
    && Bump(r.nextFree, |r.rxbuf|) != r.begin && r.nextFree != r.pktEnd
  }

  function InputAll(r: Receiver, s: Bytes): (t: Receiver)
    requires r.Valid()
    ensures t.Valid() && |t.rxbuf| == |r.rxbuf|
  {
    if s == [] then r else Input(InputAll(r, s[..|s| - 1]), s[|s| - 1])
  }

  lemma {:induction false} InputConcat(r: Receiver, s: Bytes, t: Bytes)
    requires r.Valid()
    ensures InputAll(r, s + t) == InputAll(InputAll(r, s), t)
    decreases |t|
  {
    hide Input;
    if t == [] {
      assert s + t == s;
    } else {
      assert (s + t)[..|s + t| - 1] == s + t[..|t| - 1];
      InputConcat(r, s, t[..|t| - 1]);
    }
  }

  /** No packet waits and none is under way. */
  ghost predicate Idle(r: Receiver) {
    && r.Valid()
    && r.begin == r.pktEnd == r.nextFree
    && (r.state.Ok? || r.state.Rubbish?)
  }

  /** A frame is under way whose bytes so far are d; or they did not fit and the rest is being skipped. */
  ghost predicate Receiving(r: Receiver, d: Bytes) {
    && r.Valid() && r.begin == r.pktEnd
    && if |d| < |r.rxbuf|
       then r.state.Ok? && Region(r.rxbuf, r.begin, r.nextFree) == d
       else r.state.Rubbish? && r.nextFree == r.begin
  }

  /** The whole frame of p waits at [begin, pktEnd). */
  ghost predicate Buffered(r: Receiver, p: Bytes) {
    && r.Valid() && r.state.Ok?
    && r.begin != r.pktEnd && r.nextFree == Bump(r.pktEnd, |r.rxbuf|)
    && Region(r.rxbuf, r.begin, r.pktEnd) == Escaped(p)
  }

  lemma FrameStarts(r: Receiver)
    requires Idle(r)
    ensures Receiving(Input(r, END), [])
    ensures Input(r, END).begin == r.begin
  {
  }

  lemma PlainByte(r: Receiver, d: Bytes, c: u8)
    requires Receiving(r, d) && c != END && c != ESC
    ensures Receiving(Input(r, c), d + [c]) && Input(r, c).begin == r.begin
  {
    hide Region;
    if |d| < |r.rxbuf| {
      RegionFull(r.rxbuf, r.begin, r.nextFree);
      if Bump(r.nextFree, |r.rxbuf|) != r.begin {
        RegionGrows(r.rxbuf, r.begin, r.nextFree, c);
      }
    }
  }

  lemma EscapedByte(r: Receiver, d: Bytes, c: u8)
    requires Receiving(r, d) && (c == ESC_END || c == ESC_ESC)
    ensures
      var t := Input(Input(r, ESC), c);
      Receiving(t, d + [ESC, c]) && t.begin == r.begin
  {
    hide Region;
    var n := |r.rxbuf|;
    if |d| < n {
      RegionFull(r.rxbuf, r.begin, r.nextFree);
      if Bump(r.nextFree, n) != r.begin {
        RegionGrows(r.rxbuf, r.begin, r.nextFree, ESC);
        var t := Input(r, ESC);
        RegionFull(t.rxbuf, t.begin, t.nextFree);
        assert d + [ESC, c] == d + [ESC] + [c];
        if Bump(t.nextFree, n) != t.begin {
          RegionGrows(t.rxbuf, t.begin, t.nextFree, c);
        }
      }
    }
  }

  lemma {:induction false} PayloadReceived(r: Receiver, p: Bytes)
    requires r.Valid() && Receiving(r, [])
    ensures Receiving(InputAll(r, Escaped(p)), Escaped(p)) && InputAll(r, Escaped(p)).begin == r.begin
    decreases |p|
  {
    hide Receiving, Input;
    if p != [] {
      var q, c := p[..|p| - 1], p[|p| - 1];
      PayloadReceived(r, q);
      var s := Escaped(q);
      InputConcat(r, s, Escape(c));
      var t := InputAll(r, s);
      if c == END || c == ESC {
        TwoInputs(t, ESC, Escape(c)[1]);
        EscapedByte(t, s, Escape(c)[1]);
      } else {
        OneInput(t, c);
        PlainByte(t, s, c);
      }
    }
  }

  lemma OneInput(r: Receiver, c: u8)
    requires r.Valid()
    ensures InputAll(r, [c]) == Input(r, c)
  {
    hide Input;
    assert [c][..0] == [];
  }

  lemma TwoInputs(r: Receiver, c: u8, d: u8)
    requires r.Valid()
    ensures InputAll(r, [c, d]) == Input(Input(r, c), d)
  {
    hide Input;
    assert [c, d][..1] == [c];
    OneInput(r, c);
  }

  lemma FrameEnds(r: Receiver, p: Bytes)
    requires Receiving(r, Escaped(p))
    ensures
      var t := Input(r, END);
      && t.begin == r.begin
      && if p != [] && |Escaped(p)| <= |r.rxbuf| - 2 then Buffered(t, p) else Idle(t)
  {
    hide Region;
    var d := Escaped(p);
    EscapedNonempty(p);
    if |d| < |r.rxbuf| {
      RegionFull(r.rxbuf, r.begin, r.nextFree);
      if Bump(r.nextFree, |r.rxbuf|) != r.begin {
        SameRegion(r.rxbuf, r.begin, r.nextFree, END);
      }
    }
  }

  lemma SameRegion(buf: Bytes, b: nat, e: nat, c: u8)
    requires b < |buf| && e < |buf|
    ensures Region(buf[e := c], b, e) == Region(buf, b, e)
  {
  }

  /** From any idle state a frame is buffered exactly when it is not empty and its escaped length fits; else it is dropped. */
  lemma FrameReceived(r: Receiver, p: Bytes)
    requires r.Valid() && Idle(r)
    ensures
      var t := InputAll(r, Frame(p));
      if p != [] && |Escaped(p)| <= |r.rxbuf| - 2 then Buffered(t, p) && t.begin == r.begin else Idle(t)
  {
    hide Receiving, Input, Idle, Buffered, Escaped;
    var s := InputAll(r, [END]);
    assert s.Valid();
    OneInput(r, END);
    FrameStarts(r);
    InputConcat(r, [END], Escaped(p));
    PayloadReceived(s, p);
    InputConcat(r, [END] + Escaped(p), [END]);
    var u := InputAll(s, Escaped(p));
    OneInput(u, END);
    FrameEnds(u, p);
  }

  // ---- Polling -----------------------------------------------------------------------

  /** The bytes from one cyclic position to another. */
  function Distance(i: nat, stop: nat, n: nat): nat
    requires i < n && stop < n
  {
    if i <= stop then stop - i else n - i + stop
  }

  /** The first END at or behind i, or stop. */
  function NextEnd(buf: Bytes, i: nat, stop: nat): (e: nat)
    requires i < |buf| && stop < |buf|
    ensures e < |buf|
    decreases Distance(i, stop, |buf|)
  {
    if i == stop || buf[i] == END then i else NextEnd(buf, Bump(i, |buf|), stop)
  }

  /** The packet that waits, still escaped. */
  function Waiting(r: Receiver): Bytes
    requires r.Valid()
  {
    Region(r.rxbuf, r.begin, r.pktEnd)
  }

  /** Drops the packet that waits, and takes up the next one if it is complete. */
  function Polled(r: Receiver): Receiver
    requires r.Valid()
  {
    if r.begin == r.pktEnd then r
    else
      var p := Bump(r.pktEnd, |r.rxbuf|);
      var e := NextEnd(r.rxbuf, p, r.nextFree);
      if e == r.nextFree then r.(begin := p, pktEnd := p) else r.(begin := p, pktEnd := e)
  }

  /** What a poll puts out: a packet that wraps around the buffer's end is decoded by two loops. */
  function PutOut(r: Receiver, blen: nat): Bytes
    requires r.Valid()
  {
    if r.begin == r.pktEnd then []
    else if r.begin < r.pktEnd then Scan(r.rxbuf[r.begin..r.pktEnd], blen, ([], false)).0
    else Scan(r.rxbuf[..r.pktEnd], blen, Scan(r.rxbuf[r.begin..], blen, ([], false))).0
  }

  /** A packet that fits is put out decoded; one that does not fit makes one of the loops write behind blen bytes. */
  lemma PolledIs(r: Receiver, blen: nat)
    requires r.Valid()
    ensures
      var w := Waiting(r);
      var fits := |Decode(w).0| <= blen;
      && (fits ==> PutOut(r, blen) == Decode(w).0)
      && if r.begin == r.pktEnd then fits
         else if r.begin < r.pktEnd then fits == !Exceeds(r.rxbuf[r.begin..r.pktEnd], blen, ([], false))
         else
           var d := Scan(r.rxbuf[r.begin..], blen, ([], false));
           var first := Exceeds(r.rxbuf[r.begin..], blen, ([], false));
           && fits == (!first && !Exceeds(r.rxbuf[..r.pktEnd], blen, d))
  {
    hide Decode, Scan, Exceeds;
    NothingDecoded();
    assert r.begin == r.pktEnd ==> Waiting(r) == [];
    if r.begin < r.pktEnd {
      LoopOver(r.rxbuf[r.begin..r.pktEnd], blen, []);
    } else if r.pktEnd < r.begin {
      var first, second := r.rxbuf[r.begin..], r.rxbuf[..r.pktEnd];
      LoopOver(first, blen, []);
      Grows(first, second);
      if |Decode(first).0| <= blen {
        LoopOver(second, blen, first);
      }
    }
  }

  /** Both outcomes of a loop that starts with room. */
  lemma LoopOver(s: Bytes, blen: nat, done: Bytes)
    requires |Decode(done).0| <= blen
    ensures Exceeds(s, blen, Decode(done)) <==> |Decode(done + s).0| > blen
    ensures |Decode(done + s).0| <= blen ==> Scan(s, blen, Decode(done)) == Decode(done + s)
    ensures done == [] ==> done + s == s
  {
    hide Decode, Scan, Exceeds;
    assert [] + s == s;
    if |Decode(done + s).0| <= blen {
      ScanFits(s, blen, done);
    } else {
      ScanOverlong(s, blen, done);
    }
  }

  /** An over-long packet that does not wrap is dropped unless only its last byte was too many. */
  lemma OverlongPutOut(r: Receiver, blen: nat)
    requires r.Valid() && r.begin < r.pktEnd && |Decode(Waiting(r)).0| > blen
    ensures
      var w := Waiting(r);
      PutOut(r, blen) == if |Decode(w[..|w| - 1]).0| <= blen then Decode(w).0 else []
  {
    NothingDecoded();
    assert [] + Waiting(r) == Waiting(r);
    ScanOverlong(Waiting(r), blen, []);
  }

  /** One that wraps, and is given up in its first part, is taken up again in its second: that is what the poll puts out. */
  lemma OverlongWrapped(r: Receiver, blen: nat)
    requires r.Valid() && r.pktEnd < r.begin
    requires |Decode(r.rxbuf[r.begin..|r.rxbuf| - 1]).0| > blen
    ensures
      var d := Scan(r.rxbuf[r.begin..], blen, ([], false));
      d.0 == [] && PutOut(r, blen) == Scan(r.rxbuf[..r.pktEnd], blen, d).0
  {
    hide Decode, DecodeByte, Scan, Exceeds;
    var first := r.rxbuf[r.begin..];
    NothingDecoded();
    assert [] + first == first && first[..|first| - 1] == r.rxbuf[r.begin..|r.rxbuf| - 1];
    DecodeGrows(first, |first| - 1);
    ScanOverlong(first, blen, []);
  }

  lemma ScanNext(s: Bytes, blen: nat, d: (Bytes, bool))
    requires s != [] && |d.0| <= blen
    ensures Scan(s, blen, d) == Scan(s[1..], blen, DecodeByte(d, s[0]))
  {
  }

  /** With room for one byte, the packet 1 2 3 9 that wraps before its last byte is put out as 9. */
  lemma OverlongTail()
    ensures
      var r := Receiver(Ok, 3, 2, 1, [9, END, 0, 1, 2, 3]);
      Buffered(r, [1, 2, 3, 9]) && PutOut(r, 1) == [9]
  {
    var r := Receiver(Ok, 3, 2, 1, [9, END, 0, 1, 2, 3]);
    EscapedPlain([1, 2, 3, 9]);
    var start: (Bytes, bool) := ([], false);
    var one: Bytes := [1];
    assert start.0 + [1] == one && start.0 + [9] == [9] && one + [2] == [1, 2];
    assert r.rxbuf[3..] == [1, 2, 3] && r.rxbuf[..1] == [9];
    ScanNext([1, 2, 3], 1, start);
    assert [1, 2, 3][1..] == [2, 3] && DecodeByte(start, 1) == ([1], false);
    ScanNext([2, 3], 1, ([1], false));
    assert [2, 3][1..] == [3] && DecodeByte(([1], false), 2) == ([1, 2], false);
    ScanNext([9], 1, start);
    assert [9][1..] == [] && DecodeByte(start, 9) == ([9], false);
  }

  /** From any idle state with room, C0 DB DC DB DD C0 is received, and the poll puts out C0 DB. */
  lemma BytesReceived(r: Receiver, blen: nat)
    requires r.Valid() && Idle(r) && |r.rxbuf| >= 6 && blen >= 2
    ensures
      var t := InputAll(r, [0xC0, 0xDB, 0xDC, 0xDB, 0xDD, 0xC0]);
      Waiting(t) == [0xDB, 0xDC, 0xDB, 0xDD] && PutOut(t, blen) == [0xC0, 0xDB] && Idle(Polled(t))
  {
    hide Idle, Frame, Escaped, InputAll, Decode, PutOut, Polled, Exceeds, Scan;
    FrameBytes();
    FrameReceived(r, [0xC0, 0xDB]);
    var t := InputAll(r, [0xC0, 0xDB, 0xDC, 0xDB, 0xDD, 0xC0]);
    BufferedPolls(t, [0xC0, 0xDB]);
    PolledIs(t, blen);
  }

  class Driver {
    var state: State
    var begin: nat
    var nextFree: nat
    var pktEnd: nat
    const rxbuf: array<u8>

    ghost function View(): Receiver
      reads this, rxbuf
    {
      Receiver(state, begin, nextFree, pktEnd, rxbuf[..])
    }

    ghost predicate Valid()
      reads this, rxbuf
    {
      View().Valid() && rxbuf.Length < B16
    }

    /** rxbuf_init. */
    constructor RxbufInit(size: nat)
      requires 2 <= size < B16
      ensures Valid() && Idle(View()) && rxbuf.Length == size && fresh(rxbuf)
    {
      rxbuf := new u8[size];
      begin, nextFree, pktEnd := 0, 0, 0;
      state := Ok;
    }

    method SlipInputByte(c: u8) returns (complete: int)
      requires Valid()
      modifies this, rxbuf
      ensures Valid() && View() == Input(old(View()), c)
      ensures complete == if old(Completes(View(), c)) then 1 else 0
    {
      ghost var r := View();
      complete := 0;
      match state {
        case Rubbish =>
          if c == END {
            state := Ok;
          }
          return;
        case Esc =>
          if c != ESC_END && c != ESC_ESC {
            state := Rubbish;
            nextFree := pktEnd;
            return;
          }
          state := Ok;
        case _ =>
      }
      if c == ESC {
        state := Esc;
      }
      var curEnd := nextFree;
      nextFree := nextFree + 1;
      if nextFree == rxbuf.Length {
        nextFree := 0;
      }
      if nextFree == begin {
        state := Rubbish;
        nextFree := pktEnd;
        return;
      }
      rxbuf[curEnd] := c;
      assert rxbuf[..] == r.rxbuf[curEnd := c];
      if c == END {
        if curEnd != pktEnd {
          if begin == pktEnd {
            pktEnd := curEnd;
          }
          complete := 1;
        } else {
          nextFree := curEnd;
        }
      }
    }

    /** The decoding loop over [from, to); past is set when it writes outbuf[blen]. */
    method DecodeRange(outbuf: array<u8>, blen: nat, from: nat, to: nat, start: nat, escaped: bool)
      returns (len: nat, esc: bool, ghost past: bool)
      requires outbuf != rxbuf && start <= outbuf.Length && blen <= outbuf.Length && from <= to <= rxbuf.Length
      requires outbuf.Length > blen || !Exceeds(rxbuf[from..to], blen, (outbuf[..start], escaped))
      modifies outbuf
      ensures len <= outbuf.Length
      ensures (outbuf[..len], esc) == Scan(rxbuf[from..to], blen, (old(outbuf[..start]), escaped))
      ensures past == Exceeds(rxbuf[from..to], blen, (old(outbuf[..start]), escaped))
      ensures !past ==> outbuf[blen..] == old(outbuf[blen..])
    {
      len, esc, past := start, escaped, false;
      for i := from to to
        invariant len <= outbuf.Length
        invariant Scan(rxbuf[i..to], blen, (outbuf[..len], esc)) == Scan(rxbuf[from..to], blen, (old(outbuf[..start]), escaped))
        invariant past || Exceeds(rxbuf[i..to], blen, (outbuf[..len], esc))
          <==> Exceeds(rxbuf[from..to], blen, (old(outbuf[..start]), escaped))
        invariant past ==> len > blen
        invariant !past ==> outbuf[blen..] == old(outbuf[blen..])
      {
        if len > blen {
          len := 0;
          assert outbuf[..0] == [];
          return;
        }
        ghost var d := (outbuf[..len], esc);
        assert rxbuf[i..to][0] == rxbuf[i] && rxbuf[i..to][1..] == rxbuf[i + 1..to];
        len, esc, past := StoreByte(outbuf, blen, rxbuf[i], len, esc);
      }
    }

    method SlipPollHandler(outbuf: array<u8>, blen: nat) returns (len: nat, ghost past: bool)
      requires Valid() && outbuf != rxbuf && blen <= outbuf.Length
      requires outbuf.Length > blen || |Decode(Waiting(View())).0| <= blen
      modifies this, outbuf
      ensures Valid() && View() == Polled(old(View()))
      ensures len <= outbuf.Length && outbuf[..len] == PutOut(old(View()), blen)
      ensures past <==> |Decode(old(Waiting(View()))).0| > blen
      ensures !past ==> outbuf[..len] == Decode(old(Waiting(View()))).0 && outbuf[blen..] == old(outbuf[blen..])
    {
      hide Decode, NextEnd, Scan, Exceeds;
      ghost var r := View();
      len, past := 0, false;
      PolledIs(r, blen);
      assert outbuf[..0] == [];
      if begin == pktEnd {
        return;
      }
      var esc: bool;
      if begin < pktEnd {
        assert rxbuf[begin..pktEnd] == r.rxbuf[begin..pktEnd];
        len, esc, past := DecodeRange(outbuf, blen, begin, pktEnd, 0, false);
      } else {
        ghost var past': bool;
        assert rxbuf[begin..rxbuf.Length] == r.rxbuf[begin..] && rxbuf[0..pktEnd] == r.rxbuf[..pktEnd];
        len, esc, past := DecodeRange(outbuf, blen, begin, rxbuf.Length, 0, false);
        len, esc, past' := DecodeRange(outbuf, blen, 0, pktEnd, len, esc);
        past := past || past';
      }
      pktEnd := pktEnd + 1;
      if pktEnd == rxbuf.Length {
        pktEnd := 0;
      }
      FindNext(r);
    }

    /** The search for a further packet behind the one just dropped. */
    method FindNext(ghost r: Receiver)
      requires Valid() && r.Valid() && r.begin != r.pktEnd
      requires View() == r.(pktEnd := Bump(r.pktEnd, |r.rxbuf|))
      modifies this
      ensures Valid() && View() == Polled(r)
    {
      ghost var p := pktEnd;
      if pktEnd != nextFree {
        var curNextFree := nextFree;
        var curPtr := pktEnd;
        while curPtr != curNextFree
          invariant 0 <= curPtr < rxbuf.Length && View() == r.(pktEnd := p)
          invariant NextEnd(rxbuf[..], curPtr, nextFree) == NextEnd(rxbuf[..], p, nextFree)
          decreases Distance(curPtr, curNextFree, rxbuf.Length)
        {
          if rxbuf[curPtr] == END {
            var tmpBegin := pktEnd;
            pktEnd := curPtr;
            begin := tmpBegin;
            break;
          }
          curPtr := curPtr + 1;
          if curPtr == rxbuf.Length {
            curPtr := 0;
          }
        }
        if curPtr == curNextFree {
          begin := pktEnd;
        }
      } else {
        begin := pktEnd;
      }
    }
  }

  /** The body of the decoding loop. */
  method StoreByte(outbuf: array<u8>, blen: nat, c: u8, start: nat, escaped: bool)
    returns (len: nat, esc: bool, ghost past: bool)
    requires start <= blen <= outbuf.Length
    requires outbuf.Length > blen || |DecodeByte((outbuf[..start], escaped), c).0| <= blen
    modifies outbuf
    ensures len <= outbuf.Length && (outbuf[..len], esc) == DecodeByte((old(outbuf[..start]), escaped), c)
    ensures past <==> len > blen
    ensures !past ==> outbuf[blen..] == old(outbuf[blen..])
  {
    len, esc := start, escaped;
    ghost var was := outbuf[..len];
    if esc {
      if c == ESC_ESC {
        outbuf[len] := ESC;
        len := len + 1;
        assert outbuf[..len] == was + [ESC];
      } else if c == ESC_END {
        outbuf[len] := END;
        len := len + 1;
        assert outbuf[..len] == was + [END];
      }
      esc := false;
    } else if c == ESC {
      esc := true;
    } else {
      outbuf[len] := c;
      len := len + 1;
      assert outbuf[..len] == was + [c];
    }
    past := len > blen;
  }

  lemma NothingDecoded()
    ensures Decode([]) == ([], false)
  {
  }

  // ---- Frames there and back ---------------------------------------------------------

  /** Polling a buffered frame gives the payload back and leaves the receiver idle. */
  lemma BufferedPolls(r: Receiver, p: Bytes)
    requires Buffered(r, p)
    ensures Decode(Waiting(r)).0 == p && Idle(Polled(r))
  {
    DecodeEscaped(p);
  }

  lemma IdlePolls(r: Receiver)
    requires Idle(r)
    ensures Waiting(r) == [] && Decode(Waiting(r)).0 == [] && Polled(r) == r
  {
  }

  /** The payloads that are delivered by a receiver with n bytes. */
  function Delivered(ps: seq<Bytes>, n: nat): seq<Bytes> {
    if ps == [] then []
    else
      var p := ps[|ps| - 1];
      Delivered(ps[..|ps| - 1], n) + (if p != [] && |Escaped(p)| + 2 <= n then [p] else [])
  }

  /** A line that carries one frame after another, each polled before the next: all that fit arrive, unchanged and in order,
      whatever was dropped between them. */
  method Link(ps: seq<Bytes>, driver: Driver, outbuf: array<u8>) returns (got: seq<Bytes>)
    requires driver.Valid() && Idle(driver.View()) && outbuf != driver.rxbuf
    requires forall i :: 0 <= i < |ps| ==> |ps[i]| <= outbuf.Length && |ps[i]| < B16
    modifies driver, driver.rxbuf, outbuf
    ensures driver.Valid() && Idle(driver.View())
    ensures got == Delivered(ps, driver.rxbuf.Length)
  {
    hide Receiver.Valid, Idle, Buffered, Decode, Waiting, Polled, Input, Escaped, Frame;
    got := [];
    for i := 0 to |ps|
      invariant driver.Valid() && Idle(driver.View())
      invariant got == Delivered(ps[..i], driver.rxbuf.Length)
    {
      ghost var r, p := driver.View(), ps[i];
      var wire := SlipWrite(ps[i]);
      Receive(driver, wire);
      FrameReceived(r, p);
      ghost var t := driver.View();
      if p != [] && |Escaped(p)| + 2 <= |r.rxbuf| {
        BufferedPolls(t, p);
      } else {
        IdlePolls(t);
      }
      var len;
      ghost var past;
      len, past := driver.SlipPollHandler(outbuf, outbuf.Length);
      if len > 0 {
        got := got + [outbuf[..len]];
      }
      assert ps[..i + 1][..i] == ps[..i];
    }
    assert ps[..|ps|] == ps;
  }

  method Receive(driver: Driver, wire: Bytes)
    requires driver.Valid()
    modifies driver, driver.rxbuf
    ensures driver.Valid() && driver.View() == InputAll(old(driver.View()), wire)
  {
    hide Input;
    for i := 0 to |wire|
      invariant driver.Valid() && driver.View() == InputAll(old(driver.View()), wire[..i])
    {
      var complete := driver.SlipInputByte(wire[i]);
      assert wire[..i + 1][..i] == wire[..i];
    }
    assert wire[..|wire|] == wire;
  }
}
