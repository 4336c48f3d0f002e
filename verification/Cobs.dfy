/** Byte stuffing for the serial console: the frame writer and the in-place decoder
    (toobloader_old/core/boot_cobs.c). */
module Cobs {
  import opened FlashModel
  import opened Wrappers

  /** Data bytes of a full block, whose code is 0xFF. */
  const FULL: nat := 254

  // ---- Encoding --------------------------------------------------------------------

  /** Where the block that starts at s ends: at a zero, at the end, or when full. */
  function RunEnd(d: Bytes, s: nat, e: nat): (r: nat)
    requires s <= e <= |d| && e - s <= FULL
    ensures e <= r <= |d| && r - s <= FULL
    ensures forall i :: e <= i < r ==> d[i] != 0
    ensures r == |d| || d[r] == 0 || r - s == FULL
    decreases |d| - e
  {
    if e == |d| || d[e] == 0 || e - s == FULL then e else RunEnd(d, s, e + 1)
  }

  function Next(d: Bytes, e: nat): (s: nat)
    requires e <= |d|
    ensures e <= s <= |d|
  {
    if e < |d| && d[e] == 0 then e + 1 else e
  }

  /** The body of the frame for d[s..]. */
  function Encode(d: Bytes, s: nat): (body: Bytes)
    requires s <= |d|
    decreases |d| - s
  {
    if s == |d| then []
    else
      var e := RunEnd(d, s, s);
      [e - s + 1] + d[s..e] + Encode(d, Next(d, e))
  }

  /** No zero byte in the body, so the markers delimit the frame. */
  lemma {:induction false} NoZeros(d: Bytes, s: nat)
    requires s <= |d|
    ensures forall i :: 0 <= i < |Encode(d, s)| ==> Encode(d, s)[i] != 0
    decreases |d| - s
  {
    if s < |d| {
      NoZeros(d, Next(d, RunEnd(d, s, s)));
    }
  }

  /** The overhead is at most one byte, and one more for every 254. */
  lemma {:induction false} Overhead(d: Bytes, s: nat)
    requires s <= |d|
    ensures |Encode(d, s)| <= (|d| - s) + 1 + (|d| - s) / FULL
    decreases |d| - s
  {
    if s < |d| {
      Overhead(d, Next(d, RunEnd(d, s, s)));
    }
  }

  // ---- Decoding --------------------------------------------------------------------

  function Then(x: Bytes, r: Option<Bytes>): Option<Bytes> {
    if r.None? then None else Some(x + r.value)
  }

  /** What one block stands for, when `more` says that another block follows. */
  function BlockOut(code: Byte, data: Bytes, more: bool): Bytes {
    data + if code < 0xFF && more then [0] else []
  }

  function Decode(s: Bytes): Option<Bytes> {
    if s == [] then Some([])
    else if s[0] == 0 || |s| < s[0] then None
    else
      var rest := s[s[0]..];
      Then(BlockOut(s[0], s[1..s[0]], rest != []), Decode(rest))
  }

  lemma ThenThen(x: Bytes, y: Bytes, r: Option<Bytes>)
    ensures Then(x, Then(y, r)) == Then(x + y, r)
  {
    if r.Some? { assert x + (y + r.value) == (x + y) + r.value; }
  }

  /** Decoding undoes one block at a time. */
  lemma DecodeBlock(code: Byte, data: Bytes, rest: Bytes)
    requires code == |data| + 1
    ensures Decode([code] + data + rest) == Then(BlockOut(code, data, rest != []), Decode(rest))
  {
    var s := [code] + data + rest;
    assert s[1..code] == data && s[code..] == rest;
  }

  // ---- What a round trip keeps --------------------------------------------------------

  /** Decoding what was encoded: everything, except zeros that no block stands for. */
  function Kept(d: Bytes, s: nat): (r: Bytes)
    requires s <= |d|
    decreases |d| - s
  {
    if s == |d| then []
    else
      var e := RunEnd(d, s, s);
      d[s..e] + (if e - s < FULL && Next(d, e) < |d| then [0] else []) + Kept(d, Next(d, e))
  }

  lemma {:induction false} RoundTripKeeps(d: Bytes, s: nat)
    requires s <= |d|
    ensures Decode(Encode(d, s)) == Some(Kept(d, s))
    decreases |d| - s
  {
    if s < |d| {
      var e := RunEnd(d, s, s);
      RoundTripKeeps(d, Next(d, e));
      DecodeBlock(e - s + 1, d[s..e], Encode(d, Next(d, e)));
    }
  }

  /** How many zeros are lost from s on. */
  function Lost(d: Bytes, s: nat): nat
    requires s <= |d|
    decreases |d| - s
  {
    if s == |d| then 0
    else
      var e := RunEnd(d, s, s);
      (if e < |d| && d[e] == 0 && (e - s == FULL || e + 1 == |d|) then 1 else 0) + Lost(d, Next(d, e))
  }

  lemma {:induction false} KeptIsAll(d: Bytes, s: nat)
    requires s <= |d|
    ensures |Kept(d, s)| + Lost(d, s) == |d| - s
    ensures Lost(d, s) == 0 ==> Kept(d, s) == d[s..]
    decreases |d| - s
  {
    if s < |d| {
      var e := RunEnd(d, s, s);
      Parts(d, s, e);
      KeptIsAll(d, Next(d, e));
    }
  }

  lemma Parts(d: Bytes, s: nat, e: nat)
    requires s <= e <= |d|
    ensures d[s..] == d[s..e] + (if e < |d| && d[e] == 0 then [0] else []) + d[Next(d, e)..]
  {
    assert d[s..] == d[s..e] + d[e..];
    if e < |d| && d[e] == 0 { assert d[e..] == [0] + d[e + 1..]; }
  }

  /** The length of the run of non-zero bytes that ends just before i. */
  function RunBefore(d: Bytes, i: nat): (r: nat)
    requires i <= |d|
    ensures r <= i
  {
    if i == 0 || d[i-1] == 0 then 0 else 1 + RunBefore(d, i - 1)
  }

  lemma {:induction false} RunExtends(d: Bytes, s: nat, e: nat)
    requires s <= e <= |d| && forall i :: s <= i < e ==> d[i] != 0
    ensures RunBefore(d, e) == RunBefore(d, s) + (e - s)
    decreases e
  {
    if s < e { RunExtends(d, s, e - 1); }
  }

  /** A zero that follows a run of 254, 508, ... bytes. */
  predicate LossyAt(d: Bytes, i: nat) {
    i < |d| && d[i] == 0 && RunBefore(d, i) > 0 && RunBefore(d, i) % FULL == 0
  }

  /** The payloads that survive: they do not end with a zero, and no zero follows a run
      whose length is a positive multiple of 254. */
  ghost predicate Lossless(d: Bytes) {
    (d != [] ==> d[|d|-1] != 0) && forall i: nat :: !LossyAt(d, i)
  }

  /** A block starts after whole blocks of a run, and not with a zero unless it is the first. */
  predicate BlockStart(d: Bytes, s: nat) {
    s <= |d| && RunBefore(d, s) % FULL == 0 && (RunBefore(d, s) > 0 && s < |d| ==> d[s] != 0)
  }

  lemma {:induction false} LostIsLossy(d: Bytes, s: nat)
    requires BlockStart(d, s)
    ensures Lost(d, s) == 0 <==> (s < |d| ==> d[|d|-1] != 0) && forall i: nat :: s <= i ==> !LossyAt(d, i)
    decreases |d| - s
  {
    if s < |d| {
      var e := RunEnd(d, s, s);
      RunExtends(d, s, e);
      var q := RunBefore(d, s) / FULL;
      assert RunBefore(d, s) == q * FULL;
      if e - s < FULL {
        DivModUnique(RunBefore(d, e), q, e - s, FULL);
      } else {
        DivModUnique(RunBefore(d, e), q + 1, 0, FULL);
      }
      assert e < |d| && d[e] == 0 && e - s == FULL ==> LossyAt(d, e);
      assert LossyAt(d, e) ==> e - s == FULL;
      if e < |d| {
        LostIsLossy(d, Next(d, e));
        assert forall i: nat :: s <= i < Next(d, e) ==> LossyAt(d, i) ==> i == e;
      }
    }
  }

  /** The zeros that no block stands for: one at the very end, and the lossy ones. */
  predicate LostAt(d: Bytes, i: nat) {
    i < |d| && d[i] == 0 && (i + 1 == |d| || LossyAt(d, i))
  }

  /** d[s..e] without them. */
  function Survivors(d: Bytes, s: nat, e: nat): (r: Bytes)
    requires s <= e <= |d|
  {
    if s == e then [] else Survivors(d, s, e - 1) + if LostAt(d, e - 1) then [] else [d[e-1]]
  }

  lemma {:induction false} SurvivorsSplit(d: Bytes, s: nat, m: nat, e: nat)
    requires s <= m <= e <= |d|
    ensures Survivors(d, s, e) == Survivors(d, s, m) + Survivors(d, m, e)
    decreases e
  {
    if m < e { SurvivorsSplit(d, s, m, e - 1); }
  }

  lemma {:induction false} BlockSurvives(d: Bytes, s: nat, e: nat)
    requires s <= e <= |d| && forall i :: s <= i < e ==> d[i] != 0
    ensures Survivors(d, s, e) == d[s..e]
    decreases e
  {
    if s < e {
      BlockSurvives(d, s, e - 1);
      assert d[s..e] == d[s..e - 1] + [d[e-1]];
    }
  }

  lemma RunMod(r: nat, k: nat)
    requires r % FULL == 0 && k <= FULL
    ensures (r + k) % FULL == 0 <==> k == 0 || k == FULL
  {
    var q := r / FULL;
    assert r == q * FULL;
    if k < FULL { DivModUnique(r + k, q, k, FULL); } else { DivModUnique(r + k, q + 1, 0, FULL); }
  }

  /** A zero that ends a block is lost when the block is full, or when nothing follows. */
  lemma ZeroLost(d: Bytes, s: nat, e: nat)
    requires BlockStart(d, s) && s <= e < |d| && d[e] == 0 && e - s <= FULL && forall i :: s <= i < e ==> d[i] != 0
    ensures LostAt(d, e) <==> e - s == FULL || e + 1 == |d|
  {
    RunExtends(d, s, e);
    RunMod(RunBefore(d, s), e - s);
    hide RunBefore;
  }

  /** One block of the payload, without the zero if it is lost. */
  lemma BlockKept(d: Bytes, s: nat, e: nat)
    requires BlockStart(d, s) && s < |d| && e == RunEnd(d, s, s)
    ensures var zero := if e - s < FULL && Next(d, e) < |d| then [0] else [];
            Survivors(d, s, |d|) == d[s..e] + zero + Survivors(d, Next(d, e), |d|)
  {
    var n := Next(d, e);
    BlockSurvives(d, s, e);
    SurvivorsSplit(d, s, e, |d|);
    SurvivorsSplit(d, e, n, |d|);
    if e < n { ZeroLost(d, s, e); }
    hide BlockStart, LostAt, RunEnd;
    Grouped(d[s..e], Survivors(d, e, n), Survivors(d, n, |d|));
  }

  /** What a round trip keeps is the payload without the lost zeros, and nothing else is
      lost or moved. */
  lemma {:induction false} KeptIsSurvivors(d: Bytes, s: nat)
    requires BlockStart(d, s)
    ensures Kept(d, s) == Survivors(d, s, |d|)
    decreases |d| - s
  {
    hide BlockStart, Survivors;
    if s < |d| {
      var e := RunEnd(d, s, s);
      BlockKept(d, s, e);
      if e < |d| {
        BlockEnd(d, s, e);
        KeptIsSurvivors(d, Next(d, e));
      } else {
        NoneSurvive(d, |d|);
      }
    } else {
      NoneSurvive(d, |d|);
    }
  }

  lemma NoneSurvive(d: Bytes, s: nat)
    requires s <= |d|
    ensures Survivors(d, s, s) == []
  {
  }

  lemma Grouped(x: Bytes, y: Bytes, z: Bytes)
    ensures x + (y + z) == x + y + z
  {
  }

  /** The next block starts where a block may. */
  lemma BlockEnd(d: Bytes, s: nat, e: nat)
    requires s < |d| && e == RunEnd(d, s, s) < |d| && BlockStart(d, s)
    ensures s < Next(d, e) && BlockStart(d, Next(d, e))
  {
    RunExtends(d, s, e);
    RunMod(RunBefore(d, s), e - s);
  }

  /** So what comes back is exactly the payload without them. */
  lemma RoundTripGives(d: Bytes)
    ensures Decode(Encode(d, 0)) == Some(Survivors(d, 0, |d|))
  {
    hide Kept, Encode, Decode, Survivors;
    RoundTripKeeps(d, 0);
    KeptIsSurvivors(d, 0);
  }

  /** The round trip restores a payload if and only if it is lossless. */
  lemma RoundTrip(d: Bytes)
    ensures Decode(Encode(d, 0)) == Some(d) <==> Lossless(d)
  {
    assert d[0..] == d && RunBefore(d, 0) == 0;
    hide Kept, Encode, Decode, Lost, RunBefore, LossyAt;
    RoundTripKeeps(d, 0);
    KeptIsAll(d, 0);
    LostIsLossy(d, 0);
  }

  /** A payload that ends with a zero does not survive, nor does one with a zero after
      254 other bytes. */
  lemma LossyExamples()
    ensures Decode(Encode([7, 0], 0)) == Some([7])
    ensures forall d: Bytes :: |d| == 255 && d[254] == 0 && (forall i :: 0 <= i < 254 ==> d[i] != 0) ==> !Lossless(d)
  {
    RoundTripKeeps([7, 0], 0);
    assert RunEnd([7, 0], 0, 0) == 1;
    assert Kept([7, 0], 0) == [7];
  }

  /** The frame body of a payload with a zero inside. */
  lemma KnownBody()
    ensures Encode([0x11, 0x22, 0x00, 0x33], 0) == [0x03, 0x11, 0x22, 0x02, 0x33]
  {
    var d: Bytes := [0x11, 0x22, 0x00, 0x33];
    assert RunEnd(d, 0, 0) == RunEnd(d, 0, 1) == 2;
    assert RunEnd(d, 3, 3) == 4;
    assert Encode(d, 4) == [];
    assert Encode(d, 3) == [0x02, 0x33];
  }

  // ---- The code ----------------------------------------------------------------------

  /** COBS_MARKER_START and COBS_MARKER_END */
  const MARKER: Byte := 0x00

  /** One block of boot_cobs_send_frame: the code, the data, and the zero it stands for. */
  method SendBlock(data: Bytes, ptr: nat) returns (block: Bytes, next: nat)
    requires ptr < |data|
    ensures ptr < next <= |data| && block + Encode(data, next) == Encode(data, ptr)
  {
    var code, end := 1, ptr;
    while end < |data| && data[end] != 0 && code < 0xFF
      invariant ptr <= end <= |data| && code == end - ptr + 1 <= 0xFF
                && RunEnd(data, ptr, end) == RunEnd(data, ptr, ptr)
    {
      end := end + 1;
      code := code + 1;
    }
    block := [code];
    for i := ptr to end
      invariant block == [code] + data[ptr..i]
    {
      block := block + [data[i]];
    }
    next := end;
    if next < |data| && data[next] == 0 { next := next + 1; }
  }

  /** boot_cobs_send_frame, as the bytes it puts on the console. */
  method SendFrame(data: Bytes) returns (out: Bytes)
    ensures out == if data == [] then [] else [MARKER] + Encode(data, 0) + [MARKER]
    ensures data != [] ==> |out| >= 3 && out[0] == out[|out|-1] == 0 && forall i :: 0 < i < |out| - 1 ==> out[i] != 0
    ensures data != [] ==> Decode(out[1..|out|-1]) == Some(Survivors(data, 0, |data|))
  {
    NoZeros(data, 0);
    RoundTripGives(data);
    assert data != [] ==> Encode(data, 0) != [];
    hide Encode, Decode, Survivors;
    if |data| == 0 { return []; }
    out := [MARKER];
    var ptr := 0;
    while ptr < |data|
      invariant 0 <= ptr <= |data| && out + Encode(data, ptr) == [MARKER] + Encode(data, 0)
      decreases |data| - ptr
    {
      var block, next := SendBlock(data, ptr);
      assert out + block + Encode(data, next) == out + (block + Encode(data, next));
      out, ptr := out + block, next;
    }
    EncodedAll(data);
    assert out + [] == out;
    out := out + [MARKER];
    assert out[1..|out|-1] == Encode(data, 0);
  }

  lemma EncodedAll(d: Bytes)
    ensures Encode(d, |d|) == []
  {
  }

  /** boot_cobs_decode_in_place.  The write index never passes the read index, so what is
      still to be read is intact; the tail of the buffer is cleared. */
  method DecodeInPlace(a: array<Byte>) returns (st: Status, outLen: nat)
    modifies a
    ensures st == Ok || st == InvalidArg
    ensures st == Ok <==> old(a.Length > 0 && Decode(a[..]).Some?)
    ensures st == Ok ==> outLen <= a.Length && Some(a[..outLen]) == Decode(old(a[..]))
    ensures st == Ok ==> forall i :: outLen <= i < a.Length ==> a[i] == 0
  {
    if a.Length == 0 { return InvalidArg, 0; }
    hide Decode, BlockOut, Then;
    ghost var s := a[..];
    var r, w := 0, 0;
    DecodeStart(s, a[..0]);
    while r < a.Length
      invariant 0 <= w <= r <= a.Length && Unread(a, s, r)
      invariant Decode(s) == Then(a[..w], Decode(s[r..]))
      decreases a.Length - r
    {
      ghost var r0, before := r, a[..w];
      if s[r0] == 0 || |s| - r0 < s[r0] { BadBlock(before, s[r0..]); } else { BlockRead(s, r0, before); }
      st, r, w := OneBlock(a, s, r, w);
      if st != Ok { return st, 0; }
    }
    DecodeEnd(s, r, a[..w]);
    ClearTail(a, w);
    return Ok, w;
  }

  lemma DecodeStart(s: Bytes, none: Bytes)
    requires none == []
    ensures Decode(s) == Then(none, Decode(s[0..]))
  {
    assert s[0..] == s;
    ThenNothing(Decode(s));
  }

  lemma DecodeEnd(s: Bytes, r: nat, done: Bytes)
    requires r == |s| && Decode(s) == Then(done, Decode(s[r..]))
    ensures Decode(s) == Some(done)
  {
    assert s[r..] == [] && done + [] == done;
  }

  method ClearTail(a: array<Byte>, w: nat)
    requires w <= a.Length
    modifies a
    ensures a[..w] == old(a[..w]) && forall j :: w <= j < a.Length ==> a[j] == 0
  {
    for i := w to a.Length
      invariant a[..w] == old(a[..w]) && forall j :: w <= j < i ==> a[j] == 0
    {
      a[i] := 0;
    }
  }

  lemma ThenNothing(r: Option<Bytes>)
    ensures Then([], r) == r
  {
    if r.Some? { assert [] + r.value == r.value; }
  }

  /** The buffer from r on is as it was received. */
  ghost predicate Unread(a: array<Byte>, s: Bytes, r: nat)
    reads a
  {
    a.Length == |s| && forall k :: r <= k < a.Length ==> a[k] == s[k]
  }

  /** Copy n bytes down, from r to w < r. */
  method MoveDown(a: array<Byte>, ghost s: Bytes, r: nat, w: nat, n: nat)
    requires w < r && r + n <= a.Length && Unread(a, s, r)
    modifies a
    ensures Unread(a, s, r + n) && a[..w + n] == old(a[..w]) + s[r..r + n]
  {
    for i := 0 to n
      invariant Unread(a, s, r + i)
      invariant forall k :: 0 <= k < w ==> a[k] == old(a[..w])[k]
      invariant forall k :: w <= k < w + i ==> a[k] == s[k - w + r]
    {
      a[w + i] := a[r + i];
    }
  }

  /** Restore an implicit zero, below what is still to be read. */
  method PutZero(a: array<Byte>, ghost s: Bytes, r: nat, w: nat)
    requires w < r < a.Length && Unread(a, s, r)
    modifies a
    ensures a[..w + 1] == old(a[..w]) + [0] && Unread(a, s, r)
  {
    a[w] := 0x00;
  }

  lemma Regroup(x: Bytes, y: Bytes, z: Bytes)
    ensures x + y + z == x + (y + z)
  {
  }

  /** One block of the decoder. */
  method OneBlock(a: array<Byte>, ghost s: Bytes, r0: nat, w0: nat) returns (st: Status, r: nat, w: nat)
    requires w0 <= r0 < a.Length && Unread(a, s, r0)
    modifies a
    ensures st == if s[r0] == 0 || |s| - r0 < s[r0] then InvalidArg else Ok
    ensures st == Ok ==> r == r0 + s[r0] && w <= r && Unread(a, s, r)
    ensures st == Ok ==> a[..w] == old(a[..w0]) + BlockOut(s[r0], s[r0 + 1..r], r < |s|)
  {
    r, w := r0, w0;
    var code := a[r];
    r := r + 1;
    if code == 0 { return InvalidArg, r, w; }
    var copyLen := code - 1;
    if a.Length - r < copyLen { return InvalidArg, r, w; }
    MoveDown(a, s, r, w, copyLen);
    r, w := r + copyLen, w + copyLen;
    ghost var data := s[r0 + 1..r];
    if code < 0xFF && r < a.Length {
      PutZero(a, s, r, w);
      w := w + 1;
      Regroup(old(a[..w0]), data, [0]);
    } else {
      assert data + [] == data;
    }
    return Ok, r, w;
  }

  lemma BadBlock(before: Bytes, s: Bytes)
    requires s != [] && (s[0] == 0 || |s| < s[0])
    ensures Then(before, Decode(s)) == None
  {
  }

  lemma BlockRead(s: Bytes, r: nat, before: Bytes)
    requires r < |s| && s[r] > 0 && r + s[r] <= |s|
    ensures var code, end := s[r], r + s[r];
            Then(before, Decode(s[r..])) == Then(before + BlockOut(code, s[r + 1..end], end < |s|), Decode(s[end..]))
  {
    var code, end := s[r], r + s[r];
    assert s[r..] == [code] + s[r + 1..end] + s[end..];
    DecodeBlock(code, s[r + 1..end], s[end..]);
    ThenThen(before, BlockOut(code, s[r + 1..end], end < |s|), Decode(s[end..]));
  }
}
