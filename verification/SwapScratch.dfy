/** Exchange of two slots through a scratch slot, chunk by chunk, with the phase of a
    torn chunk deduced from three checksums (toobloader/core/boot_swap.c). */
module SwapScratch {
  import opened FlashModel
  import opened Wrappers
  import opened EffectEngine

  const MAX_LOOPS: nat := 100000

  datatype Config = Config(
    g: Geometry,
    src: nat, dest: nat, scratch: nat,              // bases; scratch is CHIP_SCRATCH_SLOT_ABS_ADDR
    srcSize: nat, destSize: nat, scratchSize: nat,  // the slots around them
    length: nat,
    align: nat,                                     // flash->write_align, 0 = none
    wl: seq<Region>)

  /** BLOCK ALIGNMENT SOLVER: the largest of the three sectors, or the padded tail. */
  function Block(c: Config, off: nat): nat
    requires off <= c.length
  {
    var b := Max(Max(c.g.size(c.dest + off), c.g.size(c.src + off)), c.g.size(c.scratch));
    if off + b > c.length then PadUp(c.length - off, c.align) else b
  }

  /** Where an erase inside a chunk stops: at the chunk's end, or for the last chunk
      somewhere in the slot. */
  ghost predicate ReachInside(c: Config, off: nat, n: nat) {
    && PlaceOk(c.g, c.scratch, c.scratch + n, c.scratch + c.scratchSize)
    && PlaceOk(c.g, c.dest + off, c.dest + off + n, Limit(c, c.dest, c.destSize, off, n))
    && PlaceOk(c.g, c.src + off, c.src + off + n, Limit(c, c.src, c.srcSize, off, n))
  }

  ghost function Limit(c: Config, base: nat, size: nat, off: nat, n: nat): nat {
    if off + n < c.length then base + off + n else base + size
  }

  ghost predicate PlaceOk(g: Geometry, lo: nat, hi: nat, limit: nat) {
    lo <= hi && Erasable(g, lo, hi) && hi <= EraseEnd(g, lo, hi) <= limit <= g.total
  }

  /** The offset the loop of boot_swap_apply has reached after k chunks. */
  ghost function Nth(c: Config, k: nat): (off: nat) {
    if k == 0 then 0
    else
      var prev := Nth(c, k - 1);
      if prev < c.length then prev + Block(c, prev) else prev
  }

  /** The two tests on the start of a chunk. */
  predicate Aligned(c: Config, off: nat) {
    && c.g.size(c.dest + off) > 0 && c.g.start(c.dest + off)
    && c.g.size(c.src + off) > 0 && c.g.start(c.src + off)
    && c.g.size(c.scratch) > 0
  }

  /** A chunk that lies inside the three slots. */
  ghost predicate ChunkInside(c: Config, off: nat, n: nat) {
    0 < n && off + n <= c.destSize && off + n <= c.srcSize && n <= c.scratchSize
  }

  /** Chunk k, if the loop gets to it and does not reject it, lies inside the three
      slots together with every erase it needs. */
  ghost predicate ChunkFits(c: Config, k: nat) {
    var off := Nth(c, k);
    off < c.length && Aligned(c, off) ==>
      ChunkInside(c, off, Block(c, off)) && ReachInside(c, off, Block(c, off))
  }

  ghost predicate ChunksFit(c: Config) {
    forall k: nat :: ChunkFits(c, k)
  }

  /** What the exchange is configured with: three disjoint slots that its chunks fit. */
  ghost predicate Configured(c: Config) {
    SlotsInFlash(c) && Disjoint(c) && ChunksFit(c)
  }

  ghost predicate SlotsInFlash(c: Config) {
    c.src + c.srcSize <= c.g.total && c.dest + c.destSize <= c.g.total && c.scratch + c.scratchSize <= c.g.total
  }

  ghost predicate Disjoint(c: Config) {
    && Apart(c.src, c.srcSize, c.dest, c.destSize)
    && Apart(c.src, c.srcSize, c.scratch, c.scratchSize)
    && Apart(c.dest, c.destSize, c.scratch, c.scratchSize)
  }

  ghost predicate Apart(a: nat, n: nat, b: nat, m: nat) {
    a + n <= b || b + m <= a
  }

  ghost predicate WholeSectors(c: Config) {
    && Boundary(c.g, c.scratch) && Boundary(c.g, c.scratch + c.scratchSize)
    && Boundary(c.g, c.src + c.srcSize) && Boundary(c.g, c.dest + c.destSize)
  }

  ghost predicate ChunkAligned(c: Config, k: nat) {
    var off := Nth(c, k);
    off < c.length ==> Aligned(c, off) && ChunkInside(c, off, Block(c, off))
  }

  /** In slots of whole sectors the chunks fit as soon as each of them starts on a
      sector of both slots, which is what the source tests chunk by chunk. */
  lemma AlignedChunksFit(c: Config)
    requires Tiling(c.g) && WholeSectors(c)
    requires forall k: nat :: ChunkAligned(c, k)
    ensures ChunksFit(c)
  {
    hide Tiling, WholeSectors, ChunkAligned, ChunkFits;
    forall k: nat ensures ChunkFits(c, k) { AlignedChunkFits(c, k); }
  }

  lemma AlignedChunkFits(c: Config, k: nat)
    requires Tiling(c.g) && WholeSectors(c) && ChunkAligned(c, k) && ChunkAligned(c, k + 1)
    ensures ChunkFits(c, k)
  {
    hide Tiling, ReachInside, PadUp;
    var off := Nth(c, k);
    if off < c.length {
      assert Nth(c, k + 1) == off + Block(c, off);
      hide Nth, Block;
      ReachAt(c, off, Block(c, off));
    }
  }

  lemma ReachAt(c: Config, off: nat, n: nat)
    requires Tiling(c.g) && n <= c.scratchSize && off + n <= c.destSize && off + n <= c.srcSize
    requires Boundary(c.g, c.scratch) && Boundary(c.g, c.scratch + c.scratchSize)
    requires Boundary(c.g, c.dest + off) && Boundary(c.g, c.src + off)
    requires Boundary(c.g, Limit(c, c.dest, c.destSize, off, n)) && Boundary(c.g, Limit(c, c.src, c.srcSize, off, n))
    ensures ReachInside(c, off, n)
  {
    TiledErase(c.g, c.scratch, c.scratch + n, c.scratch + c.scratchSize);
    TiledErase(c.g, c.dest + off, c.dest + off + n, Limit(c, c.dest, c.destSize, off, n));
    TiledErase(c.g, c.src + off, c.src + off + n, Limit(c, c.src, c.srcSize, off, n));
  }

  // ---- What flash holds, relative to the images m0 to be exchanged ---------------

  ghost predicate Sized(c: Config, m0: Bytes, m: Bytes) {
    && |m0| == |m| == c.g.total
    && c.src + c.srcSize <= |m| && c.dest + c.destSize <= |m| && c.scratch + c.scratchSize <= |m|
  }

  ghost predicate PrefixExchanged(c: Config, m0: Bytes, m: Bytes, off: nat)
    requires Sized(c, m0, m) && off <= c.srcSize && off <= c.destSize
  {
    && Slice(m, c.dest, off) == Slice(m0, c.src, off)
    && Slice(m, c.src, off) == Slice(m0, c.dest, off)
  }

  ghost predicate RestUntouched(c: Config, m0: Bytes, m: Bytes, off: nat)
    requires Sized(c, m0, m) && off <= c.srcSize && off <= c.destSize
  {
    off < c.length ==>
      && Slice(m, c.dest + off, c.destSize - off) == Slice(m0, c.dest + off, c.destSize - off)
      && Slice(m, c.src + off, c.srcSize - off) == Slice(m0, c.src + off, c.srcSize - off)
  }

  /** Everything below `off` is exchanged and everything from there on is original. */
  ghost predicate Between(c: Config, m0: Bytes, m: Bytes, off: nat) {
    && Sized(c, m0, m) && off <= c.srcSize && off <= c.destSize
    && PrefixExchanged(c, m0, m, off) && RestUntouched(c, m0, m, off)
  }

  /** A chunk [off, off+n) that lies inside the three slots. */
  ghost predicate Chunk(c: Config, m: Bytes, off: nat, n: nat) {
    && |m| == c.g.total
    && c.src + c.srcSize <= |m| && c.dest + c.destSize <= |m| && c.scratch + c.scratchSize <= |m|
    && off < c.length && 0 < n && off + n <= c.srcSize && off + n <= c.destSize && n <= c.scratchSize
  }

  /** The two slots around a chunk, and the scratch. */
  datatype Look = Look(destPre: Bytes, srcPre: Bytes, dest: Bytes, src: Bytes, destRest: Bytes, srcRest: Bytes,
                       scratch: Bytes)

  ghost function LookAt(c: Config, m: Bytes, off: nat, n: nat): Look
    requires Chunk(c, m, off, n)
  {
    Look(Slice(m, c.dest, off), Slice(m, c.src, off),
         Slice(m, c.dest + off, n), Slice(m, c.src + off, n),
         Rest(c, m, c.dest, c.destSize, off + n), Rest(c, m, c.src, c.srcSize, off + n),
         Slice(m, c.scratch, n))
  }

  /** What follows the chunk in a slot; nothing that matters after the last chunk. */
  ghost function Rest(c: Config, m: Bytes, base: nat, size: nat, from: nat): Bytes
    requires base + size <= |m| && from <= size
  {
    if from < c.length then Slice(m, base + from, size - from) else []
  }

  ghost predicate Frame(o: Look, l: Look) {
    l.destPre == o.srcPre && l.srcPre == o.destPre && l.destRest == o.destRest && l.srcRest == o.srcRest
  }

  /** Phase A: both originals are in place, the scratch may hold anything. */
  ghost predicate InA(o: Look, l: Look) {
    Frame(o, l) && l.dest == o.dest && l.src == o.src
  }

  /** Phase B: the scratch holds the old destination, the destination may hold anything. */
  ghost predicate InB(o: Look, l: Look) {
    Frame(o, l) && l.scratch == o.dest && l.src == o.src
  }

  /** Phase C: the destination is final, the source may hold anything. */
  ghost predicate InC(o: Look, l: Look) {
    Frame(o, l) && l.scratch == o.dest && l.dest == o.src
  }

  ghost predicate Swapped(o: Look, l: Look) {
    Frame(o, l) && l.dest == o.src && l.src == o.dest
  }

  /** A chunk whose exchange has been logged and may have been cut anywhere. */
  ghost predicate InFlight(o: Look, l: Look) {
    o.src != o.dest && Torn3(o, l)
  }

  ghost predicate Torn3(o: Look, l: Look) {
    InA(o, l) || InB(o, l) || InC(o, l)
  }

  /** The log entry `log` describes the chunk [off, off+n), which may be cut anywhere. */
  ghost predicate Logged(c: Config, log: Txn, m0: Bytes, m: Bytes, off: nat, n: nat) {
    && Chunk(c, m0, off, n) && Chunk(c, m, off, n)
    && log.crcSrc == Crc(LookAt(c, m0, off, n).src) && log.crcDest == Crc(LookAt(c, m0, off, n).dest)
    && InFlight(LookAt(c, m0, off, n), LookAt(c, m, off, n))
  }

  // ---- Tearing-state deduction ------------------------------------------------------

  datatype Verdict = Finished | Fatal | Run(a: bool, b: bool)   // phase C always runs

  /** The decision of boot_swap_apply:425-468 from the five comparisons. */
  function Deduce(destHasSrc: bool, srcHasDest: bool, scratchHasDest: bool, destHasDest: bool,
                  srcHasSrc: bool): Verdict {
    if destHasSrc && srcHasDest then Finished
    else if destHasSrc then (if scratchHasDest then Run(false, false) else Fatal)
    else if scratchHasDest then (if srcHasSrc then Run(false, true) else Fatal)
    else if destHasDest && srcHasSrc then Run(true, true)
    else Fatal
  }

  function DeduceFrom(s: Bytes, d: Bytes, x: Bytes, crcSrc: Checksum, crcDest: Checksum): Verdict {
    Deduce(Crc(d) == crcSrc, Crc(s) == crcDest, Crc(x) == crcDest, Crc(d) == crcDest, Crc(s) == crcSrc)
  }

  /** From any torn state the deduction is never fatal, and the phase it starts with
      finds its source intact. */
  lemma DeductionSound(o: Look, l: Look)
    requires InFlight(o, l)
    ensures match DeduceFrom(l.src, l.dest, l.scratch, Crc(o.src), Crc(o.dest))
            case Fatal => false
            case Finished => Swapped(o, l)
            case Run(a, b) => AtStage(o, l, FirstStage(a, b)) && (a ==> b)
  {
  }

  /** The deduction is fatal exactly when no phase has an intact source left. */
  lemma FatalExactly(s: Bytes, d: Bytes, x: Bytes, s0: Bytes, d0: Bytes)
    requires s0 != d0
    ensures DeduceFrom(s, d, x, Crc(s0), Crc(d0)) == Fatal <==>
              !(d == d0 && s == s0) && !(x == d0 && s == s0) && !(x == d0 && d == s0) && !(d == s0 && s == d0)
  {
  }

  // ---- Plan and stages of one chunk --------------------------------------------------

  /** boot_swap_plan_chunk */
  function PlanChunk(c: Config, off: nat, n: nat, crcSrc: Checksum, crcDest: Checksum,
                     a: bool, b: bool): (fx: seq<Effect>)
    ensures |fx| == 6 - FirstStage(a, b)
  {
    (if a then Pair(c.dest + off, c.scratch, n, crcDest) else [])
    + (if b then Pair(c.src + off, c.dest + off, n, crcSrc) else [])
    + Pair(c.scratch, c.src + off, n, crcDest)
  }

  /** Phase A is effects 0 and 1 of the full plan, B is 2 and 3, C is 4 and 5. */
  function FirstStage(a: bool, b: bool): nat {
    (if a then 0 else 2) + (if b then 0 else 2)
  }

  function Stage(c: Config, off: nat, n: nat, crcSrc: Checksum, crcDest: Checksum, j: nat): Effect
    requires j < 6
  {
    if j == 0 then Erase(c.scratch, n, ErasedCrc(n))
    else if j == 1 then Copy(c.dest + off, c.scratch, n, crcDest)
    else if j == 2 then Erase(c.dest + off, n, ErasedCrc(n))
    else if j == 3 then Copy(c.src + off, c.dest + off, n, crcSrc)
    else if j == 4 then Erase(c.src + off, n, ErasedCrc(n))
    else Copy(c.scratch, c.src + off, n, crcDest)
  }

  /** What holds just before effect j of the full plan. */
  ghost predicate AtStage(o: Look, l: Look, j: nat) {
    if j < 2 then InA(o, l)
    else if j < 4 then InB(o, l)
    else InC(o, l) && (j == 6 ==> l.src == o.dest)
  }

  /** Changing only [lo, hi) of one slot or of the scratch shows in one place of the look. */
  lemma LookScratch(c: Config, m: Bytes, m': Bytes, off: nat, n: nat, hi: nat)
    requires Chunk(c, m, off, n) && Disjoint(c) && SameOutside(m, m', c.scratch, hi) && hi <= c.scratch + c.scratchSize
    ensures LookAt(c, m', off, n) == LookAt(c, m, off, n).(scratch := Slice(m', c.scratch, n))
  {
    hide Slice;
    SlotKept(c, m, m', off, n, c.dest, c.destSize, c.scratch, hi);
    SlotKept(c, m, m', off, n, c.src, c.srcSize, c.scratch, hi);
  }

  lemma LookDest(c: Config, m: Bytes, m': Bytes, off: nat, n: nat, hi: nat)
    requires Chunk(c, m, off, n) && Disjoint(c) && SameOutside(m, m', c.dest + off, hi)
    requires hi <= Limit(c, c.dest, c.destSize, off, n)
    ensures LookAt(c, m', off, n) == LookAt(c, m, off, n).(dest := Slice(m', c.dest + off, n))
  {
    hide Slice;
    SlotAround(c, m, m', off, n, c.dest, c.destSize, hi);
    SlotKept(c, m, m', off, n, c.src, c.srcSize, c.dest + off, hi);
    SliceKept(m, m', c.dest + off, hi, c.scratch, n);
  }

  lemma LookSrc(c: Config, m: Bytes, m': Bytes, off: nat, n: nat, hi: nat)
    requires Chunk(c, m, off, n) && Disjoint(c) && SameOutside(m, m', c.src + off, hi)
    requires hi <= Limit(c, c.src, c.srcSize, off, n)
    ensures LookAt(c, m', off, n) == LookAt(c, m, off, n).(src := Slice(m', c.src + off, n))
  {
    hide Slice;
    SlotAround(c, m, m', off, n, c.src, c.srcSize, hi);
    SlotKept(c, m, m', off, n, c.dest, c.destSize, c.src + off, hi);
    SliceKept(m, m', c.src + off, hi, c.scratch, n);
  }

  lemma SlotKept(c: Config, m: Bytes, m': Bytes, off: nat, n: nat, base: nat, size: nat, lo: nat, hi: nat)
    requires SameOutside(m, m', lo, hi) && base + size <= |m| && off + n <= size
    requires base + size <= lo || hi <= base
    ensures Slice(m', base, off) == Slice(m, base, off) && Slice(m', base + off, n) == Slice(m, base + off, n)
    ensures Rest(c, m', base, size, off + n) == Rest(c, m, base, size, off + n)
  {
    SliceKept(m, m', lo, hi, base, off);
    SliceKept(m, m', lo, hi, base + off, n);
    SliceKept(m, m', lo, hi, base + off + n, size - off - n);
  }

  lemma SlotAround(c: Config, m: Bytes, m': Bytes, off: nat, n: nat, base: nat, size: nat, hi: nat)
    requires SameOutside(m, m', base + off, hi) && base + size <= |m| && off + n <= size
    requires hi <= Limit(c, base, size, off, n)
    ensures Slice(m', base, off) == Slice(m, base, off)
    ensures Rest(c, m', base, size, off + n) == Rest(c, m, base, size, off + n)
  {
    SliceKept(m, m', base + off, hi, base, off);
    if off + n < c.length { SliceKept(m, m', base + off, hi, base + off + n, size - off - n); }
  }

  /** An effect of the plan, completed or torn, shows in one place of the look. */
  lemma StageLook(c: Config, p: Platform, m: Bytes, m': Bytes, off: nat, n: nat, crcSrc: Checksum, crcDest: Checksum,
                  j: nat)
    requires p.g == c.g && Chunk(c, m, off, n) && Disjoint(c) && ReachInside(c, off, n) && j < 6
    requires Torn(p, Stage(c, off, n, crcSrc, crcDest, j), m, m')
    ensures Chunk(c, m', off, n)
    ensures var l, l' := LookAt(c, m, off, n), LookAt(c, m', off, n);
            l' == if j < 2 then l.(scratch := l'.scratch) else if j < 4 then l.(dest := l'.dest) else l.(src := l'.src)
  {
    hide Slice, Erasable;
    var hi := Reach(p, Stage(c, off, n, crcSrc, crcDest, j));
    if j < 2 {
      LookScratch(c, m, m', off, n, hi);
    } else if j < 4 {
      LookDest(c, m, m', off, n, hi);
    } else {
      LookSrc(c, m, m', off, n, hi);
    }
  }

  /** A completed copy of the plan shows what it copied. */
  lemma StageCopied(c: Config, p: Platform, m: Bytes, m': Bytes, off: nat, n: nat, o: Look, j: nat)
    requires p.g == c.g && Chunk(c, m', off, n) && j < 6
    requires Done(p, Stage(c, off, n, Crc(o.src), Crc(o.dest), j), m, m')
    ensures var l' := LookAt(c, m', off, n);
            (j == 1 ==> l'.scratch == o.dest) && (j == 3 ==> l'.dest == o.src) && (j == 5 ==> l'.src == o.dest)
  {
  }

  /** A torn effect of the plan keeps its phase; a completed one reaches the next stage. */
  lemma StageSteps(c: Config, p: Platform, o: Look, m: Bytes, m': Bytes, off: nat, n: nat, j: nat)
    requires p.g == c.g && Chunk(c, m, off, n) && Disjoint(c) && ReachInside(c, off, n) && j < 6
    requires AtStage(o, LookAt(c, m, off, n), j)
    requires Torn(p, Stage(c, off, n, Crc(o.src), Crc(o.dest), j), m, m')
    ensures Chunk(c, m', off, n)
    ensures var l' := LookAt(c, m', off, n); if j < 2 then InA(o, l') else if j < 4 then InB(o, l') else InC(o, l')
    ensures Done(p, Stage(c, off, n, Crc(o.src), Crc(o.dest), j), m, m') ==> AtStage(o, LookAt(c, m', off, n), j + 1)
  {
    StageLook(c, p, m, m', off, n, Crc(o.src), Crc(o.dest), j);
    if Done(p, Stage(c, off, n, Crc(o.src), Crc(o.dest), j), m, m') {
      StageCopied(c, p, m, m', off, n, o, j);
    }
  }

  /** A copy of the plan always finds its source as logged. */
  lemma StageHasSource(c: Config, o: Look, m: Bytes, off: nat, n: nat, j: nat)
    requires Chunk(c, m, off, n) && j < 6 && AtStage(o, LookAt(c, m, off, n), j)
    ensures HasSource(m, Stage(c, off, n, Crc(o.src), Crc(o.dest), j))
  {
    LookParts(c, m, off, n);
    hide LookAt, Chunk, Frame, Slice;
  }

  ghost predicate HasSource(m: Bytes, e: Effect) {
    e.Copy? ==> e.src + e.len <= |m| && CrcOf(m, e.src, e.len) == e.post
  }

  lemma LookParts(c: Config, m: Bytes, off: nat, n: nat)
    requires Chunk(c, m, off, n)
    ensures c.dest + off + n <= |m| && c.src + off + n <= |m| && c.scratch + n <= |m|
    ensures var l := LookAt(c, m, off, n);
            l.dest == Slice(m, c.dest + off, n) && l.src == Slice(m, c.src + off, n)
            && l.scratch == Slice(m, c.scratch, n)
  {
  }

  ghost predicate IsPlan(c: Config, off: nat, n: nat, crcSrc: Checksum, crcDest: Checksum, fx: seq<Effect>,
                         first: nat) {
    |fx| + first == 6 && forall i :: 0 <= i < |fx| ==> fx[i] == Stage(c, off, n, crcSrc, crcDest, first + i)
  }

  lemma PlanIsStages(c: Config, off: nat, n: nat, crcSrc: Checksum, crcDest: Checksum, a: bool, b: bool)
    requires a ==> b
    ensures IsPlan(c, off, n, crcSrc, crcDest, PlanChunk(c, off, n, crcSrc, crcDest, a, b), FirstStage(a, b))
  {
  }

  /** Each effect of the plan works on a place of its own. */
  lemma StagePlace(c: Config, m: Bytes, off: nat, n: nat, crcSrc: Checksum, crcDest: Checksum, j: nat)
    requires Chunk(c, m, off, n) && Disjoint(c) && ReachInside(c, off, n) && j < 6
    ensures var e := Stage(c, off, n, crcSrc, crcDest, j);
            && e.dst + e.len <= c.g.total && Erasable(c.g, e.dst, e.dst + e.len)
            && (e.Copy? ==> e.src + e.len <= c.g.total && Apart(e.src, e.len, e.dst, e.len))
  {
    hide EraseEnd;
  }

  lemma PlanIsOk(c: Config, p: Platform, off: nat, n: nat, crcSrc: Checksum, crcDest: Checksum, fx: seq<Effect>,
                 first: nat)
    requires p.g == c.g && Chunk(c, p.mem, off, n) && Disjoint(c) && ReachInside(c, off, n)
    requires first % 2 == 0 && IsPlan(c, off, n, crcSrc, crcDest, fx, first)
    ensures PlanOk(p, fx)
  {
    hide Erasable, Chunk, ReachInside, Disjoint;
    forall i | 0 <= i < |fx| ensures EffectOk(p, fx, i) {
      assert fx[i] == Stage(c, off, n, crcSrc, crcDest, first + i);
      StagePlace(c, p.mem, off, n, crcSrc, crcDest, first + i);
      if (first + i) % 2 == 1 { assert fx[i-1] == Stage(c, off, n, crcSrc, crcDest, first + i - 1); }
    }
  }

  /** Every image a run of the plan goes through is at its stage. */
  lemma {:induction false} TraceStages(c: Config, p: Platform, o: Look, off: nat, n: nat, fx: seq<Effect>, first: nat,
                                       trace: seq<Bytes>, k: nat)
    requires p.g == c.g && Disjoint(c) && ReachInside(c, off, n)
    requires IsPlan(c, off, n, Crc(o.src), Crc(o.dest), fx, first)
    requires Trace(p, fx, trace) && k < |trace|
    requires Chunk(c, trace[0], off, n) && AtStage(o, LookAt(c, trace[0], off, n), first)
    ensures Chunk(c, trace[k], off, n) && AtStage(o, LookAt(c, trace[k], off, n), first + k)
  {
    if k > 0 {
      TraceStages(c, p, o, off, n, fx, first, trace, k - 1);
      assert Done(p, fx[k-1], trace[k-1], trace[k]);
      StageSteps(c, p, o, trace[k-1], trace[k], off, n, first + k - 1);
    }
  }

  /** What a cut or failed effect leaves. */
  lemma StopLeaves(c: Config, p: Platform, o: Look, off: nat, n: nat, fx: seq<Effect>, first: nat, k: nat, m: Bytes,
                   m': Bytes)
    requires p.g == c.g && Disjoint(c) && ReachInside(c, off, n) && k < |fx|
    requires IsPlan(c, off, n, Crc(o.src), Crc(o.dest), fx, first)
    requires Chunk(c, m, off, n) && AtStage(o, LookAt(c, m, off, n), first + k) && StoppedIn(p, fx, k, m, m')
    ensures Chunk(c, m', off, n) && Torn3(o, LookAt(c, m', off, n))
    ensures !SourceLost(p, fx, k, m)
  {
    assert fx[k] == Stage(c, off, n, Crc(o.src), Crc(o.dest), first + k);
    StageSteps(c, p, o, m, m', off, n, first + k);
    StageHasSource(c, o, m, off, n, first + k);
  }

  predicate Whitelisted(c: Config, off: nat, n: nat) {
    Allowed(c.wl, c.scratch, n) && Allowed(c.wl, c.dest + off, n) && Allowed(c.wl, c.src + off, n)
  }

  /** A chunk of more sectors than the erase loop guard lets through. */
  ghost predicate GuardTrips(c: Config, off: nat, n: nat) {
    || SectorCount(c.g, c.scratch, c.scratch + n) >= MAX_ERASE_LOOPS
    || SectorCount(c.g, c.dest + off, c.dest + off + n) >= MAX_ERASE_LOOPS
    || SectorCount(c.g, c.src + off, c.src + off + n) >= MAX_ERASE_LOOPS
  }

  lemma StageStops(c: Config, p: Platform, off: nat, n: nat, crcSrc: Checksum, crcDest: Checksum, j: nat)
    requires p.g == c.g && j < 6
    ensures TooManySectors(p, Stage(c, off, n, crcSrc, crcDest, j)) ==> GuardTrips(c, off, n)
    ensures var e := Stage(c, off, n, crcSrc, crcDest, j); !Allowed(c.wl, e.dst, e.len) ==> !Whitelisted(c, off, n)
  {
  }

  // ---- What a run may touch ----------------------------------------------------------

  /** Byte a is within the erase of n bytes at `base`, which the whitelist allows. */
  ghost predicate Place(c: Config, base: nat, n: nat, a: int) {
    Allowed(c.wl, base, n) && base <= a < EraseEnd(c.g, base, base + n)
  }

  ghost predicate InPlaces(c: Config, off: nat, n: nat, a: int) {
    Place(c, c.scratch, n, a) || Place(c, c.dest + off, n, a) || Place(c, c.src + off, n, a)
  }

  /** Flash changed only in allowed places of the chunk [off, off+n). */
  ghost predicate ByChunk(c: Config, off: nat, n: nat, m: Bytes, m': Bytes) {
    |m| == |m'| && forall a :: 0 <= a < |m| && m[a] != m'[a] ==> InPlaces(c, off, n, a)
  }

  ghost predicate AtChunk(c: Config, k: nat, a: int) {
    var off := Nth(c, k);
    off < c.length && Aligned(c, off) && InPlaces(c, off, Block(c, off), a)
  }

  /** Flash changed only in allowed places of chunks that the loop does not reject. */
  ghost predicate ByChunks(c: Config, m: Bytes, m': Bytes) {
    |m| == |m'| && forall a :: 0 <= a < |m| && m[a] != m'[a] ==> exists k: nat :: AtChunk(c, k, a)
  }

  lemma PlanByChunk(c: Config, p: Platform, off: nat, n: nat, crcSrc: Checksum, crcDest: Checksum, fx: seq<Effect>,
                    first: nat, m: Bytes, m': Bytes)
    requires p.g == c.g && IsPlan(c, off, n, crcSrc, crcDest, fx, first) && ReachInside(c, off, n)
    requires ByEffects(p, fx, c.wl, m, m')
    ensures ByChunk(c, off, n, m, m')
  {
    hide Allowed, EraseEnd, Erasable;
    forall a | 0 <= a < |m| && m[a] != m'[a] ensures InPlaces(c, off, n, a) {
      var i :| 0 <= i < |fx| && Licensed(p, c.wl, fx[i], a);
      assert fx[i] == Stage(c, off, n, crcSrc, crcDest, first + i);
    }
  }

  lemma Unchanged(c: Config, m: Bytes)
    ensures ByChunks(c, m, m)
  {
  }

  lemma ChunkByChunks(c: Config, k: nat, m0: Bytes, m: Bytes, m': Bytes)
    requires ByChunks(c, m0, m) && Nth(c, k) < c.length && Aligned(c, Nth(c, k))
    requires ByChunk(c, Nth(c, k), Block(c, Nth(c, k)), m, m')
    ensures ByChunks(c, m0, m')
  {
    hide InPlaces, Aligned, Nth, Block;
    forall a | 0 <= a < |m0| && m0[a] != m'[a] ensures exists j: nat :: AtChunk(c, j, a) {
      if m[a] != m'[a] { assert AtChunk(c, k, a); }
    }
  }

  /** Byte a of a slot. */
  ghost predicate InSlot(base: nat, size: nat, a: int) {
    base <= a < base + size
  }

  /** Flash outside the three slots is as it was. */
  ghost predicate OnlySlots(c: Config, m: Bytes, m': Bytes) {
    && |m| == |m'|
    && forall a :: 0 <= a < |m| && m[a] != m'[a] ==>
       InSlot(c.scratch, c.scratchSize, a) || InSlot(c.dest, c.destSize, a) || InSlot(c.src, c.srcSize, a)
  }

  lemma AtChunkInside(c: Config, k: nat, a: int)
    requires ChunksFit(c) && AtChunk(c, k, a)
    ensures var off := Nth(c, k);
            var n := Block(c, off);
            || InSlot(c.scratch, c.scratchSize, a)
            || (Allowed(c.wl, c.dest + off, n) && InSlot(c.dest, c.destSize, a)
                && c.dest + off <= a < Limit(c, c.dest, c.destSize, off, n))
            || (Allowed(c.wl, c.src + off, n) && InSlot(c.src, c.srcSize, a)
                && c.src + off <= a < Limit(c, c.src, c.srcSize, off, n))
  {
    assert ChunkFits(c, k);
    hide Nth, Block, Allowed, EraseEnd, Erasable;
  }

  lemma ChunksOnlySlots(c: Config, m: Bytes, m': Bytes)
    requires ChunksFit(c) && ByChunks(c, m, m')
    ensures OnlySlots(c, m, m')
  {
    hide AtChunk, ChunksFit, InSlot;
    forall a | 0 <= a < |m| && m[a] != m'[a]
      ensures InSlot(c.scratch, c.scratchSize, a) || InSlot(c.dest, c.destSize, a) || InSlot(c.src, c.srcSize, a)
    {
      var k: nat :| AtChunk(c, k, a);
      AtChunkInside(c, k, a);
    }
  }

  lemma SlotsKept(c: Config, m: Bytes)
    ensures OnlySlots(c, m, m)
  {
  }

  lemma OnlySlotsTrans(c: Config, m0: Bytes, m1: Bytes, m2: Bytes)
    requires OnlySlots(c, m0, m1) && OnlySlots(c, m1, m2)
    ensures OnlySlots(c, m0, m2)
  {
    hide InSlot;
    forall a | 0 <= a < |m0| && m0[a] != m2[a]
      ensures InSlot(c.scratch, c.scratchSize, a) || InSlot(c.dest, c.destSize, a) || InSlot(c.src, c.srcSize, a)
    {
      assert m0[a] != m1[a] || m1[a] != m2[a];
    }
  }

  /** Chunk k differs in the two images. */
  ghost predicate Differs(c: Config, k: nat, m0: Bytes) {
    var off := Nth(c, k);
    && off < c.length && c.src + c.srcSize <= |m0| && c.dest + c.destSize <= |m0|
    && off + Block(c, off) <= c.srcSize && off + Block(c, off) <= c.destSize
    && Slice(m0, c.dest + off, Block(c, off)) != Slice(m0, c.src + off, Block(c, off))
  }

  /** An exchanged chunk that differs was whitelisted in both slots. */
  ghost predicate Permitted(c: Config, k: nat, m0: Bytes) {
    var off := Nth(c, k);
    Differs(c, k, m0) ==> Allowed(c.wl, c.dest + off, Block(c, off)) && Allowed(c.wl, c.src + off, Block(c, off))
  }

  lemma ExchangedIsPermitted(c: Config, m0: Bytes, m: Bytes, end: nat, k: nat)
    requires ChunksFit(c) && Disjoint(c) && ByChunks(c, m0, m) && Between(c, m0, m, Nth(c, end))
             && c.length <= Nth(c, end)
    ensures Permitted(c, k, m0)
  {
    hide Nth, Block, Between, ChunksFit, Disjoint, ByChunks, Slice, Allowed;
    if Differs(c, k, m0) {
      var off, n := Nth(c, k), Block(c, Nth(c, k));
      NthNext(c, k);
      if end <= k { NthGrows(c, end, k); } else { NthGrows(c, k + 1, end); }
      hide Differs;
      var x := ExchangedByte(c, m0, m, Nth(c, end), off, n);
      ChunkOfByte(c, m0, m, k, off, n, c.dest + x);
      ChunkOfByte(c, m0, m, k, off, n, c.src + x);
    }
  }

  lemma NthNext(c: Config, k: nat)
    requires Nth(c, k) < c.length
    ensures Nth(c, k + 1) == Nth(c, k) + Block(c, Nth(c, k))
  {
  }

  /** Where two exchanged blocks differ, both slots have changed. */
  lemma ExchangedByte(c: Config, m0: Bytes, m: Bytes, end: nat, off: nat, n: nat) returns (x: nat)
    requires Between(c, m0, m, end) && off + n <= end
    requires Slice(m0, c.dest + off, n) != Slice(m0, c.src + off, n)
    ensures off <= x < off + n && c.dest + x < |m| && c.src + x < |m|
    ensures m[c.dest + x] != m0[c.dest + x] && m[c.src + x] != m0[c.src + x]
  {
    var d, s := Slice(m0, c.dest + off, n), Slice(m0, c.src + off, n);
    var i :| 0 <= i < n && d[i] != s[i];
    x := off + i;
    assert Slice(m, c.dest, end)[x] == Slice(m0, c.src, end)[x];
    assert Slice(m, c.src, end)[x] == Slice(m0, c.dest, end)[x];
  }

  /** A byte of chunk k in one of the slots changed, so that place was allowed. */
  lemma ChunkOfByte(c: Config, m0: Bytes, m: Bytes, k: nat, off: nat, n: nat, a: nat)
    requires ChunksFit(c) && Disjoint(c) && ByChunks(c, m0, m) && off == Nth(c, k) < c.length && n == Block(c, off)
    requires off + n <= c.srcSize && off + n <= c.destSize && a < |m0| && m0[a] != m[a]
    ensures c.dest + off <= a < c.dest + off + n ==> Allowed(c.wl, c.dest + off, n)
    ensures c.src + off <= a < c.src + off + n ==> Allowed(c.wl, c.src + off, n)
  {
    hide Nth, Block, Allowed, ChunksFit, AtChunk;
    var j: nat :| AtChunk(c, j, a);
    AtChunkInside(c, j, a);
    AtChunkBelow(c, j, a);
    hide ByChunks;
    if j < k {
      NthNext(c, j);
      NthGrows(c, j + 1, k);
    }
    if k < j {
      NthNext(c, k);
      NthGrows(c, k + 1, j);
    }
  }

  lemma AtChunkBelow(c: Config, k: nat, a: int)
    requires AtChunk(c, k, a)
    ensures Nth(c, k) < c.length
  {
  }

  /** Carry out the phases the deduction asked for. */
  method RunPhases(p: Platform, c: Config, off: nat, n: nat, crcSrc: Checksum, crcDest: Checksum,
                   a: bool, b: bool, arena: nat, ghost o: Look) returns (st: Status)
    requires p.Valid() && p.g == c.g && arena > 0 && (a ==> b) && o.src != o.dest
    requires Chunk(c, p.mem, off, n) && Disjoint(c) && ReachInside(c, off, n)
    requires crcSrc == Crc(o.src) && crcDest == Crc(o.dest)
    requires AtStage(o, LookAt(c, p.mem, off, n), FirstStage(a, b))
    modifies p`mem, p`cuts
    ensures p.Valid() && Chunk(c, p.mem, off, n) && InFlight(o, LookAt(c, p.mem, off, n))
    ensures st == Ok ==> AtStage(o, LookAt(c, p.mem, off, n), 6)
    ensures st == Ok || st == PowerCut || st == FlashBounds || st == FlashHw
    ensures st == FlashBounds ==> !Whitelisted(c, off, n)
    ensures st == FlashHw ==> GuardTrips(c, off, n)
    ensures ByChunk(c, off, n, old(p.mem), p.mem)
    ensures if st == PowerCut then p.cuts < old(p.cuts) else p.cuts == old(p.cuts)
  {
    hide ByChunk, ByEffects, Allowed, Slice;
    var fx := PlanChunk(c, off, n, crcSrc, crcDest, a, b);
    ghost var first, trace := FirstStage(a, b), [];
    PlanIsStages(c, off, n, crcSrc, crcDest, a, b);
    PlanIsOk(c, p, off, n, crcSrc, crcDest, fx, first);
    st, trace := Execute(p, fx, c.wl, arena);
    PlanByChunk(c, p, off, n, crcSrc, crcDest, fx, first, old(p.mem), p.mem);
    ghost var k := |trace| - 1;
    TraceStages(c, p, o, off, n, fx, first, trace, k);
    if st != Ok {
      StopLeaves(c, p, o, off, n, fx, first, k, trace[k], p.mem);
      StageStops(c, p, off, n, crcSrc, crcDest, first + k);
    }
  }

  // ---- The exchange ------------------------------------------------------------------

  /** Between two chunks, as the next chunk sees it. */
  lemma BetweenIsInA(c: Config, m0: Bytes, m: Bytes, off: nat, n: nat)
    requires Between(c, m0, m, off) && Chunk(c, m0, off, n)
    ensures Chunk(c, m, off, n) && InA(LookAt(c, m0, off, n), LookAt(c, m, off, n))
  {
    RestParts(m0, m, c.dest + off, c.destSize - off, n);
    RestParts(m0, m, c.src + off, c.srcSize - off, n);
  }

  lemma RestParts(m0: Bytes, m: Bytes, a: nat, k: nat, n: nat)
    requires n <= k && a + k <= |m0| == |m| && Slice(m, a, k) == Slice(m0, a, k)
    ensures Slice(m, a, n) == Slice(m0, a, n)
    ensures Slice(m, a + n, k - n) == Slice(m0, a + n, k - n)
  {
    assert Slice(m, a, n) == Slice(m, a, k)[..n] && Slice(m0, a, n) == Slice(m0, a, k)[..n];
    assert Slice(m, a + n, k - n) == Slice(m, a, k)[n..] && Slice(m0, a + n, k - n) == Slice(m0, a, k)[n..];
  }

  /** A chunk that shows both new images is behind us. */
  lemma SwappedIsBetween(c: Config, m0: Bytes, m: Bytes, off: nat, n: nat)
    requires Chunk(c, m0, off, n) && Chunk(c, m, off, n) && Swapped(LookAt(c, m0, off, n), LookAt(c, m, off, n))
    ensures Between(c, m0, m, off + n)
  {
    hide Slice;
    Joined(m, c.dest, off, n);
    Joined(m, c.src, off, n);
    Joined(m0, c.dest, off, n);
    Joined(m0, c.src, off, n);
  }

  /** The two images, exchanged. */
  ghost predicate Exchanged(c: Config, m0: Bytes, m: Bytes) {
    && Sized(c, m0, m) && c.length <= c.srcSize && c.length <= c.destSize
    && PrefixExchanged(c, m0, m, c.length)
  }

  lemma BetweenAtEnd(c: Config, m0: Bytes, m: Bytes, off: nat)
    requires Between(c, m0, m, off) && c.length <= off
    ensures Exchanged(c, m0, m)
  {
    RestParts(m0, m, 0, 0, 0);
    assert Slice(m, c.dest, c.length) == Slice(m, c.dest, off)[..c.length];
    assert Slice(m0, c.src, c.length) == Slice(m0, c.src, off)[..c.length];
    assert Slice(m, c.src, c.length) == Slice(m, c.src, off)[..c.length];
    assert Slice(m0, c.dest, c.length) == Slice(m0, c.dest, off)[..c.length];
  }

  /** No alignment test, whitelist or loop guard stops chunk k. */
  ghost predicate ChunkClean(c: Config, k: nat) {
    var off := Nth(c, k);
    off < c.length ==>
      && k + 1 < MAX_LOOPS && Aligned(c, off)
      && Whitelisted(c, off, Block(c, off)) && !GuardTrips(c, off, Block(c, off))
  }

  ghost predicate Clean(c: Config) {
    forall k: nat :: ChunkClean(c, k)
  }

  /** What the deduction finds in a logged chunk. */
  lemma LoggedDeduction(c: Config, txn: Txn, m0: Bytes, m: Bytes, off: nat, n: nat)
    requires Logged(c, txn, m0, m, off, n)
    ensures match DeduceFrom(Slice(m, c.src + off, n), Slice(m, c.dest + off, n), Slice(m, c.scratch, n),
                             txn.crcSrc, txn.crcDest)
            case Fatal => false
            case Finished => Between(c, m0, m, off + n)
            case Run(a, b) => (a ==> b) && AtStage(LookAt(c, m0, off, n), LookAt(c, m, off, n), FirstStage(a, b))
  {
    hide Slice, Between, Frame, DeduceFrom;
    var o, l := LookAt(c, m0, off, n), LookAt(c, m, off, n);
    DeductionSound(o, l);
    if DeduceFrom(l.src, l.dest, l.scratch, Crc(o.src), Crc(o.dest)).Finished? { SwappedIsBetween(c, m0, m, off, n); }
  }

  /** The deduction and what it decides. */
  method FinishChunk(p: Platform, c: Config, off: nat, n: nat, txn: Txn, arena: nat, ghost m0: Bytes)
    returns (st: Status)
    requires p.Valid() && p.g == c.g && arena > 0 && Disjoint(c) && ReachInside(c, off, n)
    requires Logged(c, txn, m0, p.mem, off, n)
    modifies p`mem, p`cuts
    ensures p.Valid() && Logged(c, txn, m0, p.mem, off, n)
    ensures st == Ok ==> Between(c, m0, p.mem, off + n)
    ensures st == Ok || st == PowerCut || (st == FlashBounds && !Whitelisted(c, off, n))
            || (st == FlashHw && GuardTrips(c, off, n))
    ensures ByChunk(c, off, n, old(p.mem), p.mem)
    ensures if st == PowerCut then p.cuts < old(p.cuts) else p.cuts == old(p.cuts)
  {
    LoggedDeduction(c, txn, m0, p.mem, off, n);
    var verdict := DeduceFrom(Slice(p.mem, c.src + off, n), Slice(p.mem, c.dest + off, n), Slice(p.mem, c.scratch, n),
                              txn.crcSrc, txn.crcDest);
    if verdict.Finished? { return Ok; }
    st := RunPhases(p, c, off, n, txn.crcSrc, txn.crcDest, verdict.a, verdict.b, arena, LookAt(c, m0, off, n));
    if st == Ok { SwappedIsBetween(c, m0, p.mem, off, n); }
  }

  /** The newest log entry describes the chunk at `off`, which may be cut anywhere. */
  ghost predicate Begun(c: Config, log: Txn, m0: Bytes, m: Bytes, off: nat, n: nat) {
    log.intent != OtherIntent && log.chunk == off && log.shield && Logged(c, log, m0, m, off, n)
  }

  /** What the newest log entry promises about flash: it names the start of chunk k,
      which is in flight or not begun. */
  ghost predicate Resumable(c: Config, k: nat, log: Txn, m0: Bytes, m: Bytes) {
    var off := Nth(c, k);
    && log.intent != OtherIntent && log.chunk == off
    && if log.shield then off < c.length && Logged(c, log, m0, m, off, Block(c, off)) else Between(c, m0, m, off)
  }

  /** A chunk whose two blocks are equal in the images to be exchanged. */
  ghost predicate Twins(c: Config, m0: Bytes, off: nat, n: nat) {
    Chunk(c, m0, off, n) && LookAt(c, m0, off, n).src == LookAt(c, m0, off, n).dest
  }

  /** Chunk k, if the loop gets to it, is such a chunk. */
  ghost predicate Same(c: Config, k: nat, m0: Bytes) {
    var off := Nth(c, k);
    off < c.length ==> Twins(c, m0, off, Block(c, off))
  }

  ghost predicate SameAfter(c: Config, k: nat, m0: Bytes) {
    forall j: nat :: k < j ==> Same(c, j, m0)
  }

  /** The newest entry names chunk k0, or a later chunk that differs. */
  ghost predicate Names(c: Config, k0: nat, k: nat, m0: Bytes) {
    k == k0 || (k0 < k && !Same(c, k, m0))
  }

  /** The loop has ended after k chunks, and every chunk past kLog was a twin. */
  ghost predicate Complete(c: Config, k: nat, kLog: nat, m0: Bytes, m: Bytes) {
    c.length <= Nth(c, k) && Between(c, m0, m, Nth(c, k)) && SameAfter(c, kLog, m0)
  }

  lemma {:induction false} NthGrows(c: Config, j: nat, k: nat)
    requires j <= k
    ensures Nth(c, j) <= Nth(c, k)
    ensures c.length <= Nth(c, j) ==> Nth(c, k) == Nth(c, j)
    decreases k
  {
    if j < k { NthGrows(c, j, k - 1); }
  }

  /** The identity skip, or else the checkpoint that must precede any damage. */
  method BeginChunk(p: Platform, c: Config, txn0: Txn, off: nat, n: nat, arena: nat, ghost m0: Bytes)
    returns (st: Status, txn: Txn, skip: bool)
    requires p.Valid() && p.g == c.g && arena >= 512 && txn0.intent != OtherIntent
    requires Chunk(c, m0, off, n) && Between(c, m0, p.mem, off)
    modifies p`log, p`cuts
    ensures st == Ok || st == PowerCut
    ensures skip ==> st == Ok && Between(c, m0, p.mem, off + n) && p.log == old(p.log) && txn == txn0
    ensures skip ==> Twins(c, m0, off, n)
    ensures !skip ==> Begun(c, txn, m0, p.mem, off, n) && txn.intent == txn0.intent
    ensures !skip ==> p.log == txn || (p.log == old(p.log) && st == PowerCut)
    ensures if st == PowerCut then p.cuts < old(p.cuts) else p.cuts == old(p.cuts)
  {
    hide Slice, Between;
    BetweenIsInA(c, m0, p.mem, off, n);
    var crcSrc := CrcOf(p.mem, c.src + off, n);
    var crcDest := CrcOf(p.mem, c.dest + off, n);
    if crcSrc == crcDest {
      var same := BlocksIdentical(p, c.dest + off, c.src + off, n, arena, arena / 2);
      if same {
        SwappedIsBetween(c, m0, p.mem, off, n);
        return Ok, txn0, true;
      }
    }
    txn := txn0.(chunk := off, crcSrc := crcSrc, crcDest := crcDest, shield := true);
    st := p.Append(txn);
    skip := false;
  }

  /** One chunk, from the checkpoint to the last copy.  `begun` says that the newest
      log entry describes this chunk. */
  method SwapChunk(p: Platform, c: Config, txn0: Txn, off: nat, n: nat, arena: nat, ghost m0: Bytes)
    returns (st: Status, txn: Txn, ghost begun: bool)
    requires p.Valid() && p.g == c.g && arena >= 512 && Disjoint(c) && ReachInside(c, off, n)
    requires Chunk(c, m0, off, n) && txn0.intent != OtherIntent
    requires if txn0.chunk == off && txn0.shield then txn0 == p.log && Begun(c, txn0, m0, p.mem, off, n)
             else Between(c, m0, p.mem, off)
    modifies p
    ensures p.Valid()
    ensures st == Ok ==> Between(c, m0, p.mem, off + n) && (begun || Twins(c, m0, off, n))
    ensures if begun then Begun(c, p.log, m0, p.mem, off, n) else p.log == old(p.log) && p.mem == old(p.mem)
    ensures txn.intent == txn0.intent && (txn == txn0 || txn.chunk == off)
    ensures st == Ok || st == PowerCut || (st == FlashBounds && !Whitelisted(c, off, n))
            || (st == FlashHw && GuardTrips(c, off, n))
    ensures ByChunk(c, off, n, old(p.mem), p.mem)
    ensures if st == PowerCut then p.cuts < old(p.cuts) else p.cuts == old(p.cuts)
  {
    txn, begun := txn0, txn0.chunk == off && txn0.shield;
    if !(txn.chunk == off && txn.shield) {
      var skip;
      st, txn, skip := BeginChunk(p, c, txn, off, n, arena, m0);
      begun := !skip && p.log == txn;
      if skip || st != Ok { return; }
    }
    st := FinishChunk(p, c, off, n, txn, arena, m0);
  }

  /** Where the loop stands before chunk k: `txn` is what it would log next, kLog the
      chunk the newest entry names. */
  ghost predicate Standing(c: Config, k: nat, kLog: nat, txn: Txn, log: Txn, m0: Bytes, m: Bytes) {
    && Resumable(c, kLog, log, m0, m) && txn.intent != OtherIntent && txn.chunk <= Nth(c, k)
    && if txn.chunk == Nth(c, k) && txn.shield then txn == log && kLog == k else Between(c, m0, m, Nth(c, k))
  }

  lemma StandingAtStart(c: Config, k: nat, log: Txn, m0: Bytes, m: Bytes)
    requires Resumable(c, k, log, m0, m)
    ensures log.chunk == Nth(c, k) && Standing(c, k, k, log, log, m0, m)
  {
  }

  lemma StandingAtEnd(c: Config, k: nat, kLog: nat, txn: Txn, log: Txn, m0: Bytes, m: Bytes)
    requires Standing(c, k, kLog, txn, log, m0, m) && c.length <= Nth(c, k)
    requires forall j: nat :: kLog < j < k ==> Same(c, j, m0)
    ensures Complete(c, k, kLog, m0, m)
  {
    forall j: nat | kLog < j ensures Same(c, j, m0) {
      if k <= j { NthGrows(c, k, j); }
    }
  }

  lemma CompleteIsExchanged(c: Config, k: nat, kLog: nat, m0: Bytes, m: Bytes)
    requires Complete(c, k, kLog, m0, m)
    ensures Exchanged(c, m0, m)
  {
    BetweenAtEnd(c, m0, m, Nth(c, k));
  }

  lemma TooManyChunks(c: Config, k: nat)
    requires Nth(c, k) < c.length && MAX_LOOPS <= k + 1
    ensures !ChunkClean(c, k)
  {
  }

  /** One round of the loop of boot_swap_apply. */
  method Round(p: Platform, c: Config, txn0: Txn, off: nat, arena: nat, ghost k: nat, ghost kLog: nat, ghost m0: Bytes)
    returns (st: Status, txn: Txn, next: nat, ghost kLog': nat)
    requires p.Valid() && p.g == c.g && arena >= 512 && Disjoint(c) && SlotsInFlash(c) && ChunkFits(c, k)
    requires |m0| == c.g.total && off == Nth(c, k) < c.length && Standing(c, k, kLog, txn0, p.log, m0, p.mem)
    modifies p
    ensures p.Valid() && next == Nth(c, k + 1)
    ensures st == Ok ==> next > off && Standing(c, k + 1, kLog', txn, p.log, m0, p.mem)
    ensures st != Ok ==> Resumable(c, kLog', p.log, m0, p.mem)
    ensures kLog' == kLog || (kLog' == k && !Same(c, k, m0))
    ensures st == Ok ==> kLog' == k || Same(c, k, m0)
    ensures st == Ok || st == PowerCut || ((st == FlashBounds || st == FlashHw) && !ChunkClean(c, k))
    ensures p.mem == old(p.mem) || (Aligned(c, off) && ByChunk(c, off, Block(c, off), old(p.mem), p.mem))
    ensures if st == PowerCut then p.cuts < old(p.cuts) else p.cuts == old(p.cuts)
  {
    hide Logged, Between, ReachInside, Chunk, GuardTrips, Whitelisted, Block, Aligned, Twins, ByChunk;
    var n := Block(c, off);
    txn, next, kLog' := txn0, off + n, kLog;
    if !Aligned(c, off) { return FlashHw, txn, next, kLog; }
    ghost var begun;
    st, txn, begun := SwapChunk(p, c, txn, off, n, arena, m0);
    kLog' := if begun then k else kLog;
    if begun { LoggedDiffers(c, p.log, m0, p.mem, off, n); }
  }

  lemma LoggedDiffers(c: Config, log: Txn, m0: Bytes, m: Bytes, off: nat, n: nat)
    requires Logged(c, log, m0, m, off, n)
    ensures !Twins(c, m0, off, n)
  {
  }

  /** The loop of boot_swap_apply, from the chunk of the newest log entry. */
  method ExchangeFrom(p: Platform, c: Config, arena: nat, ghost k0: nat, ghost m0: Bytes)
    returns (st: Status, ghost k: nat, ghost kLog: nat)
    requires p.Valid() && p.g == c.g && arena >= 512 && Configured(c) && |m0| == c.g.total
    requires Resumable(c, k0, p.log, m0, p.mem)
    modifies p
    ensures p.Valid() && Resumable(c, kLog, p.log, m0, p.mem) && Names(c, k0, kLog, m0)
    ensures st == Ok || st == PowerCut || ((st == FlashBounds || st == FlashHw) && !ChunkClean(c, k))
    ensures st == Ok ==> Complete(c, k, kLog, m0, p.mem) && k - k0 < MAX_LOOPS
    ensures ByChunks(c, old(p.mem), p.mem)
    ensures if st == PowerCut then p.cuts < old(p.cuts) else p.cuts == old(p.cuts)
  {
    hide Resumable, Between, ChunkFits, ChunkClean, Block, Nth, Same;
    Unchanged(c, p.mem);
    hide ByChunk, ByChunks, Aligned;
    var txn, off, guard := p.log, p.log.chunk, 0;
    k, kLog := k0, k0;
    StandingAtStart(c, k0, p.log, m0, p.mem);
    while off < c.length
      invariant p.Valid() && p.cuts == old(p.cuts)
      invariant off == Nth(c, k) && 0 <= guard == k - k0 < MAX_LOOPS
      invariant Standing(c, k, kLog, txn, p.log, m0, p.mem) && Names(c, k0, kLog, m0)
      invariant forall j: nat :: kLog < j < k ==> Same(c, j, m0)
      invariant ByChunks(c, old(p.mem), p.mem)
      decreases c.length - off
    {
      guard := guard + 1;
      if guard >= MAX_LOOPS {
        TooManyChunks(c, k);
        return FlashHw, k, kLog;
      }
      assert ChunkFits(c, k);
      ghost var m := p.mem;
      st, txn, off, kLog := Round(p, c, txn, off, arena, k, kLog, m0);
      if p.mem != m { ChunkByChunks(c, k, old(p.mem), m, p.mem); }
      if st != Ok { return; }
      k := k + 1;
    }
    StandingAtEnd(c, k, kLog, txn, p.log, m0, p.mem);
    return Ok, k, kLog;
  }

  predicate Misaligned(c: Config) {
    c.align > 0 && !(Multiple(c.src, c.align) && Multiple(c.dest, c.align) && Multiple(c.length, c.align))
  }

  /** boot_swap_apply, re-entered with the newest log entry.  m0 is flash as it was
      before the exchange.  Whatever happens, the newest entry stays resumable; success
      means that the two images are exchanged; and only a power cut or a chunk that is
      not clean stops a run.  `worn` says that the end-of-life check refuses. */
  method Apply(p: Platform, c: Config, worn: bool, arena: nat, ghost k0: nat, ghost m0: Bytes)
    returns (st: Status, ghost k: nat, ghost kLog: nat)
    requires p.Valid() && p.g == c.g && Configured(c) && |m0| == c.g.total
    requires Resumable(c, k0, p.log, m0, p.mem)
    modifies p
    ensures p.Valid() && Resumable(c, kLog, p.log, m0, p.mem) && Names(c, k0, kLog, m0)
    ensures arena < 512 ==> st == InvalidArg
    ensures arena >= 512 && c.length > 0 && Misaligned(c) ==> st == FlashAlign
    ensures arena >= 512 && c.length > 0 && !Misaligned(c) && worn ==> st == CounterExhausted
    ensures st == InvalidArg || st == FlashAlign || st == CounterExhausted ==>
              p.mem == old(p.mem) && p.log == old(p.log) && p.cuts == old(p.cuts)
    ensures arena >= 512 && (c.length == 0 || (!Misaligned(c) && !worn)) ==>
              st == Ok || st == PowerCut || ((st == FlashBounds || st == FlashHw) && !ChunkClean(c, k))
    ensures st == Ok ==> Complete(c, k, kLog, m0, p.mem) && Exchanged(c, m0, p.mem) && k - k0 < MAX_LOOPS
    ensures ByChunks(c, old(p.mem), p.mem) && OnlySlots(c, old(p.mem), p.mem)
    ensures st == Ok && c.length > 0 && m0 == old(p.mem) ==> forall j: nat :: Permitted(c, j, m0)
    ensures if st == PowerCut then p.cuts < old(p.cuts) else p.cuts == old(p.cuts)
  {
    k, kLog := k0, k0;
    hide ByChunks, OnlySlots, Permitted;
    Unchanged(c, p.mem);
    ChunksOnlySlots(c, p.mem, p.mem);
    if arena < 512 { return InvalidArg, k, kLog; }
    if c.length == 0 {
      CompleteIsExchanged(c, k, kLog, m0, p.mem);
      return Ok, k, kLog;
    }
    if c.align > 0 && (c.src % c.align != 0 || c.dest % c.align != 0 || c.length % c.align != 0) {
      return FlashAlign, k, kLog;
    }
    if worn { return CounterExhausted, k, kLog; }
    st, k, kLog := ExchangeFrom(p, c, arena, k0, m0);
    ChunksOnlySlots(c, old(p.mem), p.mem);
    if st == Ok {
      CompleteIsExchanged(c, k, kLog, m0, p.mem);
      if m0 == old(p.mem) {
        forall j: nat ensures Permitted(c, j, m0) { ExchangedIsPermitted(c, m0, p.mem, k, j); }
      }
    }
  }

  /** Call boot_swap_apply again after every power cut, each time with the newest log
      entry: the run that returns has exchanged the images of the first call, and a
      FATAL branch is never taken. */
  method RunToCompletion(p: Platform, c: Config, arena: nat) returns (st: Status)
    requires p.Valid() && p.g == c.g && Configured(c) && Clean(c) && arena >= 512
    requires c.length == 0 || !Misaligned(c)
    requires p.log.intent != OtherIntent && p.log.chunk == 0 && !p.log.shield
    modifies p
    ensures p.Valid() && st == Ok && Exchanged(c, old(p.mem), p.mem) && OnlySlots(c, old(p.mem), p.mem)
  {
    ghost var m0, k, kLog := p.mem, 0, 0;
    hide OnlySlots, ByChunks, Permitted;
    SlotsKept(c, m0);
    st := PowerCut;
    while st == PowerCut
      invariant p.Valid() && Resumable(c, kLog, p.log, m0, p.mem)
      invariant st == PowerCut || (st == Ok && Exchanged(c, m0, p.mem))
      invariant OnlySlots(c, m0, p.mem)
      decreases p.cuts, st == PowerCut
    {
      ghost var m := p.mem;
      st, k, kLog := Apply(p, c, false, arena, kLog, m0);
      assert ChunkClean(c, k);
      OnlySlotsTrans(c, m0, m, p.mem);
    }
  }

  // ---- The provider around it (toobloader/core/boot_transport_swapscratch.c) -----

  /** The image that a run would take [off, length) of `m` to be half way through. */
  ghost function Unswapped(c: Config, m: Bytes, off: nat): (m0: Bytes)
    requires SlotsInFlash(c) && |m| == c.g.total && off <= c.srcSize && off <= c.destSize
    ensures |m0| == |m|
  {
    seq(|m|, x requires 0 <= x < |m| =>
      if c.dest <= x < c.dest + off then m[x - c.dest + c.src]
      else if c.src <= x < c.src + off then m[x - c.src + c.dest] else m[x])
  }

  lemma UnswappedIsBetween(c: Config, m: Bytes, off: nat)
    requires SlotsInFlash(c) && Disjoint(c) && |m| == c.g.total && off <= c.srcSize && off <= c.destSize
    ensures Between(c, Unswapped(c, m, off), m, off)
  {
    var u := Unswapped(c, m, off);
    SlicesAgree(m, u, c.dest, c.src, off);
    SlicesAgree(m, u, c.src, c.dest, off);
    SlicesAgree(m, u, c.dest + off, c.dest + off, c.destSize - off);
    SlicesAgree(m, u, c.src + off, c.src + off, c.srcSize - off);
  }

  lemma SlicesAgree(m: Bytes, u: Bytes, a: nat, b: nat, n: nat)
    requires a + n <= |m| && b + n <= |u| && forall x :: a <= x < a + n ==> m[x] == u[x - a + b]
    ensures Slice(m, a, n) == Slice(u, b, n)
  {
    forall i | 0 <= i < n ensures Slice(m, a, n)[i] == Slice(u, b, n)[i] {
      assert Slice(m, a, n)[i] == m[a + i] && Slice(u, b, n)[i] == u[b + i];
    }
  }

  /** The images are exchanged below `off` and back where they were from `off` on. */
  ghost predicate TailReverted(c: Config, m0: Bytes, m: Bytes, off: nat) {
    && Sized(c, m0, m) && off < c.length <= c.srcSize && c.length <= c.destSize
    && PrefixExchanged(c, m0, m, off)
    && Slice(m, c.dest + off, c.length - off) == Slice(m0, c.dest + off, c.length - off)
    && Slice(m, c.src + off, c.length - off) == Slice(m0, c.src + off, c.length - off)
  }

  lemma CutAt(m: Bytes, a: nat, k: nat, n: nat)
    requires k <= n && a + n <= |m|
    ensures Slice(m, a, k) == Slice(m, a, n)[..k] && Slice(m, a + k, n - k) == Slice(m, a, n)[k..]
  {
  }

  /** The images b that a run works on after some restarts at `off`: below `off` they are
      the images m0 of the first run, and from `off` up to `end` the two have changed
      places once for every restart. */
  ghost predicate Restarted(c: Config, even: bool, m0: Bytes, b: Bytes, off: nat, end: nat) {
    && Sized(c, m0, b) && off <= end <= c.srcSize && end <= c.destSize
    && Slice(b, c.dest, off) == Slice(m0, c.dest, off) && Slice(b, c.src, off) == Slice(m0, c.src, off)
    && Slice(b, c.dest + off, end - off) == Slice(m0, (if even then c.dest else c.src) + off, end - off)
    && Slice(b, c.src + off, end - off) == Slice(m0, (if even then c.src else c.dest) + off, end - off)
  }

  /** What a completed run makes of them. */
  lemma RunParts(c: Config, b: Bytes, m: Bytes, off: nat, end: nat)
    requires Between(c, b, m, end) && off <= end
    ensures Slice(m, c.dest, off) == Slice(b, c.src, off) && Slice(m, c.src, off) == Slice(b, c.dest, off)
    ensures Slice(m, c.dest + off, end - off) == Slice(b, c.src + off, end - off)
    ensures Slice(m, c.src + off, end - off) == Slice(b, c.dest + off, end - off)
  {
    CutAt(m, c.dest, off, end);
    CutAt(m, c.src, off, end);
    CutAt(b, c.dest, off, end);
    CutAt(b, c.src, off, end);
  }

  /** A restart at `off` starts from the exchanged images below it and from the new
      content above it. */
  lemma UnswappedParts(c: Config, m: Bytes, off: nat, end: nat)
    requires SlotsInFlash(c) && Disjoint(c) && |m| == c.g.total && off < c.length && off <= end <= c.srcSize
             && end <= c.destSize
    ensures var u := Unswapped(c, m, off);
            && Slice(u, c.dest, off) == Slice(m, c.src, off) && Slice(u, c.src, off) == Slice(m, c.dest, off)
            && Slice(u, c.dest + off, end - off) == Slice(m, c.dest + off, end - off)
            && Slice(u, c.src + off, end - off) == Slice(m, c.src + off, end - off)
  {
    hide Unswapped;
    var u := Unswapped(c, m, off);
    UnswappedIsBetween(c, m, off);
    RestParts(u, m, c.dest + off, c.destSize - off, end - off);
    RestParts(u, m, c.src + off, c.srcSize - off, end - off);
  }

  lemma RestartedNext(c: Config, even: bool, m0: Bytes, b: Bytes, m: Bytes, off: nat, end: nat)
    requires SlotsInFlash(c) && Disjoint(c) && off < c.length
    requires Restarted(c, even, m0, b, off, end) && Between(c, b, m, end)
    ensures Restarted(c, !even, m0, Unswapped(c, m, off), off, end)
  {
    hide Slice, Unswapped, Disjoint;
    RunParts(c, b, m, off, end);
    UnswappedParts(c, m, off, end);
  }

  /** An even number of restarts leaves the exchange done, an odd one undoes its tail. */
  lemma RestartedEnds(c: Config, even: bool, m0: Bytes, b: Bytes, m: Bytes, off: nat, end: nat)
    requires Restarted(c, even, m0, b, off, end) && Between(c, b, m, end) && off < c.length <= end
    ensures if even then Exchanged(c, m0, m) else TailReverted(c, m0, m, off)
  {
    hide Slice;
    RunParts(c, b, m, off, end);
    var n := c.length - off;
    if even {
      Shorter(m, c.dest + off, m0, c.src + off, end - off, n);
      Shorter(m, c.src + off, m0, c.dest + off, end - off, n);
      Joined(m, c.dest, off, n);
      Joined(m, c.src, off, n);
      Joined(m0, c.dest, off, n);
      Joined(m0, c.src, off, n);
    } else {
      Shorter(m, c.dest + off, m0, c.dest + off, end - off, n);
      Shorter(m, c.src + off, m0, c.src + off, end - off, n);
    }
  }

  lemma Shorter(m: Bytes, a: nat, m0: Bytes, a0: nat, k: nat, n: nat)
    requires n <= k && a + k <= |m| && a0 + k <= |m0| && Slice(m, a, k) == Slice(m0, a0, k)
    ensures Slice(m, a, n) == Slice(m0, a0, n)
  {
    CutAt(m, a, n, k);
    CutAt(m0, a0, n, k);
  }

  /** Twins stay twins, so a restart logs the same chunk again. */
  lemma StillSame(c: Config, k: nat, last: nat, b: Bytes, m: Bytes)
    requires SlotsInFlash(c) && Disjoint(c) && Nth(c, last) < c.length
    requires Complete(c, k, last, b, m)
    ensures Between(c, Unswapped(c, m, Nth(c, last)), m, Nth(c, last))
    ensures SameAfter(c, last, Unswapped(c, m, Nth(c, last)))
  {
    hide Unswapped, Disjoint, Slice, Same, Block, Nth;
    if k <= last { NthGrows(c, k, last); }
    NthGrows(c, last, k);
    UnswappedIsBetween(c, m, Nth(c, last));
    forall j: nat | last < j ensures Same(c, j, Unswapped(c, m, Nth(c, last))) {
      ChunkStillSame(c, k, last, b, m, j);
    }
  }

  lemma ChunkStillSame(c: Config, k: nat, last: nat, b: Bytes, m: Bytes, j: nat)
    requires SlotsInFlash(c) && Disjoint(c) && Between(c, b, m, Nth(c, k)) && last < j && Same(c, j, b)
    requires Nth(c, last) < c.length <= Nth(c, k) && Nth(c, last) <= c.srcSize && Nth(c, last) <= c.destSize
    ensures Same(c, j, Unswapped(c, m, Nth(c, last)))
  {
    hide Unswapped, Disjoint, Between, Twins, Block;
    NthGrows(c, last, j);
    if Nth(c, j) < c.length {
      if k <= j { NthGrows(c, k, j); }
      NthGrows(c, j + 1, k);
      TwinsKept(c, b, m, Nth(c, last), Nth(c, k), Nth(c, j), Block(c, Nth(c, j)));
    }
  }

  lemma TwinsKept(c: Config, b: Bytes, m: Bytes, off: nat, end: nat, o: nat, n: nat)
    requires SlotsInFlash(c) && Disjoint(c) && off <= o < c.length && o + n <= end
    requires Between(c, b, m, end) && Twins(c, b, o, n)
    ensures Twins(c, Unswapped(c, m, off), o, n)
  {
    hide Unswapped, Disjoint;
    UnswappedParts(c, m, off, end);
    var u := Unswapped(c, m, off);
    SubParts(u, m, c.dest, off, end, o, n);
    SubParts(u, m, c.src, off, end, o, n);
    SubPart(m, b, c.dest, c.src, end, o, n);
    SubPart(m, b, c.src, c.dest, end, o, n);
  }

  lemma SubParts(u: Bytes, m: Bytes, base: nat, off: nat, end: nat, o: nat, n: nat)
    requires off <= o && o + n <= end && base + end <= |m| == |u|
    requires Slice(u, base + off, end - off) == Slice(m, base + off, end - off)
    ensures Slice(u, base + o, n) == Slice(m, base + o, n)
  {
    SubSlice(u, base + off, end - off, o - off, n);
    SubSlice(m, base + off, end - off, o - off, n);
  }

  lemma SubPart(m: Bytes, b: Bytes, a: nat, a': nat, end: nat, o: nat, n: nat)
    requires o + n <= end && a + end <= |m| && a' + end <= |b| && Slice(m, a, end) == Slice(b, a', end)
    ensures Slice(m, a + o, n) == Slice(b, a' + o, n)
  {
    SubSlice(m, a, end, o, n);
    SubSlice(b, a', end, o, n);
  }

  /** An entry that a later run takes for "chunk k is not begun". */
  ghost predicate Reopenable(c: Config, k: nat, log: Txn) {
    && log.chunk == Nth(c, k) && log.chunk <= c.srcSize && log.chunk <= c.destSize
    && !log.shield && log.intent != OtherIntent
  }

  /** swapscratch_apply.  After the exchange it logs the same entry once more with the
      deduction words cleared; `cleaned` says that this entry reached the log. */
  method ApplyAndCleanUp(p: Platform, c: Config, verified: bool, fromDelta: bool, arena: nat, ghost k0: nat,
                         ghost m0: Bytes)
    returns (st: Status, cleaned: bool, ghost k: nat, ghost kLog: nat)
    requires p.Valid() && p.g == c.g && Configured(c) && Clean(c) && |m0| == c.g.total && arena >= 512
    requires c.length == 0 || !Misaligned(c)
    requires Resumable(c, k0, p.log, m0, p.mem)
    modifies p
    ensures p.Valid() && Names(c, k0, kLog, m0)
    ensures !verified || fromDelta ==>
              && st == (if !verified then VerifyFailed else NotSupported)
              && p.mem == old(p.mem) && p.log == old(p.log) && p.cuts == old(p.cuts) && !cleaned && kLog == k0
    ensures verified && !fromDelta ==> st == Ok || st == PowerCut
    ensures st == Ok || cleaned ==> Complete(c, k, kLog, m0, p.mem)
    ensures if cleaned then Reopenable(c, kLog, p.log) else Resumable(c, kLog, p.log, m0, p.mem)
    ensures OnlySlots(c, old(p.mem), p.mem)
    ensures st == Ok || cleaned ==> p.log.crcSrc == p.log.crcDest == Cleared && !p.log.shield
    ensures if st == PowerCut then p.cuts < old(p.cuts) else p.cuts == old(p.cuts)
  {
    cleaned, k, kLog := false, k0, k0;
    hide OnlySlots, ByChunks, Permitted;
    SlotsKept(c, p.mem);
    if !verified { return VerifyFailed, cleaned, k, kLog; }
    if fromDelta { return NotSupported, cleaned, k, kLog; }
    st, k, kLog := Apply(p, c, false, arena, k0, m0);
    assert ChunkClean(c, k);
    if st != Ok { return; }
    var txn := p.log;
    if txn.crcSrc != Cleared || txn.crcDest != Cleared || txn.shield {
      txn := txn.(crcSrc := Cleared, crcDest := Cleared, shield := false);
      st := p.Append(txn);
      cleaned := p.log == txn;
    }
  }

  /** Where the runs stand after some restarts. */
  ghost predicate Cycle(c: Config, restarts: nat, m0: Bytes, b: Bytes, last: nat, end: nat, kLog: nat) {
    && |b| == c.g.total && (c.length > 0 ==> Nth(c, kLog) < c.length)
    && if restarts == 0 then b == m0 && Names(c, 0, kLog, m0)
       else
         && kLog == last && Names(c, 0, last, m0) && SameAfter(c, last, m0) && SameAfter(c, last, b)
         && c.length <= end && (exists k: nat :: end == Nth(c, k))
         && (c.length > 0 ==> Restarted(c, restarts % 2 == 0, m0, b, Nth(c, last), end))
  }

  /** One more restart, at the chunk that the cleanup entry names. */
  lemma CycleNext(c: Config, restarts: nat, m0: Bytes, b: Bytes, m: Bytes, last: nat, end: nat, k: nat, kLog: nat)
    requires SlotsInFlash(c) && Disjoint(c) && Nth(c, kLog) <= c.srcSize && Nth(c, kLog) <= c.destSize
    requires Cycle(c, restarts, m0, b, last, end, kLog) && Complete(c, k, kLog, b, m)
    ensures Cycle(c, restarts + 1, m0, Unswapped(c, m, Nth(c, kLog)), kLog, Nth(c, k), kLog)
    ensures Between(c, Unswapped(c, m, Nth(c, kLog)), m, Nth(c, kLog))
  {
    hide Unswapped, Restarted, Disjoint, Same, Nth, Block;
    var off := Nth(c, kLog);
    if c.length == 0 {
      UnswappedIsBetween(c, m, off);
      NoLength(c, Unswapped(c, m, off), kLog);
    } else {
      StillSame(c, k, kLog, b, m);
      if restarts == 0 { StartsRestarted(c, m0, off, Nth(c, k), k, kLog); } else { EndsAgree(c, k, end); }
      RestartedNext(c, restarts % 2 == 0, m0, b, m, off, Nth(c, k));
    }
  }

  lemma NoLength(c: Config, b: Bytes, k: nat)
    requires c.length == 0
    ensures SameAfter(c, k, b)
  {
  }

  lemma StartsRestarted(c: Config, m0: Bytes, off: nat, end: nat, k: nat, kLog: nat)
    requires |m0| == c.g.total && SlotsInFlash(c) && off == Nth(c, kLog) < c.length <= end == Nth(c, k)
    requires end <= c.srcSize && end <= c.destSize
    ensures Restarted(c, true, m0, m0, off, end)
  {
  }

  lemma EndsAgree(c: Config, k: nat, end: nat)
    requires c.length <= Nth(c, k) && c.length <= end && exists j: nat :: end == Nth(c, j)
    ensures end == Nth(c, k)
  {
    var j: nat :| end == Nth(c, j);
    if j <= k { NthGrows(c, j, k); } else { NthGrows(c, k, j); }
  }

  /** The run that returns. */
  lemma CycleEnds(c: Config, restarts: nat, m0: Bytes, b: Bytes, m: Bytes, last: nat, end: nat, k: nat, kLog: nat)
    requires Cycle(c, restarts, m0, b, last, end, kLog) && Complete(c, k, kLog, b, m) && |m0| == c.g.total
    ensures restarts % 2 == 0 || c.length == 0 ==> Exchanged(c, m0, m)
    ensures restarts % 2 == 1 && c.length > 0 ==> TailReverted(c, m0, m, Nth(c, last))
  {
    hide Restarted, Same, Nth, Block;
    if c.length == 0 {
      Nothing(c, m0, b, m, Nth(c, k));
    } else if restarts == 0 {
      CompleteIsExchanged(c, k, kLog, m0, m);
    } else {
      EndsAgree(c, k, end);
      RestartedEnds(c, restarts % 2 == 0, m0, b, m, Nth(c, last), end);
    }
  }

  lemma Nothing(c: Config, m0: Bytes, b: Bytes, m: Bytes, end: nat)
    requires c.length == 0 && Between(c, b, m, end) && |m0| == c.g.total
    ensures Exchanged(c, m0, m)
  {
  }

  /** Call swapscratch_apply again after every power cut.  `reopened` counts the cuts
      that hit between a cleanup entry and the return of the call; `last` is the last
      chunk that differs in the two images, which is the one every cleanup entry names.
      Each such cut makes the next call exchange the images again from that chunk on: an
      even number of them leaves the exchange done, an odd one undoes its tail. */
  method RunUpdate(p: Platform, c: Config, arena: nat) returns (st: Status, reopened: nat, ghost last: nat)
    requires p.Valid() && p.g == c.g && Configured(c) && Clean(c) && arena >= 512
    requires c.length == 0 || !Misaligned(c)
    requires p.log.intent != OtherIntent && p.log.chunk == 0 && !p.log.shield
    modifies p
    ensures p.Valid() && st == Ok && reopened <= old(p.cuts) - p.cuts && OnlySlots(c, old(p.mem), p.mem)
    ensures reopened % 2 == 0 || c.length == 0 ==> Exchanged(c, old(p.mem), p.mem)
    ensures reopened % 2 == 1 && c.length > 0 ==> TailReverted(c, old(p.mem), p.mem, Nth(c, last))
    ensures reopened > 0 ==> SameAfter(c, last, old(p.mem)) && (last == 0 || !Same(c, last, old(p.mem)))
  {
    hide Exchanged, Between, Logged, TailReverted, Clean, ChunksFit, Same, Restarted, Nth, Complete, Cycle;
    hide OnlySlots;
    ghost var b, end, k, kLog := p.mem, 0, 0, 0;
    var cleaned;
    reopened, last := 0, 0;
    StartsCycle(c, p.log, p.mem);
    SlotsKept(c, p.mem);
    while true
      invariant p.Valid() && |b| == c.g.total && Resumable(c, kLog, p.log, b, p.mem)
      invariant reopened <= old(p.cuts) - p.cuts
      invariant Cycle(c, reopened, old(p.mem), b, last, end, kLog)
      invariant OnlySlots(c, old(p.mem), p.mem)
      decreases p.cuts
    {
      ghost var m := p.mem;
      ghost var kBefore := kLog;
      st, cleaned, k, kLog := ApplyAndCleanUp(p, c, true, false, arena, kLog, b);
      OnlySlotsTrans(c, old(p.mem), m, p.mem);
      CycleStays(c, reopened, old(p.mem), b, last, end, kBefore, kLog);
      if st == Ok {
        CycleEnds(c, reopened, old(p.mem), b, p.mem, last, end, k, kLog);
        CycleMeans(c, reopened, old(p.mem), b, last, end, kLog);
        return;
      }
      if cleaned {
        CycleNext(c, reopened, old(p.mem), b, p.mem, last, end, k, kLog);
        b := Unswapped(c, p.mem, p.log.chunk);
        reopened, last, end := reopened + 1, kLog, Nth(c, k);
      }
    }
  }

  /** A run names the same chunk again, or in the first cycle a later one. */
  lemma CycleStays(c: Config, restarts: nat, m0: Bytes, b: Bytes, last: nat, end: nat, kLog: nat, kLog': nat)
    requires Cycle(c, restarts, m0, b, last, end, kLog) && Names(c, kLog, kLog', b)
    ensures Cycle(c, restarts, m0, b, last, end, kLog')
  {
  }

  lemma CycleMeans(c: Config, restarts: nat, m0: Bytes, b: Bytes, last: nat, end: nat, kLog: nat)
    requires Cycle(c, restarts, m0, b, last, end, kLog)
    ensures restarts > 0 ==> SameAfter(c, last, m0) && (last == 0 || !Same(c, last, m0))
  {
  }

  lemma StartsCycle(c: Config, log: Txn, m: Bytes)
    requires SlotsInFlash(c) && |m| == c.g.total
    requires log.intent != OtherIntent && log.chunk == 0 && !log.shield
    ensures Resumable(c, 0, log, m, m) && Cycle(c, 0, m, m, 0, 0, 0)
  {
  }
}
