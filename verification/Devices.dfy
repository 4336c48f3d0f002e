/** Which devices meet what the transports are configured with: slots of equal sectors, and
    what the block solvers of toobloader/core/boot_swap.c, boot_transport_oneway.c and
    boot_rollback.c make of them. */
module Devices {
  import opened FlashModel
  import opened Wrappers
  import opened EffectEngine
  import Journal
  import OneWay
  import Revert
  import SwapMove
  import SwapScratch

  // ---- Slots of equal sectors ----------------------------------------------------------

  /** The slot [base, base + size) is made of sectors of `sec` bytes. */
  ghost predicate Regular(g: Geometry, base: nat, size: nat, sec: nat) {
    && sec > 0 && Multiple(size, sec) && base + size <= g.total
    && Boundary(g, base) && Boundary(g, base + size)
    && forall x: nat :: x < size ==> RegularAt(g, base, sec, x)
  }

  ghost predicate RegularAt(g: Geometry, base: nat, sec: nat, x: nat) {
    g.size(base + x) == sec && (g.start(base + x) <==> Multiple(x, sec))
  }

  lemma SizeAt(g: Geometry, base: nat, size: nat, sec: nat, x: nat)
    requires Regular(g, base, size, sec) && x < size
    ensures g.size(base + x) == sec && (g.start(base + x) <==> Multiple(x, sec))
  {
    assert RegularAt(g, base, sec, x);
  }

  lemma UniformRegular(sec: nat, total: nat, base: nat, size: nat)
    requires Multiple(base, sec) && Multiple(size, sec) && base + size <= total
    ensures Regular(Uniform(sec, total), base, size, sec)
  {
    MultipleSum(base, size, sec);
    forall x: nat | x < size ensures RegularAt(Uniform(sec, total), base, sec, x) { MultipleSum(base, x, sec); }
  }

  lemma MultipleSum(a: nat, b: nat, k: nat)
    requires Multiple(a, k)
    ensures Multiple(a + b, k) <==> Multiple(b, k)
  {
    AlShift(b, a, k);
  }

  lemma {:induction false} MultipleOf(x: nat, b: nat, s: nat)
    requires Multiple(x, b) && Multiple(b, s)
    ensures Multiple(x, s)
    decreases x
  {
    if x < b {
      DivModUnique(x, 0, x, b);
    } else {
      MultipleSum(b, x - b, b);
      MultipleOf(x - b, b, s);
      MultipleSum(b, x - b, s);
    }
  }

  /** An erase of n bytes visits no more sectors than n bytes need. */
  lemma {:induction false} FewSectors(g: Geometry, base: nat, size: nat, sec: nat, x: nat, n: nat, q: nat)
    requires Regular(g, base, size, sec) && x + n <= size && n <= q * sec
    ensures SectorCount(g, base + x, base + x + n) <= q
    decreases n
  {
    if n > 0 {
      SizeAt(g, base, size, sec, x);
      MulMono(q, 0, sec);
      assert (q - 1) * sec == q * sec - sec;
      if n > sec {
        MulMono(q - 1, 0, sec);
        FewSectors(g, base, size, sec, x + sec, n - sec, q - 1);
      }
    }
  }

  /** B is the largest of three sector sizes, and a multiple of each. */
  predicate Largest(B: nat, a: nat, b: nat, c: nat) {
    && (B == a || B == b || B == c) && a <= B && b <= B && c <= B
    && Multiple(B, a) && Multiple(B, b) && Multiple(B, c)
  }

  /** A slot may hold more sectors of this size in one block than the erase loop allows. */
  predicate InGuard(B: nat, sec: nat) {
    sec > 0 && B < MAX_ERASE_LOOPS * sec
  }

  lemma GuardHolds(g: Geometry, base: nat, size: nat, sec: nat, x: nat, n: nat, B: nat)
    requires Regular(g, base, size, sec) && x + n <= size && n <= B && InGuard(B, sec) && Multiple(B, sec)
    ensures SectorCount(g, base + x, base + x + n) < MAX_ERASE_LOOPS
  {
    var q := B / sec;
    assert B == q * sec;
    MulMono(MAX_ERASE_LOOPS, q, sec);
    FewSectors(g, base, size, sec, x, n, q);
  }

  lemma AllowedPart(wl: seq<Region>, a: nat, n: nat, b: nat, k: nat)
    requires Allowed(wl, a, n) && a <= b && b + k <= a + n
    ensures Allowed(wl, b, k)
  {
    var w :| 0 <= w < |wl| && Within(wl[w], a, n);
    assert Within(wl[w], b, k);
  }

  /** The tail of a padded image, from an aligned place on. */
  lemma TailIs(length: nat, off: nat, align: nat, B: nat)
    requires off < length && Al(off, align) && Al(B, align)
    ensures off + PadUp(length - off, align) == PadUp(length, align)
    ensures length < off + B ==> PadUp(length - off, align) <= B
  {
    PadUpShift(off, length - off, align);
    PadUpLeast(length - off, align);
  }

  lemma BlocksAl(k: nat, B: nat, align: nat)
    requires Al(B, align)
    ensures Al(k * B, align)
    decreases k
  {
    if k == 0 {
      AlZero(align);
    } else {
      BlocksAl(k - 1, B, align);
      AlShift((k - 1) * B, B, align);
      assert (k - 1) * B + B == k * B;
    }
  }

  // ---- The exchange through a scratch slot ---------------------------------------------

  /** Three disjoint slots of equal sectors each, the largest sector a multiple of the others;
      a scratch slot that holds one of those; slots that hold the padded image; and a
      whitelist over them. */
  ghost predicate Fitted(c: SwapScratch.Config, sd: nat, ss: nat, sx: nat, B: nat) {
    && Tiling(c.g) && SwapScratch.Disjoint(c) && Largest(B, sd, ss, sx) && Al(B, c.align)
    && Regular(c.g, c.dest, c.destSize, sd) && Regular(c.g, c.src, c.srcSize, ss)
    && Regular(c.g, c.scratch, c.scratchSize, sx)
    && B <= c.scratchSize && PadUp(c.length, c.align) <= c.destSize && PadUp(c.length, c.align) <= c.srcSize
    && Allowed(c.wl, c.scratch, B) && Allowed(c.wl, c.dest, c.destSize) && Allowed(c.wl, c.src, c.srcSize)
    && InGuard(B, sd) && InGuard(B, ss) && InGuard(B, sx)
    && c.length <= (SwapScratch.MAX_LOOPS - 1) * B
  }

  /** The k-th chunk of such a device is the k-th block of the largest sector size, and the
      last one is the padded rest. */
  ghost predicate IsChunk(c: SwapScratch.Config, B: nat, k: nat) {
    && SwapScratch.Nth(c, k) == k * B < c.length
    && SwapScratch.Block(c, k * B) == if k * B + B <= c.length then B else PadUp(c.length - k * B, c.align)
  }

  lemma {:induction false} ChunksAreBlocks(c: SwapScratch.Config, sd: nat, ss: nat, sx: nat, B: nat, k: nat)
    requires Fitted(c, sd, ss, sx, B)
    ensures if k * B < c.length then IsChunk(c, B, k) else c.length <= SwapScratch.Nth(c, k)
    decreases k
  {
    hide SwapScratch.Block, Fitted, PadUp;
    if k > 0 {
      hide SwapScratch.Nth;
      ChunksAreBlocks(c, sd, ss, sx, B, k - 1);
      assert k * B == (k - 1) * B + B;
      if (k - 1) * B < c.length {
        SwapScratch.NthNext(c, k - 1);
      } else {
        SwapScratch.NthGrows(c, k - 1, k);
      }
    }
    if k * B < c.length { BlockIs(c, sd, ss, sx, B, k * B); }
  }

  lemma BlockIs(c: SwapScratch.Config, sd: nat, ss: nat, sx: nat, B: nat, off: nat)
    requires Fitted(c, sd, ss, sx, B) && off < c.length
    ensures SwapScratch.Block(c, off) == if off + B <= c.length then B else PadUp(c.length - off, c.align)
  {
    PadUpLeast(c.length, c.align);
    SizeAt(c.g, c.dest, c.destSize, sd, off);
    SizeAt(c.g, c.src, c.srcSize, ss, off);
    SizeAt(c.g, c.scratch, c.scratchSize, sx, 0);
    LargestBlock(c, off, B);
  }

  /** The solver takes the largest of the three sectors, or the padded rest. */
  lemma LargestBlock(c: SwapScratch.Config, off: nat, B: nat)
    requires off < c.length && B in {c.g.size(c.dest + off), c.g.size(c.src + off), c.g.size(c.scratch)}
    requires c.g.size(c.dest + off) <= B && c.g.size(c.src + off) <= B && c.g.size(c.scratch) <= B
    ensures off + B <= c.length ==> SwapScratch.Block(c, off) == B
    ensures c.length < off + B ==> SwapScratch.Block(c, off) == PadUp(c.length - off, c.align)
  {
    hide PadUp;
  }

  /** Every chunk is aligned, lies inside the slots and is not stopped by anything. */
  lemma ChunkOk(c: SwapScratch.Config, sd: nat, ss: nat, sx: nat, B: nat, k: nat)
    requires Fitted(c, sd, ss, sx, B)
    ensures SwapScratch.ChunkAligned(c, k) && SwapScratch.ChunkClean(c, k)
  {
    hide SwapScratch.Nth, SwapScratch.Block, PadUp, SwapScratch.Aligned, SwapScratch.ChunkInside;
    hide SwapScratch.Whitelisted, SwapScratch.GuardTrips;
    ChunksAreBlocks(c, sd, ss, sx, B, k);
    var off := SwapScratch.Nth(c, k);
    if off < c.length { OneChunk(c, sd, ss, sx, B, k, off); }
  }

  lemma OneChunk(c: SwapScratch.Config, sd: nat, ss: nat, sx: nat, B: nat, k: nat, off: nat)
    requires Fitted(c, sd, ss, sx, B) && off == k * B < c.length
    ensures k + 1 < SwapScratch.MAX_LOOPS && SwapScratch.Aligned(c, off)
    ensures SwapScratch.ChunkInside(c, off, SwapScratch.Block(c, off))
    ensures SwapScratch.Whitelisted(c, off, SwapScratch.Block(c, off))
    ensures !SwapScratch.GuardTrips(c, off, SwapScratch.Block(c, off))
  {
    hide SwapScratch.Block, PadUp, Regular, SwapScratch.Aligned, SwapScratch.ChunkInside;
    hide SwapScratch.Whitelisted, SwapScratch.GuardTrips, Allowed, Al;
    BlockIs(c, sd, ss, sx, B, off);
    BlocksAl(k, B, c.align);
    MulMono(SwapScratch.MAX_LOOPS - 1, k, B);
    IsMultiple(k, B);
    ChunkPlace(c, sd, ss, sx, B, off, SwapScratch.Block(c, off));
  }

  lemma IsMultiple(k: nat, B: nat)
    requires B > 0
    ensures Multiple(k * B, B)
  {
    ModOfMultiple(k, B);
  }

  lemma ChunkPlace(c: SwapScratch.Config, sd: nat, ss: nat, sx: nat, B: nat, off: nat, n: nat)
    requires Fitted(c, sd, ss, sx, B) && off < c.length && Al(off, c.align) && Multiple(off, B)
    requires n == if off + B <= c.length then B else PadUp(c.length - off, c.align)
    ensures SwapScratch.Aligned(c, off) && SwapScratch.ChunkInside(c, off, n) && SwapScratch.Whitelisted(c, off, n)
    ensures !SwapScratch.GuardTrips(c, off, n)
  {
    ChunkSize(c, sd, ss, sx, B, off, n);
    ChunkStarts(c, sd, ss, sx, B, off);
    ChunkErases(c, sd, ss, sx, B, off, n);
    hide Regular, PadUp, Al, Multiple, Tiling, Largest, InGuard, SwapScratch.Aligned, SwapScratch.GuardTrips, Allowed;
    AllowedPart(c.wl, c.scratch, B, c.scratch, n);
    AllowedPart(c.wl, c.dest, c.destSize, c.dest + off, n);
    AllowedPart(c.wl, c.src, c.srcSize, c.src + off, n);
  }

  lemma ChunkErases(c: SwapScratch.Config, sd: nat, ss: nat, sx: nat, B: nat, off: nat, n: nat)
    requires Fitted(c, sd, ss, sx, B) && n <= B && off + n <= c.destSize && off + n <= c.srcSize
    ensures !SwapScratch.GuardTrips(c, off, n)
  {
    hide Regular, PadUp, Al, Multiple, Tiling, InGuard, Allowed;
    GuardHolds(c.g, c.dest, c.destSize, sd, off, n, B);
    GuardHolds(c.g, c.src, c.srcSize, ss, off, n, B);
    GuardHolds(c.g, c.scratch, c.scratchSize, sx, 0, n, B);
  }

  lemma ChunkSize(c: SwapScratch.Config, sd: nat, ss: nat, sx: nat, B: nat, off: nat, n: nat)
    requires Fitted(c, sd, ss, sx, B) && off < c.length && Al(off, c.align)
    requires n == if off + B <= c.length then B else PadUp(c.length - off, c.align)
    ensures 0 < n <= B && off + n <= c.destSize && off + n <= c.srcSize
  {
    hide Regular, Allowed, Tiling;
    PadUpLeast(c.length, c.align);
    PadUpLeast(c.length - off, c.align);
    TailIs(c.length, off, c.align, B);
  }

  lemma ChunkStarts(c: SwapScratch.Config, sd: nat, ss: nat, sx: nat, B: nat, off: nat)
    requires Fitted(c, sd, ss, sx, B) && off < c.length && Multiple(off, B)
    ensures SwapScratch.Aligned(c, off)
  {
    PadUpLeast(c.length, c.align);
    MultipleOf(off, B, sd);
    MultipleOf(off, B, ss);
    SizeAt(c.g, c.dest, c.destSize, sd, off);
    SizeAt(c.g, c.src, c.srcSize, ss, off);
    SizeAt(c.g, c.scratch, c.scratchSize, sx, 0);
  }

  /** Such a device meets what the exchange is configured with, and nothing stops it. */
  lemma FittedIsClean(c: SwapScratch.Config, sd: nat, ss: nat, sx: nat, B: nat)
    requires Fitted(c, sd, ss, sx, B)
    ensures SwapScratch.Configured(c) && SwapScratch.Clean(c)
  {
    forall k: nat ensures SwapScratch.ChunkAligned(c, k) && SwapScratch.ChunkClean(c, k) {
      ChunkOk(c, sd, ss, sx, B, k);
    }
    hide SwapScratch.ChunkAligned, SwapScratch.ChunkClean, Allowed, PadUp;
    SwapScratch.AlignedChunksFit(c);
  }

  /** boot_swap_apply on such a device, called again after every power cut. */
  method ExchangeSlots(p: Platform, c: SwapScratch.Config, arena: nat, ghost sd: nat, ghost ss: nat, ghost sx: nat,
                       ghost B: nat) returns (st: Status)
    requires p.Valid() && p.g == c.g && Fitted(c, sd, ss, sx, B) && arena >= 512
    requires c.length == 0 || !SwapScratch.Misaligned(c)
    requires p.log.intent != OtherIntent && p.log.chunk == 0 && !p.log.shield
    modifies p
    ensures p.Valid() && st == Ok && |old(p.mem)| == |p.mem| == c.g.total
    ensures c.dest + c.length <= |p.mem| && Slice(p.mem, c.dest, c.length) == Slice(old(p.mem), c.src, c.length)
    ensures c.src + c.length <= |p.mem| && Slice(p.mem, c.src, c.length) == Slice(old(p.mem), c.dest, c.length)
    ensures SwapScratch.OnlySlots(c, old(p.mem), p.mem)
  {
    FittedIsClean(c, sd, ss, sx, B);
    hide Fitted;
    st := SwapScratch.RunToCompletion(p, c, arena);
  }

  /** The three slots, and the whitelist of boot_swap.c:477-481. */
  ghost predicate SlotsOn(c: SwapScratch.Config, sec: nat, total: nat) {
    && c.g == Uniform(sec, total) && Multiple(total, sec) && SwapScratch.Disjoint(c) && SwapScratch.SlotsInFlash(c)
    && Multiple(c.src, sec) && Multiple(c.srcSize, sec) && Multiple(c.dest, sec) && Multiple(c.destSize, sec)
    && Multiple(c.scratch, sec) && Multiple(c.scratchSize, sec) && sec <= c.scratchSize
    && c.wl == [Region(c.dest, c.destSize), Region(c.src, c.srcSize), Region(c.scratch, 65536)]
  }

  /** Equal sectors of up to 65536 bytes. */
  lemma UniformFitted(c: SwapScratch.Config, sec: nat, total: nat)
    requires SlotsOn(c, sec, total) && sec <= 65536 && Al(sec, c.align)
    requires PadUp(c.length, c.align) <= c.destSize && PadUp(c.length, c.align) <= c.srcSize
    requires c.length <= (SwapScratch.MAX_LOOPS - 1) * sec
    ensures Fitted(c, sec, sec, sec, sec)
  {
    UniformTiles(sec, total);
    UniformRegular(sec, total, c.dest, c.destSize);
    UniformRegular(sec, total, c.src, c.srcSize);
    UniformRegular(sec, total, c.scratch, c.scratchSize);
    assert Within(c.wl[0], c.dest, c.destSize) && Within(c.wl[1], c.src, c.srcSize) && Within(c.wl[2], c.scratch, sec);
    DivModUnique(sec, 1, 0, sec);
  }

  // ---- A device of two sector sizes ------------------------------------------------------

  /** Sectors of s1 bytes below `at`, and of s2 bytes from there on. */
  function Split(s1: nat, s2: nat, at: nat, total: nat): Geometry {
    Geometry(total, (a: nat) => if a < at then s1 else s2,
             (a: nat) => if a < at then Multiple(a, s1) else Multiple(a - at, s2))
  }

  lemma SplitTiles(s1: nat, s2: nat, at: nat, total: nat)
    requires Multiple(at, s1) && at <= total && Multiple(total - at, s2)
    ensures Tiling(Split(s1, s2, at, total))
  {
    var g := Split(s1, s2, at, total);
    forall a: nat ensures SectorOk(g, a) {
      if a < g.total && g.start(a) {
        if a < at { SplitLow(s1, s2, at, total, a); } else { SplitHigh(s1, s2, at, total, a); }
      }
    }
  }

  lemma SplitLow(s1: nat, s2: nat, at: nat, total: nat, a: nat)
    requires Multiple(at, s1) && at <= total && Multiple(total - at, s2) && Multiple(a, s1) && a < at
    ensures SectorOk(Split(s1, s2, at, total), a)
  {
    var g := Split(s1, s2, at, total);
    MultiplesApart(s1, a, at);
    DivModUnique(0, 0, 0, s2);
    forall b: nat ensures !Inside(g, a, b) {
      if a < b < a + s1 && Multiple(b, s1) { MultiplesApart(s1, a, b); }
    }
  }

  lemma SplitHigh(s1: nat, s2: nat, at: nat, total: nat, a: nat)
    requires Multiple(at, s1) && at <= a < total && Multiple(total - at, s2) && Multiple(a - at, s2)
    ensures SectorOk(Split(s1, s2, at, total), a)
  {
    var g := Split(s1, s2, at, total);
    MultiplesApart(s2, a - at, total - at);
    MultipleSum(a - at, s2, s2);
    DivModUnique(s2, 1, 0, s2);
    forall b: nat ensures !Inside(g, a, b) {
      if a < b < a + s2 && Multiple(b - at, s2) { MultiplesApart(s2, a - at, b - at); }
    }
  }

  /** A slot on one side. */
  predicate OnSide(s1: nat, s2: nat, at: nat, total: nat, base: nat, size: nat, sec: nat) {
    || (sec == s1 && base + size <= at <= total && Multiple(base, s1) && Multiple(size, s1))
    || (sec == s2 && at <= base && base + size <= total && Multiple(base - at, s2) && Multiple(size, s2))
  }

  lemma SplitRegular(s1: nat, s2: nat, at: nat, total: nat, base: nat, size: nat, sec: nat)
    requires Multiple(at, s1) && at <= total && Multiple(total - at, s2)
    requires OnSide(s1, s2, at, total, base, size, sec)
    ensures Regular(Split(s1, s2, at, total), base, size, sec)
  {
    var g := Split(s1, s2, at, total);
    if base + size <= at && sec == s1 && Multiple(base, s1) && Multiple(size, s1) {
      MultipleSum(base, size, s1);
      DivModUnique(0, 0, 0, s2);
      forall x: nat | x < size ensures RegularAt(g, base, sec, x) { MultipleSum(base, x, s1); }
    } else {
      MultipleSum(base - at, size, s2);
      forall x: nat | x < size ensures RegularAt(g, base, sec, x) { MultipleSum(base - at, x, s2); }
    }
  }

  /** Three slots, each on one side, of two sector sizes of which one is a multiple of the
      other, and a scratch slot that holds one of the larger. */
  lemma SplitFitted(c: SwapScratch.Config, s1: nat, s2: nat, at: nat, sd: nat, ss: nat, sx: nat, B: nat)
    requires c.g == Split(s1, s2, at, c.g.total) && Multiple(at, s1) && at <= c.g.total && Multiple(c.g.total - at, s2)
    requires OnSide(s1, s2, at, c.g.total, c.dest, c.destSize, sd)
    requires OnSide(s1, s2, at, c.g.total, c.src, c.srcSize, ss)
    requires OnSide(s1, s2, at, c.g.total, c.scratch, c.scratchSize, sx)
    requires SwapScratch.Disjoint(c) && Largest(B, sd, ss, sx) && Al(B, c.align) && B <= c.scratchSize
    requires PadUp(c.length, c.align) <= c.destSize && PadUp(c.length, c.align) <= c.srcSize
    requires Allowed(c.wl, c.scratch, B) && Allowed(c.wl, c.dest, c.destSize) && Allowed(c.wl, c.src, c.srcSize)
    requires InGuard(B, sd) && InGuard(B, ss) && InGuard(B, sx) && c.length <= (SwapScratch.MAX_LOOPS - 1) * B
    ensures Fitted(c, sd, ss, sx, B)
  {
    var total := c.g.total;
    SplitTiles(s1, s2, at, total);
    SplitRegular(s1, s2, at, total, c.dest, c.destSize, sd);
    SplitRegular(s1, s2, at, total, c.src, c.srcSize, ss);
    SplitRegular(s1, s2, at, total, c.scratch, c.scratchSize, sx);
  }

  // ---- The one-way copies ----------------------------------------------------------------

  /** Two disjoint regions of equal sectors each, one size a multiple of the other, that hold
      the padded image. */
  ghost predicate CopyFits(g: Geometry, align: nat, j: OneWay.Job, s: nat, d: nat, B: nat) {
    && Tiling(g) && Largest(B, s, d, d) && Al(B, align) && InGuard(B, d)
    && Regular(g, j.src, j.srcSize, s) && Regular(g, j.dst, j.dstSize, d)
    && (j.src + j.srcSize <= j.dst || j.dst + j.dstSize <= j.src)
    && PadUp(j.length, align) <= j.srcSize && PadUp(j.length, align) <= j.dstSize
  }

  lemma CopyStarts(g: Geometry, align: nat, j: OneWay.Job, s: nat, d: nat, B: nat, off: nat)
    requires CopyFits(g, align, j, s, d, B) && off < j.length
    ensures OneWay.Aligned(g, j, off) <==> Multiple(off, B)
    ensures g.size(j.src + off) == s && g.size(j.dst + off) == d
  {
    PadUpLeast(j.length, align);
    SizeAt(g, j.src, j.srcSize, s, off);
    SizeAt(g, j.dst, j.dstSize, d, off);
    if Multiple(off, B) {
      MultipleOf(off, B, s);
      MultipleOf(off, B, d);
    }
  }

  /** The copy meets what it is configured with. */
  lemma CopyIsOk(g: Geometry, align: nat, j: OneWay.Job, s: nat, d: nat, B: nat)
    requires CopyFits(g, align, j, s, d, B)
    ensures OneWay.JobOk(g, align, j)
  {
    PadUpLeast(j.length, align);
    forall off: nat ensures OneWay.TailFits(g, align, j, off) {
      if off < j.length && OneWay.Aligned(g, j, off) {
        CopyStarts(g, align, j, s, d, B, off);
        hide Regular, PadUp, OneWay.Aligned;
        MultipleAl(off, B, align);
        TailIs(j.length, off, align, B);
      }
    }
  }

  lemma MultipleAl(x: nat, B: nat, align: nat)
    requires Multiple(x, B) && Al(B, align)
    ensures Al(x, align)
  {
    BlocksAl(x / B, B, align);
  }

  /** Nothing stops it, and it takes as many blocks as the image needs. */
  lemma {:induction false} CopyRuns(g: Geometry, align: nat, j: OneWay.Job, s: nat, d: nat, B: nat, off: nat, q: nat)
    requires CopyFits(g, align, j, s, d, B) && Multiple(off, B) && NeedsBlocks(j.length, off, B, q)
    ensures OneWay.Runs(g, align, j, off) && OneWay.Rounds(g, align, j, off) == q
    decreases q
  {
    if off < j.length {
      var n := OneWay.Block(g, align, j, off);
      CopyStep(g, align, j, s, d, B, off);
      BlocksAfter(j.length, off, B, q);
      hide CopyFits, OneWay.Aligned, OneWay.Block, PadUp;
      if off + B < j.length {
        MultipleSum(B, off, B);
        CopyRuns(g, align, j, s, d, B, off + B, q - 1);
      } else {
        assert OneWay.Runs(g, align, j, off + n) && OneWay.Rounds(g, align, j, off + n) == 0;
      }
    }
  }

  /** The bytes from `off` on are q blocks, the last of which may be a part of one. */
  predicate NeedsBlocks(length: nat, off: nat, B: nat, q: nat) {
    if off < length then q > 0 && off + (q - 1) * B < length <= off + q * B else q == 0
  }

  lemma BlocksAfter(length: nat, off: nat, B: nat, q: nat)
    requires NeedsBlocks(length, off, B, q) && off < length
    ensures off + B < length ==> NeedsBlocks(length, off + B, B, q - 1)
    ensures length <= off + B ==> q == 1
  {
    assert (q - 1) * B == q * B - B;
    if off + B < length {
      MulMono(q, 1, B);
      assert (q - 2) * B == (q - 1) * B - B;
    } else {
      MulMono(1, q - 1, B);
    }
  }

  /** One block of the copy: neither the solver nor the erase guard stops it. */
  lemma CopyStep(g: Geometry, align: nat, j: OneWay.Job, s: nat, d: nat, B: nat, off: nat)
    requires CopyFits(g, align, j, s, d, B) && off < j.length && Multiple(off, B)
    ensures var n := OneWay.Block(g, align, j, off);
            && OneWay.Aligned(g, j, off) && SectorCount(g, j.dst + off, j.dst + off + n) < MAX_ERASE_LOOPS
            && if off + B < j.length then n == B else off + n >= j.length
  {
    CopyStarts(g, align, j, s, d, B, off);
    CopyBlockIs(g, align, j, s, d, B, off);
    hide PadUp, Al, Regular, OneWay.Aligned, Multiple, OneWay.Block;
    GuardHolds(g, j.dst, j.dstSize, d, off, OneWay.Block(g, align, j, off), B);
  }

  lemma CopyBlockIs(g: Geometry, align: nat, j: OneWay.Job, s: nat, d: nat, B: nat, off: nat)
    requires CopyFits(g, align, j, s, d, B) && off < j.length && Multiple(off, B)
    ensures var n := OneWay.Block(g, align, j, off);
            && n == (if off + B <= j.length then B else PadUp(j.length - off, align))
            && n <= B && off + n <= j.dstSize
  {
    CopyStarts(g, align, j, s, d, B, off);
    MultipleAl(off, B, align);
    TailIs(j.length, off, align, B);
    PadUpLeast(j.length, align);
    PadUpLeast(j.length - off, align);
    LargerBlock(g, align, j, off, B);
  }

  /** The solver takes the larger of the two sectors, or the padded rest. */
  lemma LargerBlock(g: Geometry, align: nat, j: OneWay.Job, off: nat, B: nat)
    requires off < j.length && B in {g.size(j.src + off), g.size(j.dst + off)}
    requires g.size(j.src + off) <= B && g.size(j.dst + off) <= B
    ensures off + B <= j.length ==> OneWay.Block(g, align, j, off) == B
    ensures j.length < off + B ==> OneWay.Block(g, align, j, off) == PadUp(j.length - off, align)
  {
    hide PadUp;
  }

  lemma NumberOfBlocks(length: nat, B: nat) returns (q: nat)
    requires B > 0
    ensures NeedsBlocks(length, 0, B, q)
  {
    if length == 0 {
      q := 0;
    } else {
      q := (length - 1) / B + 1;
      assert length - 1 == (q - 1) * B + (length - 1) % B;
      assert (q - 1) * B == q * B - B;
    }
  }

  lemma CopyFinishes(g: Geometry, align: nat, j: OneWay.Job, s: nat, d: nat, B: nat)
    requires CopyFits(g, align, j, s, d, B) && j.length <= OneWay.ONEWAY_MAX_LOOPS * B
    ensures OneWay.JobOk(g, align, j) && OneWay.Finishes(g, align, j, 0)
  {
    CopyIsOk(g, align, j, s, d, B);
    var q := NumberOfBlocks(j.length, B);
    DivModUnique(0, 0, 0, B);
    CopyRuns(g, align, j, s, d, B, 0, q);
    FewBlocks(j.length, B, q, OneWay.ONEWAY_MAX_LOOPS);
  }

  lemma FewBlocks(length: nat, B: nat, q: nat, most: nat)
    requires NeedsBlocks(length, 0, B, q) && length <= most * B
    ensures q <= most
  {
    if q > most { MulMono(most, q - 1, B); }
  }

  /** Source, destination and backup slot of equal sectors each. */
  ghost predicate Laid(g: Geometry, align: nat, t: OneWay.Slots, ss: nat, sd: nat, sb: nat, B: nat, Bb: nat) {
    && CopyFits(g, align, OneWay.DeployJob(t), ss, sd, B) && t.length <= OneWay.ONEWAY_MAX_LOOPS * B
    && (t.backup != 0 ==>
          && CopyFits(g, align, OneWay.BackupJob(t), sd, sb, Bb)
          && CopyFits(g, align, OneWay.RevertJob(t), sb, sd, Bb) && t.length <= OneWay.ONEWAY_MAX_LOOPS * Bb
          && (t.src + t.srcSize <= t.backup || t.backup + t.backupSize <= t.src))
  }

  lemma LaidIsClean(g: Geometry, align: nat, t: OneWay.Slots, ss: nat, sd: nat, sb: nat, B: nat, Bb: nat)
    requires Laid(g, align, t, ss, sd, sb, B, Bb)
    ensures OneWay.Configured(g, align, t) && OneWay.Clean(g, align, t)
  {
    hide CopyFits, OneWay.JobOk, OneWay.Finishes;
    CopyFinishes(g, align, OneWay.DeployJob(t), ss, sd, B);
    if t.backup != 0 {
      CopyFinishes(g, align, OneWay.BackupJob(t), sd, sb, Bb);
      CopyFinishes(g, align, OneWay.RevertJob(t), sb, sd, Bb);
    }
  }

  /** oneway_apply on such a device, called again after every power cut. */
  method DeployImage(p: Platform, align: nat, t: OneWay.Slots, arena: nat, ghost ss: nat, ghost sd: nat,
                     ghost sb: nat, ghost B: nat, ghost Bb: nat) returns (st: Status, ghost reopened: bool)
    requires p.Valid() && Laid(p.g, align, t, ss, sd, sb, B, Bb) && arena >= 512
    requires t.length > 0 && t.verified && OneWay.InBounds(t) && p.log.phase == NoPhase
    modifies p
    ensures p.Valid() && st == Ok && t.dest + t.length <= |p.mem| && t.src + t.length <= |old(p.mem)|
    ensures t.backup != 0 ==> t.backup + t.length <= |p.mem| && t.dest + t.length <= |old(p.mem)|
    ensures Slice(p.mem, t.dest, t.length) == Slice(old(p.mem), t.src, t.length)
    ensures t.backup != 0 && !reopened ==>
              Slice(p.mem, t.backup, t.length) == Slice(old(p.mem), t.dest, t.length)
    ensures (reopened ==> p.cuts < old(p.cuts)) && OneWay.OnlySlots(t, old(p.mem), p.mem)
  {
    LaidIsClean(p.g, align, t, ss, sd, sb, B, Bb);
    OneWay.PlacedIn(p.g, align, t);
    hide Laid, OneWay.Configured, OneWay.Clean;
    ghost var im := OneWay.Images(Slice(p.mem, t.dest, t.length), Slice(p.mem, t.src, t.length));
    st, reopened := OneWay.RunToCompletion(p, align, t, arena, im);
  }

  // ---- The revert ------------------------------------------------------------------------

  /** With sectors of at least 64 bytes the revert finishes, and copies as many blocks as
      its image needs. */
  lemma RevertFinishes(g: Geometry, c: Revert.Config, h: Revert.Header, s: nat, d: nat, B: nat, q: nat)
    requires CopyFits(g, c.align, Revert.JobOf(c, h), s, d, B) && B >= 64 && NeedsBlocks(h.size, 0, B, q)
    ensures var j := Revert.JobOf(c, h);
            && OneWay.JobOk(g, c.align, j) && Revert.Finishes(g, c, j, 0)
            && OneWay.Rounds(g, c.align, j, 0) == q
  {
    var j := Revert.JobOf(c, h);
    CopyIsOk(g, c.align, j, s, d, B);
    DivModUnique(0, 0, 0, B);
    CopyRuns(g, c.align, j, s, d, B, 0, q);
    PadUpLeast(j.length, c.align);
    hide PadUp, Al, Regular, OneWay.JobOk, Tiling;
    FewInFlash(j.length, B, q, g.total);
  }

  lemma FewInFlash(length: nat, B: nat, q: nat, total: nat)
    requires NeedsBlocks(length, 0, B, q) && length <= total && B >= 64
    ensures q <= total / 64 + 1
  {
    var most := total / 64 + 1;
    assert total == total / 64 * 64 + total % 64;
    MulMono(64, B, most);
    FewBlocks(length, B, q, most);
  }

  /** An update through the scratch slot, its commit, a counted crash and the revert, on
      slots of equal sectors. */
  method UpdateAndRevert(dev: Revert.Device, x: SwapScratch.Config, commit: Journal.Entry, t: Journal.Tmr, arena: nat,
                         ghost sd: nat, ghost ss: nat, ghost sx: nat, ghost B: nat, ghost Bc: nat, ghost q: nat)
    returns (st: Status, counted: bool, reopened: nat, ghost closed: bool)
    requires dev.p.Valid() && dev.p.g == x.g && Fitted(x, sd, ss, sx, B) && arena >= 512
    requires !SwapScratch.Misaligned(x) && 8 <= x.length
    requires dev.p.log.intent != OtherIntent && dev.p.log.chunk == 0 && !dev.p.log.shield
    requires dev.wal.Valid() && commit.intent == Journal.Main(Revert.TXN_COMMIT) && t != dev.wal.tmr
    requires Revert.Failures(t) > 0 && x.dest + 8 <= |dev.p.mem|
    requires var h := Revert.HeaderAt(dev.p.mem, x.dest);
             && Revert.Genuine(h) && Revert.Fits(Revert.ConfigOf(x), h) && h.size <= x.length
             && NeedsBlocks(h.size, 0, Bc, q)
    requires Largest(Bc, ss, sd, sd) && Al(Bc, x.align) && InGuard(Bc, sd) && Bc >= 64
    modifies dev.p, dev.wal
    ensures dev.p.Valid()
    ensures closed ==> counted && reopened % 2 == 0
    ensures counted && reopened % 2 == 0 && !closed ==>
              (st == CounterExhausted && dev.wal.maxErase > 0) || (st == NotFound && dev.Forgotten())
    ensures x.dest + 8 <= |old(dev.p.mem)|
    ensures var n := old(Revert.HeaderAt(dev.p.mem, x.dest)).size;
            var room := Revert.Needed(q, old(dev.Cuts()), dev.wal.cap) <= 2 * dev.wal.cap;
            closed || (counted && reopened % 2 == 0 && st != CounterExhausted && room) ==>
              x.dest + n <= |dev.p.mem| && Slice(dev.p.mem, x.dest, n) == old(Slice(dev.p.mem, x.dest, n))
  {
    ghost var c, h := Revert.ConfigOf(x), Revert.HeaderAt(dev.p.mem, x.dest);
    PadUpMono(h.size, x.length, x.align);
    PadUpLeast(x.length, x.align);
    FittedIsClean(x, sd, ss, sx, B);
    RevertFinishes(x.g, c, h, ss, sd, Bc, q);
    hide Fitted, OneWay.JobOk, Revert.Finishes, OneWay.Rounds, Revert.HeaderAt, Revert.Needed;
    st, counted, reopened, closed := Revert.UpdateAndRevert(dev, x, commit, t, arena);
  }

  lemma PadUpMono(n: nat, m: nat, align: nat)
    requires n <= m
    ensures PadUp(n, align) <= PadUp(m, align)
  {
    PadUpLeast(n, align);
    PadUpLeast(m, align);
  }

  /** Regions of equal sectors on a device of equal sectors. */
  lemma UniformCopyFits(g: Geometry, align: nat, j: OneWay.Job, sec: nat)
    requires g == Uniform(sec, g.total) && Multiple(g.total, sec) && Al(sec, align)
    requires Multiple(j.src, sec) && Multiple(j.srcSize, sec) && j.src + j.srcSize <= g.total
    requires Multiple(j.dst, sec) && Multiple(j.dstSize, sec) && j.dst + j.dstSize <= g.total
    requires j.src + j.srcSize <= j.dst || j.dst + j.dstSize <= j.src
    requires PadUp(j.length, align) <= j.srcSize && PadUp(j.length, align) <= j.dstSize
    ensures CopyFits(g, align, j, sec, sec, sec)
  {
    UniformTiles(sec, g.total);
    UniformRegular(sec, g.total, j.src, j.srcSize);
    UniformRegular(sec, g.total, j.dst, j.dstSize);
    DivModUnique(sec, 1, 0, sec);
  }

  // ---- The exchange in place -------------------------------------------------------------

  /** Two disjoint regions of sectors of one size; the image in 32-bit arithmetic; a spare
      sector in the primary. */
  ghost predicate HasSpare(g: Geometry, t: SwapMove.Slots, sec: nat) {
    && Regular(g, t.dest, t.destSize, sec) && Regular(g, t.src, t.srcSize, sec)
    && (t.dest + t.destSize <= t.src || t.src + t.srcSize <= t.dest)
    && 0 < t.length && t.length + sec - 1 < SwapMove.U32
    && PadUp(t.length, sec) + sec <= t.destSize && PadUp(t.length, sec) <= t.srcSize
    && 2 * PadUp(t.length, sec) <= SwapMove.SM_MAX_LOOPS * sec
  }

  lemma RegularWhole(g: Geometry, base: nat, size: nat, sec: nat, n: nat)
    requires Regular(g, base, size, sec) && n * sec <= size
    ensures SwapMove.WholeSectors(g, base, sec, n)
  {
    forall i: nat | i < n ensures SwapMove.WholeAt(g, base, sec, i) {
      MulMono(i + 1, n, sec);
      assert (i + 1) * sec == i * sec + sec;
      ModOfMultiple(i, sec);
      SizeAt(g, base, size, sec, i * sec);
      OneSector(g, base + i * sec);
    }
  }

  /** An erase of exactly one sector. */
  lemma OneSector(g: Geometry, a: nat)
    requires g.size(a) > 0 && g.start(a) && a + g.size(a) <= g.total
    ensures Erasable(g, a, a + g.size(a)) && EraseEnd(g, a, a + g.size(a)) == a + g.size(a)
    ensures SectorCount(g, a, a + g.size(a)) == 1
  {
    var e := a + g.size(a);
    assert Erasable(g, e, e) && EraseEnd(g, e, e) == e && SectorCount(g, e, e) == 0;
  }

  lemma CountIs(t: SwapMove.Slots, sec: nat)
    requires sec > 0 && 0 < t.length && t.length + sec - 1 < SwapMove.U32
    ensures SwapMove.Count(t, sec) > 0 && SwapMove.Count(t, sec) * sec == PadUp(t.length, sec)
  {
    SwapMove.CountCovers(t, sec);
    PadUpLeast(t.length, sec);
    hide SwapMove.Count, PadUp;
    LeastMultiple(t.length, sec, SwapMove.Count(t, sec), PadUp(t.length, sec));
  }

  lemma LeastMultiple(length: nat, sec: nat, n: nat, r: nat)
    requires sec > 0 && n > 0 && (n - 1) * sec < length <= n * sec
    requires length <= r && Al(r, sec) && forall m: nat :: length <= m && Al(m, sec) ==> r <= m
    ensures n * sec == r
  {
    ModOfMultiple(n, sec);
    var k := r / sec;
    assert r == k * sec;
    assert Al(n * sec, sec);
    if k < n { MulMono(k, n - 1, sec); }
  }

  lemma SpareIsOk(g: Geometry, t: SwapMove.Slots, sec: nat)
    requires HasSpare(g, t, sec)
    ensures g.size(t.dest) == sec && SwapMove.Configured(g, t) && SwapMove.Accepts(g, t)
    ensures 2 * SwapMove.Count(t, sec) <= SwapMove.SM_MAX_LOOPS
  {
    CountIs(t, sec);
    SizeAt(g, t.dest, t.destSize, sec, 0);
    SizeAt(g, t.src, t.srcSize, sec, 0);
    DivModUnique(0, 0, 0, sec);
    hide Regular, PadUp, SwapMove.WholeSectors, SwapMove.Count, Multiple;
    var n := SwapMove.Count(t, sec);
    assert (n + 1) * sec == n * sec + sec;
    RegularWhole(g, t.dest, t.destSize, sec, n + 1);
    RegularWhole(g, t.src, t.srcSize, sec, n);
    HalfOf(n, sec, SwapMove.SM_MAX_LOOPS);
  }

  lemma HalfOf(n: nat, sec: nat, most: nat)
    requires sec > 0 && 2 * (n * sec) <= most * sec
    ensures 2 * n <= most
  {
    assert 2 * (n * sec) == (2 * n) * sec;
    if 2 * n > most { MulMono(most + 1, 2 * n, sec); }
  }

  /** Two rows of equal sectors hold equal bytes. */
  lemma {:induction false} SameRows(m: Bytes, a: nat, m': Bytes, b: nat, sec: nat, n: nat)
    requires a + n * sec <= |m| && b + n * sec <= |m'|
    requires forall i: nat :: i < n ==> SwapMove.SectorAt(m, a, sec, i) == SwapMove.SectorAt(m', b, sec, i)
    ensures Slice(m, a, n * sec) == Slice(m', b, n * sec)
  {
    if n > 0 {
      assert n * sec == (n - 1) * sec + sec;
      SameRows(m, a, m', b, sec, n - 1);
      Joined(m, a, (n - 1) * sec, sec);
      Joined(m', b, (n - 1) * sec, sec);
      assert SwapMove.SectorAt(m, a, sec, n - 1) == SwapMove.SectorAt(m', b, sec, n - 1);
    }
  }

  lemma SameImages(m: Bytes, a: nat, n: nat, m': Bytes, b: nat, n': nat, sec: nat, k: nat, length: nat)
    requires k <= n && k <= n' && length <= k * sec && a + k * sec <= |m| && b + k * sec <= |m'|
    requires SwapMove.Row(m, a, sec, n)[..k] == SwapMove.Row(m', b, sec, n')[..k]
    ensures Slice(m, a, length) == Slice(m', b, length)
  {
    forall i: nat | i < k ensures SwapMove.SectorAt(m, a, sec, i) == SwapMove.SectorAt(m', b, sec, i) {
      assert SwapMove.Row(m, a, sec, n)[..k][i] == SwapMove.Row(m', b, sec, n')[..k][i];
    }
    SameRows(m, a, m', b, sec, k);
    Joined(m, a, length, k * sec - length);
    Joined(m', b, length, k * sec - length);
  }

  /** Flash changed in the two regions only. */
  ghost predicate OnlyRegions(t: SwapMove.Slots, m0: Bytes, m1: Bytes) {
    && |m0| == |m1|
    && forall a :: 0 <= a < |m0| && !InRegions(t, a) ==> m1[a] == m0[a]
  }

  predicate InRegions(t: SwapMove.Slots, a: int) {
    t.dest <= a < t.dest + t.destSize || t.src <= a < t.src + t.srcSize
  }

  lemma RowsInRegions(t: SwapMove.Slots, sec: nat, g: Geometry, m0: Bytes, m1: Bytes)
    requires SwapMove.Accepts(g, t) && g.size(t.dest) == sec && SwapMove.OnlyRows(SwapMove.MakeCtx(g, t), m0, m1)
    requires SwapMove.Count(t, sec) * sec + sec <= t.destSize && SwapMove.Count(t, sec) * sec <= t.srcSize
    ensures OnlyRegions(t, m0, m1)
  {
    hide SwapMove.Count;
    var n := SwapMove.Count(t, sec);
    assert (n + 1) * sec == n * sec + sec;
    forall a | 0 <= a < |m0| && !InRegions(t, a) ensures m1[a] == m0[a] {
      assert !SwapMove.InRow(SwapMove.MakeCtx(g, t), a);
    }
  }

  /** swapmove_apply on such a device, called again after every power cut: an odd number of
      closing entries leaves the images exchanged, and there is only one without a cut. */
  method ExchangeInPlace(p: Platform, t: SwapMove.Slots, arena: nat, ghost sec: nat)
    returns (st: Status, ghost closings: nat)
    requires p.Valid() && HasSpare(p.g, t, sec) && t.verified && arena >= 512
    requires p.log.phase != SwapmoveMove && p.log.phase != SwapmoveSwap
    modifies p
    ensures p.Valid() && st == Ok && 0 < closings <= 1 + old(p.cuts) - p.cuts
    ensures t.dest + t.length <= |p.mem| == |old(p.mem)| && t.src + t.length <= |p.mem|
    ensures closings % 2 == 1 ==>
              && Slice(p.mem, t.dest, t.length) == Slice(old(p.mem), t.src, t.length)
              && Slice(p.mem, t.src, t.length) == Slice(old(p.mem), t.dest, t.length)
    ensures closings % 2 == 0 ==>
              && Slice(p.mem, t.dest, t.length) == Slice(old(p.mem), t.dest, t.length)
              && Slice(p.mem, t.src, t.length) == Slice(old(p.mem), t.src, t.length)
    ensures OnlyRegions(t, old(p.mem), p.mem)
  {
    SpareIsOk(p.g, t, sec);
    CountIs(t, sec);
    PadUpLeast(t.length, sec);
    hide SwapMove.Configured, Regular, PadUp, SwapMove.Count, SwapMove.Accepts;
    ghost var n, m := SwapMove.Count(t, sec), p.mem;
    st, closings := SwapMove.RunToCompletion(p, t, arena);
    ghost var v, w := SwapMove.Row(p.mem, t.dest, sec, n + 1), SwapMove.Row(p.mem, t.src, sec, n);
    ghost var v0, w0 := SwapMove.Row(m, t.dest, sec, n + 1), SwapMove.Row(m, t.src, sec, n);
    assert SwapMove.ExchangedTimes(closings, v, w, v0, w0);
    RowsInRegions(t, sec, p.g, m, p.mem);
    hide SwapMove.Row;
    assert w[..n] == w && w0[..n] == w0;
    if closings % 2 == 1 {
      SameImages(p.mem, t.dest, n + 1, m, t.src, n, sec, n, t.length);
      SameImages(p.mem, t.src, n, m, t.dest, n + 1, sec, n, t.length);
    } else {
      SameImages(p.mem, t.dest, n + 1, m, t.dest, n + 1, sec, n, t.length);
      SameImages(p.mem, t.src, n, m, t.src, n, sec, n, t.length);
    }
  }
}
