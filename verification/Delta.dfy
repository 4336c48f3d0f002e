/** The streaming delta VM: a write-combining buffer over an instruction stream, with
    sector-aligned checkpoints and dry replay (toobloader/core/boot_delta.c). */
module DeltaVm {
  import opened FlashModel
  import opened Wrappers
  import EffectEngine

  const MAX_INSTRUCTIONS: nat := 1000000

  datatype Instr = CopyBase(off: nat, len: nat) | Zero(len: nat) | InsertLit(clen: nat) | Unknown

  /** A parsed delta: the instructions before the EOF marker, whether that marker came
      within the declared count, the literal block, the base image, and the size the
      header declares.  `dec` is the decompressor: what it has put out after it was fed
      some bytes. */
  datatype Stream = Stream(instrs: seq<Instr>, terminated: bool, lits: Bytes, base: Bytes, target: nat,
                           dec: Bytes -> Bytes)

  /** More input never takes output back. */
  ghost predicate Incremental(dec: Bytes -> Bytes) {
    dec([]) == [] && forall x: Bytes, y: Bytes :: dec(x) <= dec(x + y)
  }

  // ---- The meaning of a stream -----------------------------------------------------

  /** Output so far, and literal bytes consumed. */
  datatype Machine = Machine(out: Bytes, lit: nat)

  ghost function Step(s: Stream, m: Machine, i: Instr): (r: Option<Machine>)
    requires Incremental(s.dec)
  {
    match i
    case CopyBase(off, len) =>
      if |m.out| + len > s.target || (len > 0 && off + len > |s.base|) then None
      else if len == 0 then Some(m) else Some(m.(out := m.out + s.base[off..off + len]))
    case Zero(len) =>
      if |m.out| + len > s.target then None else Some(m.(out := m.out + Zeros(len)))
    case InsertLit(clen) =>
      if m.lit + clen > |s.lits| then None
      else
        var more := Inserted(s, m.lit, clen);
        if |m.out| + |more| > s.target then None else Some(Machine(m.out + more, m.lit + clen))
    case Unknown => None
  }

  /** What the decompressor puts out for the next clen literal bytes. */
  ghost function Inserted(s: Stream, lit: nat, clen: nat): Bytes
    requires Incremental(s.dec) && lit + clen <= |s.lits|
  {
    assert s.lits[..lit + clen] == s.lits[..lit] + s.lits[lit..lit + clen];
    assert s.dec(s.lits[..lit]) <= s.dec(s.lits[..lit] + s.lits[lit..lit + clen]);
    s.dec(s.lits[..lit + clen])[|s.dec(s.lits[..lit])|..]
  }

  ghost function Run(s: Stream, k: nat): (r: Option<Machine>)
    requires Incremental(s.dec) && k <= |s.instrs|
  {
    if k == 0 then Some(Machine([], 0))
    else
      var prev := Run(s, k - 1);
      if prev.None? then None else Step(s, prev.value, s.instrs[k - 1])
  }

  ghost predicate WellFormed(s: Stream) {
    && Incremental(s.dec) && s.terminated && |s.instrs| < MAX_INSTRUCTIONS
    && var r := Run(s, |s.instrs|); r.Some? && |r.value.out| == s.target
  }

  ghost function Output(s: Stream): (out: Bytes)
    requires WellFormed(s)
    ensures |out| == s.target
  {
    Run(s, |s.instrs|).value.out
  }

  /** How many of the first k instructions run. */
  ghost function Reach(s: Stream, k: nat): (n: nat)
    requires Incremental(s.dec) && k <= |s.instrs|
    ensures n <= k && Run(s, n).Some?
  {
    if Run(s, k).Some? then k else Reach(s, k - 1)
  }

  /** What an instruction that fails puts out before it does: a COPY up to the end of the
      base image, an INSERT up to the end of the literals or of the target. */
  ghost function Part(s: Stream, m: Machine, i: Instr): Bytes
    requires Incremental(s.dec) && m.lit <= |s.lits| && |m.out| <= s.target
  {
    match i
    case CopyBase(off, len) =>
      if |m.out| + len > s.target || off > |s.base| then [] else s.base[off..Min(off + len, |s.base|)]
    case InsertLit(clen) => Clip(Inserted(s, m.lit, Min(clen, |s.lits| - m.lit)), s.target - |m.out|)
    case Zero(_) => []
    case Unknown => []
  }

  ghost function Clip(x: Bytes, n: nat): (y: Bytes)
    ensures y <= x && |y| == Min(|x|, n)
  {
    x[..Min(|x|, n)]
  }

  lemma {:induction false} MachineFits(s: Stream, k: nat)
    requires Incremental(s.dec) && k <= |s.instrs| && Run(s, k).Some?
    ensures Run(s, k).value.lit <= |s.lits| && |Run(s, k).value.out| <= s.target
  {
    if k > 0 { MachineFits(s, k - 1); }
  }

  /** All that a stream, well-formed or not, can ever put out. */
  ghost function Most(s: Stream): (out: Bytes)
    requires Incremental(s.dec)
    ensures WellFormed(s) ==> out == Output(s)
    ensures |out| <= s.target
  {
    var k := Reach(s, |s.instrs|);
    MachineFits(s, k);
    var m := Run(s, k).value;
    if k == |s.instrs| then m.out else m.out + Part(s, m, s.instrs[k])
  }

  /** The stream comes to its EOF marker. */
  ghost predicate Ends(s: Stream)
    requires Incremental(s.dec)
  {
    s.terminated && Run(s, |s.instrs|).Some?
  }

  /** Output that the final, padded flush may write out. */
  ghost predicate Final(s: Stream, out: Bytes)
    requires Incremental(s.dec)
  {
    out == Most(s) && (Ends(s) || |out| == s.target)
  }

  /** Output only grows. */
  lemma {:induction false} RunGrows(s: Stream, j: nat, k: nat)
    requires Incremental(s.dec) && j <= k <= |s.instrs| && Run(s, k).Some?
    ensures Run(s, j).Some? && Run(s, j).value.out <= Run(s, k).value.out
    decreases k
  {
    if j < k {
      RunGrows(s, j, k - 1);
      assert Run(s, k - 1).value.out <= Run(s, k).value.out;
    }
  }

  // ---- Windows: where the buffer starts ----------------------------------------------

  /** x is q plus a number of full windows. */
  ghost predicate OnGrid(q: nat, cap: nat, x: nat)
    decreases x
  {
    x == q || (cap > 0 && x >= q + cap && OnGrid(q, cap, x - cap))
  }

  /** The first window end past c. */
  ghost function NextGrid(q: nat, cap: nat, c: nat): (e: nat)
    requires cap > 0
    decreases c + cap - q
  {
    if q > c then q else NextGrid(q + cap, cap, c)
  }

  lemma {:induction false} GridAl(q: nat, cap: nat, x: nat, align: nat)
    requires OnGrid(q, cap, x) && Al(cap, align)
    ensures Al(x, align) <==> Al(q, align)
    decreases x
  {
    if x != q {
      GridAl(q, cap, x - cap, align);
      AlShift(x, cap, align);
    }
  }

  /** The window that holds c ends at the next grid point. */
  lemma {:induction false} GridNext(q: nat, cap: nat, x: nat, c: nat)
    requires cap > 0 && OnGrid(q, cap, x) && x <= c < x + cap
    ensures NextGrid(q, cap, c) == x + cap
    decreases x - q
  {
    if x != q {
      GridFrom(q, cap, x);
      GridNext(q + cap, cap, x, c);
    }
  }

  lemma {:induction false} GridFrom(q: nat, cap: nat, x: nat)
    requires cap > 0 && OnGrid(q, cap, x) && x != q
    ensures x >= q + cap && OnGrid(q + cap, cap, x)
    decreases x
  {
    if x - cap != q { GridFrom(q, cap, x - cap); }
  }

  /** The last grid point below f. */
  ghost function GridBelow(first: nat, cap: nat, f: nat): (x: nat)
    requires cap > 0 && first < f
    ensures first <= x < f
    decreases f - first
  {
    if f <= first + cap then first else GridBelow(first + cap, cap, f)
  }

  lemma {:induction false} GridBelowIs(first: nat, cap: nat, x: nat, f: nat)
    requires cap > 0 && OnGrid(first, cap, x) && x < f <= x + cap
    ensures first < f && GridBelow(first, cap, f) == x
    decreases x - first
  {
    GridAbove(first, cap, x);
    if x != first {
      GridFrom(first, cap, x);
      GridBelowIs(first + cap, cap, x, f);
    }
  }

  /** Where the buffer was last restarted on a resume at checkpoint c: the end (at
      most c) of the last non-empty COPY or ZERO that starts below c. */
  ghost function Restart(s: Stream, k: nat, c: nat): (q: nat)
    requires Incremental(s.dec) && k <= |s.instrs|
    ensures q <= c
  {
    if k == 0 then 0
    else
      var q, prev, i := Restart(s, k - 1, c), Run(s, k - 1), s.instrs[k - 1];
      if prev.Some? && (i.CopyBase? || i.Zero?) && i.len > 0 && |prev.value.out| < c
      then Min(|prev.value.out| + i.len, c)
      else q
  }

  // ---- The VM ----------------------------------------------------------------------

  /** Where things are.  `sink` bounds what one call feeds the decompressor, and
      `maxSector` is CHIP_FLASH_MAX_SECTOR_SIZE, which throttles checkpoints. */
  datatype Config = Config(g: Geometry, dest: nat, destSize: nat, base: nat, lit: nat,
                           cap: nat, align: nat, sink: nat, maxSector: nat)

  ghost predicate SectorAl(g: Geometry, align: nat, a: nat) {
    Boundary(g, a) ==> Al(a, align)
  }

  /** A destination of whole sectors, apart from the base image and the literals, and
      a window that is a multiple of the write alignment. */
  ghost predicate Configured(c: Config, s: Stream) {
    && Tiling(c.g) && Boundary(c.g, c.dest) && Boundary(c.g, c.dest + c.destSize)
    && (forall a: nat :: SectorAl(c.g, c.align, a))
    && 0 < s.target <= c.destSize && c.cap > 0 && Al(c.cap, c.align) && c.sink > 0
    && Apart(c, c.base, |s.base|) && Apart(c, c.lit, |s.lits|)
    && Incremental(s.dec)
  }

  ghost predicate Apart(c: Config, a: nat, n: nat) {
    a + n <= c.g.total && (a + n <= c.dest || c.dest + c.destSize <= a)
  }

  lemma Aligned(c: Config, s: Stream, x: nat)
    requires Configured(c, s) && Boundary(c.g, c.dest + x)
    ensures Al(c.dest, c.align) && Al(x, c.align)
  {
    assert SectorAl(c.g, c.align, c.dest) && SectorAl(c.g, c.align, c.dest + x);
    AlShift(c.dest + x, c.dest, c.align);
  }

  /** The padded image fits. */
  lemma PaddedFits(c: Config, s: Stream)
    requires Configured(c, s)
    ensures s.target <= PadUp(s.target, c.align) <= c.destSize
  {
    Aligned(c, s, c.destSize);
    PadUpLeast(s.target, c.align);
  }

  // ---- Which checkpoints are logged ----------------------------------------------------

  /** The last sector end at or below f, from the destination base on. */
  ghost function Mark(c: Config, f: nat): (m: nat)
    ensures m <= f && (Boundary(c.g, c.dest) ==> Boundary(c.g, c.dest + m))
    ensures Boundary(c.g, c.dest + f) ==> m == f
  {
    if f == 0 || Boundary(c.g, c.dest + f) then f else Mark(c, f - 1)
  }

  lemma NoneInside(g: Geometry, a: nat, b: nat)
    requires Tiling(g) && Boundary(g, a) && a < b < a + g.size(a)
    ensures !Boundary(g, b)
  {
    if a < g.total {
      assert SectorOk(g, a);
      assert !Inside(g, a, b);
    }
  }

  lemma {:induction false} MarkIs(c: Config, f: nat, x: nat)
    requires Tiling(c.g) && Boundary(c.g, c.dest + x) && x <= f < x + c.g.size(c.dest + x)
    ensures Mark(c, f) == x
    decreases f
  {
    if x < f {
      NoneInside(c.g, c.dest + x, c.dest + f);
      MarkIs(c, f - 1, x);
    }
  }

  /** The write frontier before f, in a run that resumed at c0 and whose first full window
      ends at `first`. */
  ghost function Prev(c0: nat, first: nat, cap: nat, f: nat): (x: nat)
    requires cap > 0 && c0 < f
    ensures x < f && (f > first >= c0 ==> x >= c0) && (f <= first ==> x == c0)
  {
    if f <= first then c0 else GridBelow(first, cap, f)
  }

  /** The checkpoint of that run once its write frontier is at f: the mark is logged each
      time it is the throttle or more past the last one logged. */
  ghost function Anchor(c: Config, c0: nat, first: nat, f: nat): (x: nat)
    requires c.cap > 0
    ensures (x <= c0 || x <= f) && (f <= c0 ==> x == c0)
    ensures Boundary(c.g, c.dest) && Boundary(c.g, c.dest + c0) ==> Boundary(c.g, c.dest + x)
    decreases f
  {
    if f <= c0 then c0
    else
      var x := Anchor(c, c0, first, Prev(c0, first, c.cap, f));
      if Mark(c, f) >= x + c.maxSector then Mark(c, f) else x
  }

  lemma AnchorStep(c: Config, c0: nat, first: nat, f: nat)
    requires c.cap > 0 && c0 < f
    ensures var x := Anchor(c, c0, first, Prev(c0, first, c.cap, f));
            Anchor(c, c0, first, f) == if Mark(c, f) >= x + c.maxSector then Mark(c, f) else x
  {
  }

  /** Where the first full window of a run of the whole stream from c0 ends. */
  ghost function FirstEnd(c: Config, s: Stream, c0: nat): nat
    requires c.cap > 0 && Incremental(s.dec)
  {
    NextGrid(Restart(s, |s.instrs|, c0), c.cap, c0)
  }

  /** A run from c0 may log x. */
  ghost predicate Logs(c: Config, s: Stream, c0: nat, x: nat)
    requires c.cap > 0 && Incremental(s.dec)
  {
    exists f: nat :: f <= PadUp(s.target, c.align) && x == Anchor(c, c0, FirstEnd(c, s, c0), f)
  }

  /** The last checkpoint of a run from c0 that is not cut. */
  ghost function LastLogged(c: Config, s: Stream, c0: nat): nat
    requires c.cap > 0 && Incremental(s.dec)
  {
    Anchor(c, c0, FirstEnd(c, s, c0), PadUp(s.target, c.align))
  }

  /** All that a run of the stream may ever write. */
  ghost function Full(c: Config, s: Stream): (m: Bytes)
    requires Incremental(s.dec)
    ensures Most(s) <= m
  {
    var out := Most(s);
    if Final(s, out) then out + Blank(PadUp(|out|, c.align) - |out|) else out
  }

  lemma FullIsImage(c: Config, s: Stream)
    requires WellFormed(s)
    ensures Full(c, s) == Image(c, s)
  {
    hide PadUp, Most;
  }

  /** The output, padded with erased bytes to the write alignment. */
  ghost function Image(c: Config, s: Stream): (m: Bytes)
    requires WellFormed(s)
    ensures |m| == PadUp(s.target, c.align)
  {
    Output(s) + Blank(PadUp(s.target, c.align) - s.target)
  }

  // The parts of the VM's invariant, over plain values.

  /** The base image and the literals are in flash. */
  ghost predicate Inputs(c: Config, s: Stream, m: Bytes) {
    && |m| == c.g.total && c.base + |s.base| <= |m| && c.lit + |s.lits| <= |m|
    && Slice(m, c.base, |s.base|) == s.base && Slice(m, c.lit, |s.lits|) == s.lits
  }

  /** `done` is on flash, and only the destination has changed. */
  ghost predicate Written(c: Config, m0: Bytes, m: Bytes, done: Bytes) {
    && |m| == c.g.total && c.dest + |done| <= c.dest + c.destSize <= |m|
    && SameOutside(m0, m, c.dest, c.dest + c.destSize) && Slice(m, c.dest, |done|) == done
  }

  /** Everything between the write frontier and the erase frontier is blank. */
  ghost predicate Frontier(c: Config, m: Bytes, done: Bytes, erasedEnd: nat) {
    && c.dest + |done| <= erasedEnd <= c.dest + c.destSize && Boundary(c.g, erasedEnd)
    && AllErased(m, c.dest + |done|, erasedEnd)
  }

  /** The buffer holds the run of output that ends at target_off, and starts no later
      than the write frontier. */
  ghost predicate Buffered(c: Config, buf: Bytes, out: Bytes, done: Bytes) {
    && |buf| <= c.cap && |buf| <= |out| && buf == out[|out| - |buf|..] && |out| - |buf| <= |done|
    && Agrees(out, done)
  }

  ghost predicate Agrees(out: Bytes, done: Bytes) {
    forall i :: 0 <= i < |out| && i < |done| ==> out[i] == done[i]
  }

  /** What is produced and written is what the stream means. */
  ghost predicate Meant(c: Config, s: Stream, out: Bytes, done: Bytes) {
    Incremental(s.dec) && out <= Most(s) && done <= Full(c, s)
  }

  /** Checkpoints are sector starts below the write frontier. */
  ghost predicate Marks(c: Config, done: Bytes, committed: nat, checkpoint: nat) {
    checkpoint <= committed <= |done| && Boundary(c.g, c.dest + committed) && Boundary(c.g, c.dest + checkpoint)
  }

  /** The VM's checkpoint is the one in the newest log entry. */
  ghost predicate Latest(c0: nat, log0: Txn, log: Txn, checkpoint: nat) {
    checkpoint == log.chunk || (log == log0 && checkpoint == c0)
  }

  /** After a flush the mark has passed every complete sector, and what is not logged yet
      is less than the throttle. */
  ghost predicate Throttled(c: Config, done: Bytes, committed: nat, checkpoint: nat) {
    && (committed == checkpoint || committed < checkpoint + c.maxSector)
    && (c.dest + committed < c.g.total ==> |done| < committed + c.g.size(c.dest + committed))
  }

  /** The newest log entry is the one the run started from, or a checkpoint. */
  ghost predicate Checkpointed(c: Config, s: Stream, c0: nat, log0: Txn, log: Txn, done: Bytes) {
    || log == log0
    || (&& log == log0.(chunk := log.chunk) && log.chunk <= |done| && Boundary(c.g, c.dest + log.chunk)
        && (WellFormed(s) && c.cap > 0 ==> Logs(c, s, c0, log.chunk)))
  }

  /** The VM's checkpoint is the one that the frontiers so far lead to. */
  ghost predicate Paced(c: Config, c0: nat, q: nat, done: Bytes, checkpoint: nat) {
    c.cap > 0 ==> checkpoint == Anchor(c, c0, NextGrid(q, c.cap, c0), |done|)
  }

  /** At the start it does not matter where the buffer starts. */
  lemma PacedAtStart(c: Config, c0: nat, q: nat, done: Bytes, checkpoint: nat)
    requires |done| == c0 && c.cap > 0
    ensures Paced(c, c0, q, done, checkpoint) <==> checkpoint == c0
  {
  }

  /** The first write of a run that resumed at c0 cannot be misaligned. */
  ghost predicate Fits(c: Config, target: nat, c0: nat, q: nat)
    requires c.cap > 0
  {
    q >= c0 || Al(q, c.align) || PadUp(target, c.align) <= NextGrid(q, c.cap, c0)
  }

  /** Before the first write the buffer starts on the grid of windows; after it, at the
      write frontier, except once the final padded write is done. */
  ghost predicate Window(c: Config, s: Stream, c0: nat, q: nat, buf: Bytes, out: Bytes, done: Bytes)
    requires c.cap > 0
  {
    && Al(|done|, c.align) && |buf| <= |out| && |out| <= s.target && q <= c0
    && (WellFormed(s) && |out| >= c0 ==> q == Restart(s, |s.instrs|, c0))
    && if |done| == c0 then OnGrid(q, c.cap, |out| - |buf|) || (buf == [] && |out| == s.target)
       else
         && c0 < |done| && Fits(c, s.target, c0, q) && c.dest + |done| < c.g.total
         && ((|out| - |buf| == |done| && OnGrid(NextGrid(q, c.cap, c0), c.cap, |done|))
             || (buf == [] && |out| == s.target && |done| == PadUp(|out|, c.align)))
  }

  /** A resume at c0 that can never be completed: its first write is misaligned. */
  ghost predicate Misfit(c: Config, s: Stream, c0: nat)
    requires WellFormed(s) && c.cap > 0
  {
    !Fits(c, s.target, c0, Restart(s, |s.instrs|, c0))
  }

  /** How many bytes of padding the final flush adds. */
  function Pad(n: nat, align: nat, last: bool): nat {
    if last then PadUp(n, align) - n else 0
  }

  /** The write of a flush is aligned and fits the window, unless the resume point is a
      misfit; and after it the buffer is empty at the new frontier. */
  lemma FlushPlan(c: Config, s: Stream, c0: nat, q: nat, buf: Bytes, out: Bytes, done: Bytes, last: bool)
    requires Configured(c, s) && Buffered(c, buf, out, done) && Window(c, s, c0, q, buf, out, done)
             && Meant(c, s, out, done)
    requires c0 <= |done| < |out| && Al(c0, c.align)
    requires if last then Final(s, out) else |buf| == c.cap
    ensures var n, skip := |out| - |done|, |done| - (|out| - |buf|);
            var k := n + Pad(n, c.align, last);
            && (skip + k > c.cap || !Al(k, c.align) ==> WellFormed(s) ==> Misfit(c, s, c0))
            && ((last ==> |out| == s.target) ==>
                  skip + k <= c.cap && Al(k, c.align) && c.dest + |done| + k < c.g.total ==>
                    Window(c, s, c0, q, [], out, out + Blank(Pad(n, c.align, last))))
  {
    hide Incremental, Tiling, Agrees, PadUp, SectorAl, Boundary, Run, Restart, Al, NextGrid, OnGrid;
    AlZero(c.align);
    var start, n := |out| - |buf|, |out| - |done|;
    PadUpLeast(n, c.align);
    PadUpLeast(|out|, c.align);
    PadUpLeast(s.target, c.align);
    PadUpShift(|done|, n, c.align);
    AlShift(n, |done|, c.align);
    AlShift(PadUp(n, c.align), |done|, c.align);
    if |done| == c0 {
      GridNext(q, c.cap, start, c0);
      GridAl(q, c.cap, start, c.align);
      AlShift(start, c.cap, c.align);
      GridPoint(start + c.cap, c.cap);
    } else {
      assert start == |done|;
      GridStep(NextGrid(q, c.cap, c0), c.cap, |done|);
    }
  }

  /** A flush that fits the window moves the frontier one step. */
  lemma FlushPrev(c: Config, s: Stream, c0: nat, q: nat, buf: Bytes, out: Bytes, done: Bytes, f: nat)
    requires c.cap > 0 && Buffered(c, buf, out, done) && Window(c, s, c0, q, buf, out, done)
    requires c0 <= |done| < |out| <= f
    ensures f <= |out| - |buf| + c.cap ==> Prev(c0, NextGrid(q, c.cap, c0), c.cap, f) == |done|
  {
    hide Agrees, PadUp, Restart, Al, NextGrid, OnGrid, WellFormed, Fits;
    var start := |out| - |buf|;
    if |done| == c0 {
      GridNext(q, c.cap, start, c0);
    } else if f <= start + c.cap {
      GridBelowIs(NextGrid(q, c.cap, c0), c.cap, |done|, f);
    }
  }

  lemma GridPoint(x: nat, cap: nat)
    ensures OnGrid(x, cap, x)
  {
  }

  lemma GridStep(first: nat, cap: nat, x: nat)
    requires cap > 0 && OnGrid(first, cap, x)
    ensures OnGrid(first, cap, x + cap)
  {
    GridAbove(first, cap, x);
  }

  /** A buffer that lies below the write frontier may be dropped. */
  lemma Discarded(c: Config, s: Stream, c0: nat, q: nat, buf: Bytes, out: Bytes, done: Bytes)
    requires c.cap > 0 && Buffered(c, buf, out, done) && Window(c, s, c0, q, buf, out, done) && |out| <= |done|
    ensures Buffered(c, [], out, done)
    ensures buf == [] || |buf| == c.cap || |out| == s.target ==> Window(c, s, c0, q, [], out, done)
  {
    hide WellFormed, PadUp, NextGrid, Restart, Al, Fits;
    if |done| == c0 && |buf| == c.cap && OnGrid(q, c.cap, |out| - |buf|) { GridAbove(q, c.cap, |out| - |buf|); }
  }

  lemma {:induction false} GridAbove(q: nat, cap: nat, x: nat)
    requires OnGrid(q, cap, x)
    ensures q <= x
  {
  }

  /** What a flush writes continues what is on flash, fits the destination, and is meant. */
  lemma FlushEffect(c: Config, s: Stream, c0: nat, buf: Bytes, out: Bytes, done: Bytes, last: bool)
    requires Configured(c, s) && Buffered(c, buf, out, done) && Meant(c, s, out, done)
    requires |done| < |out| <= s.target && Al(|done|, c.align) && (last ==> Final(s, out))
    ensures var skip, pad := |done| - (|out| - |buf|), Pad(|out| - |done|, c.align, last);
            var more := out + Blank(pad);
            && 0 <= skip <= |buf| && done + (buf[skip..] + Blank(pad)) == more && |more| <= c.destSize
            && Meant(c, s, out, more) && Buffered(c, [], out, more)
  {
    hide Incremental, Tiling, PadUp, SectorAl, Boundary, Run, Al;
    var skip, n := |done| - (|out| - |buf|), |out| - |done|;
    PaddedFits(c, s);
    PadUpLeast(|out|, c.align);
    PadUpLeast(s.target, c.align);
    PadUpShift(|done|, n, c.align);
    assert buf[skip..] == out[|done|..];
    assert done == out[..|done|];
  }

  /** A resume at c0 that cannot be completed: a misfit, or a destination that ends at
      the very end of flash, where the commit loop asks for a sector that is not there. */
  ghost predicate Stuck(c: Config, s: Stream, c0: nat)
    requires WellFormed(s) && c.cap > 0
  {
    Misfit(c, s, c0) || (c0 < s.target && c.dest + PadUp(s.target, c.align) == c.g.total)
  }

  ghost predicate Doomed(c: Config, s: Stream, c0: nat) {
    c.cap > 0 && WellFormed(s) ==> Stuck(c, s, c0)
  }

  /** All that a flush of new output needs. */
  lemma FlushFacts(c: Config, s: Stream, c0: nat, q: nat, buf: Bytes, out: Bytes, done: Bytes, last: bool)
    requires Configured(c, s) && Buffered(c, buf, out, done) && Window(c, s, c0, q, buf, out, done)
             && Meant(c, s, out, done)
    requires c0 <= |done| < |out| <= s.target && Al(c0, c.align)
    requires if last then Final(s, out) else |buf| == c.cap
    ensures var n, skip := |out| - |done|, |done| - (|out| - |buf|);
            var pad := Pad(n, c.align, last);
            var more := out + Blank(pad);
            && 0 <= skip <= |buf| && done + (buf[skip..] + Blank(pad)) == more && |more| <= c.destSize
            && (skip + n + pad > c.cap || !Al(n + pad, c.align) || c.dest + |more| == c.g.total ==> Doomed(c, s, c0))
            && Meant(c, s, out, more) && Buffered(c, [], out, more)
            && ((last ==> |out| == s.target) ==>
                  skip + n + pad <= c.cap && Al(n + pad, c.align) && c.dest + |more| < c.g.total ==>
                    Window(c, s, c0, q, [], out, more))
  {
    hide Tiling, Boundary, Incremental, Agrees, Al, PadUp, Fits, WellFormed, Buffered, Window;
    WindowAl(c, s, c0, q, buf, out, done);
    FlushPlan(c, s, c0, q, buf, out, done, last);
    FlushEffect(c, s, c0, buf, out, done, last);
    PaddedFits(c, s);
    InFlash(c, s);
  }

  lemma MeantFits(c: Config, s: Stream, out: Bytes, done: Bytes)
    requires Meant(c, s, out, done)
    ensures |done| <= PadUp(s.target, c.align)
  {
    FullFits(c, s);
    hide Full, PadUp, Most;
  }

  lemma WindowAl(c: Config, s: Stream, c0: nat, q: nat, buf: Bytes, out: Bytes, done: Bytes)
    requires c.cap > 0 && Window(c, s, c0, q, buf, out, done)
    ensures Al(|done|, c.align) && |buf| <= |out|
    ensures WellFormed(s) && |out| >= c0 ==> q == Restart(s, |s.instrs|, c0)
  {
  }

  /** Sectors were erased one after the other, none of them twice. */
  ghost predicate ErasedOnce(erases: seq<nat>, lo: nat, hi: nat) {
    && (forall i :: 0 <= i < |erases| ==> lo <= erases[i] < hi)
    && forall i, j :: 0 <= i < j < |erases| ==> erases[i] < erases[j]
  }

  /** flash->write rejects what is not aligned (test/host/flash_model.c:74), and
      boot_delta.c turns every such error into BOOT_ERR_FLASH_HW. */
  method AlignedWrite(p: Platform, align: nat, a: nat, data: Bytes) returns (st: Status)
    requires p.Valid() && a + |data| <= p.g.total && AllErased(p.mem, a, a + |data|)
    modifies p`mem, p`cuts
    ensures p.Valid() && SameOutside(old(p.mem), p.mem, a, a + |data|)
    ensures st == Ok || st == PowerCut || st == FlashHw
    ensures st == FlashHw <==> !Al(a, align) || !Al(|data|, align)
    ensures st == Ok ==> Slice(p.mem, a, |data|) == data
    ensures if st == PowerCut then p.cuts < old(p.cuts) else p.cuts == old(p.cuts)
  {
    if !Al(a, align) || !Al(|data|, align) { return FlashHw; }
    st := p.Program(a, data);
  }

  /** Growing what is written. */
  lemma WrittenGrows(c: Config, m0: Bytes, m: Bytes, m': Bytes, done: Bytes, data: Bytes)
    requires Written(c, m0, m, done) && |done| + |data| <= c.destSize
    requires SameOutside(m, m', c.dest + |done|, c.dest + c.destSize)
    ensures Written(c, m0, m', done)
    ensures Slice(m', c.dest + |done|, |data|) == data ==> Written(c, m0, m', done + data)
  {
    SameOutsideTrans(m0, m, m', c.dest, c.dest + c.destSize);
    SliceKept(m, m', c.dest + |done|, c.dest + c.destSize, c.dest, |done|);
    if Slice(m', c.dest + |done|, |data|) == data {
      assert Slice(m', c.dest, |done| + |data|) == Slice(m', c.dest, |done|) + Slice(m', c.dest + |done|, |data|);
    }
  }

  lemma InputsKept(c: Config, s: Stream, m: Bytes, m': Bytes)
    requires Configured(c, s) && Inputs(c, s, m) && SameOutside(m, m', c.dest, c.dest + c.destSize)
    ensures Inputs(c, s, m')
  {
    SliceKept(m, m', c.dest, c.dest + c.destSize, c.base, |s.base|);
    SliceKept(m, m', c.dest, c.dest + c.destSize, c.lit, |s.lits|);
  }

  /** The first x bytes of the image are on flash already. */
  ghost predicate OnFlash(c: Config, s: Stream, m: Bytes, x: nat) {
    && Incremental(s.dec) && x <= s.target && x <= |Full(c, s)|
    && c.dest + x <= |m| && Slice(m, c.dest, x) == Full(c, s)[..x]
  }

  /** The parts of the invariant at the start of a run. */
  lemma StartFacts(c: Config, s: Stream, m: Bytes, log: Txn, checkpoint: nat)
    requires Configured(c, s) && |m| == c.g.total && checkpoint <= s.target && Boundary(c.g, c.dest + checkpoint)
    requires OnFlash(c, s, m, checkpoint)
    ensures var done := Slice(m, c.dest, checkpoint);
            && Written(c, m, m, done) && Frontier(c, m, done, c.dest + checkpoint) && Buffered(c, [], [], done)
            && Marks(c, done, checkpoint, checkpoint) && Meant(c, s, [], done)
            && Checkpointed(c, s, checkpoint, log, log, done)
            && ErasedOnce([], c.dest + checkpoint, c.dest + checkpoint) && Window(c, s, checkpoint, 0, [], [], done)
            && Throttled(c, done, checkpoint, checkpoint) && Latest(checkpoint, log, log, checkpoint)
            && Paced(c, checkpoint, 0, done, checkpoint)
            && Al(checkpoint, c.align)
            && c.cap > 0 && s.dec([]) == [] && FedAt(s, 0, [], 0) && Run(s, 0) == Some(Machine([], 0))
               && Restart(s, 0, checkpoint) == 0
  {
    hide Most, Full, WellFormed, Reach, Restart, Run, Window, Throttled, Paced, Latest, FedAt, Incremental;
    Aligned(c, s, checkpoint);
    InFlash(c, s);
    StartsSettled(c, s, log, Slice(m, c.dest, checkpoint), checkpoint);
    hide Tiling;
    StartWindow(c, s, checkpoint, Slice(m, c.dest, checkpoint));
    StartMachine(s, checkpoint);
    PacedAtStart(c, checkpoint, 0, Slice(m, c.dest, checkpoint), checkpoint);
  }

  lemma StartMachine(s: Stream, checkpoint: nat)
    requires Incremental(s.dec)
    ensures s.dec([]) == [] && FedAt(s, 0, [], 0) && Run(s, 0) == Some(Machine([], 0)) && Restart(s, 0, checkpoint) == 0
  {
  }

  lemma StartWindow(c: Config, s: Stream, checkpoint: nat, done: Bytes)
    requires c.cap > 0 && |done| == checkpoint && Al(checkpoint, c.align) && Incremental(s.dec)
    ensures Window(c, s, checkpoint, 0, [], [], done)
  {
    if WellFormed(s) && checkpoint == 0 { RestartZero(s, |s.instrs|); }
  }

  lemma {:induction false} RestartZero(s: Stream, k: nat)
    requires Incremental(s.dec) && k <= |s.instrs|
    ensures Restart(s, k, 0) == 0
  {
  }

  lemma StartsSettled(c: Config, s: Stream, log: Txn, done: Bytes, checkpoint: nat)
    requires Configured(c, s) && Boundary(c.g, c.dest + checkpoint) && |done| == checkpoint
    ensures Throttled(c, done, checkpoint, checkpoint) && Latest(checkpoint, log, log, checkpoint)
  {
    if c.dest + checkpoint < c.g.total { NextSector(c, s, c.dest + checkpoint, c.g.total); }
  }

  lemma InFlash(c: Config, s: Stream)
    requires Configured(c, s)
    ensures c.dest + s.target <= c.dest + c.destSize <= c.g.total
  {
  }

  /** sdvm_t. */
  class Vm {
    const p: Platform
    const c: Config
    const s: Stream
    var txn: Txn
    var buf: Bytes            // write_buf[..write_pos]
    var targetOff: nat
    var flushedOff: nat
    var committedOff: nat
    var checkpointOff: nat
    var erasedEnd: nat
    var fed: Bytes            // what the decompressor has been fed
    var drained: nat          // how much of its output has been polled

    ghost const c0: nat       // where the run resumed
    ghost const m0: Bytes     // flash at that time
    ghost const log0: Txn     // the log entry it resumed from
    ghost var out: Bytes      // all output produced, replayed output included
    ghost var done: Bytes     // what is on flash from the destination base on
    ghost var q: nat          // where the buffer was last restarted
    ghost var erases: seq<nat>

    ghost predicate Fixed()
      reads this, p
    {
      && p.g == c.g && p.Valid() && Configured(c, s) && c0 <= s.target && Boundary(c.g, c.dest + c0) && Al(c0, c.align)
      && targetOff == |out| && flushedOff == |done| && c0 <= |done| && txn == log0.(chunk := txn.chunk)
      && drained <= |s.dec(fed)|
    }

    /** What holds whenever a run stops. */
    ghost predicate Kept()
      reads this, p
    {
      && p.Valid() && c0 <= |done| && Written(c, m0, p.mem, done)
      && Meant(c, s, out, done) && Checkpointed(c, s, c0, log0, p.log, done)
    }

    ghost predicate Sound()
      reads this, p
    {
      && Fixed() && Kept() && Inputs(c, s, p.mem) && Frontier(c, p.mem, done, erasedEnd)
      && Buffered(c, buf, out, done) && Marks(c, done, committedOff, checkpointOff)
      && ErasedOnce(erases, c.dest + c0, erasedEnd) && |out| <= s.target
    }

    /** What the commit loop keeps. */
    ghost predicate Settled()
      reads this, p
    {
      && Latest(c0, log0, p.log, checkpointOff) && Throttled(c, done, committedOff, checkpointOff)
      && Paced(c, c0, q, done, checkpointOff)
    }

    ghost predicate Valid()
      reads this, p
    {
      Sound() && Settled() && Window(c, s, c0, q, buf, out, done)
    }

    /** The frontier of a run that resumes at `checkpoint`, or starts at 0. */
    constructor (p: Platform, c: Config, s: Stream, txn: Txn, checkpoint: nat)
      requires p.Valid() && p.g == c.g && Configured(c, s) && Inputs(c, s, p.mem)
      requires checkpoint <= s.target && Boundary(c.g, c.dest + checkpoint)
      requires OnFlash(c, s, p.mem, checkpoint) && txn == p.log
      ensures Valid() && this.p == p && this.c == c && this.s == s && c0 == checkpoint && m0 == p.mem && log0 == p.log
      ensures AtInstr(0) && erases == []
    {
      this.p, this.c, this.s, this.txn := p, c, s, txn;
      buf, fed, drained, targetOff := [], [], 0, 0;
      flushedOff, committedOff, checkpointOff := checkpoint, checkpoint, checkpoint;
      erasedEnd := c.dest + checkpoint;
      c0, m0, log0 := checkpoint, p.mem, p.log;
      out, done, q, erases := [], Slice(p.mem, c.dest, checkpoint), 0, [];
      new;
      hide *;
      Starts();
    }

    /** A VM with nothing produced, at its frontier. */
    ghost predicate Fresh()
      reads this, p
    {
      && p.Valid() && c0 <= s.target && m0 == p.mem && log0 == p.log == txn && p.g == c.g
      && buf == [] && fed == [] && out == [] && erases == [] && targetOff == drained == q == 0
      && flushedOff == committedOff == checkpointOff == c0 && erasedEnd == c.dest + c0
    }

    lemma Starts()
      requires Fresh() && Configured(c, s) && Inputs(c, s, p.mem) && Boundary(c.g, c.dest + c0)
      requires OnFlash(c, s, p.mem, c0) && done == Slice(p.mem, c.dest, c0)
      ensures Valid() && AtInstr(0)
    {
      hide Throttled, Paced, Latest, Tiling, Incremental, Restart, Written, Inputs, Frontier, Buffered, Marks, Meant;
      hide Checkpointed;
      hide ErasedOnce, Window, FedAt, Run, Configured, Boundary, Al, Slice, OnFlash;
      StartFacts(c, s, p.mem, p.log, c0);
    }

    /** A status that may end the run of a well-formed stream. */
    ghost predicate Excused(st: Status) {
      st == PowerCut || Doomed(c, s, c0)
    }

    /** The ways a run may end. */
    static predicate Code(st: Status) {
      st in {Ok, PowerCut, FlashHw, FlashBounds, InvalidState, VerifyFailed}
    }

    /** erase_ahead */
    method EraseAhead(writeEnd: nat) returns (st: Status)
      requires Valid() && c.dest + flushedOff <= writeEnd <= c.dest + c.destSize
      modifies this`erasedEnd, this`erases, p`mem, p`cuts
      ensures p.Valid() && SameOutside(old(p.mem), p.mem, c.dest + |done|, c.dest + c.destSize)
      ensures Written(c, m0, p.mem, done) && Inputs(c, s, p.mem)
      ensures st == Ok || st == PowerCut
      ensures st == Ok ==>
              writeEnd <= erasedEnd && Frontier(c, p.mem, done, erasedEnd) && ErasedOnce(erases, c.dest + c0, erasedEnd)
      ensures if st == PowerCut then p.cuts < old(p.cuts) else p.cuts == old(p.cuts)
    {
      hide Tiling, Boundary, Incremental, WellFormed, Meant, Buffered, Window, Marks, Checkpointed, Written, Inputs;
      hide Latest, Throttled, Paced;
      ghost var mFirst := p.mem;
      while erasedEnd < writeEnd
        invariant p.Valid() && p.cuts == old(p.cuts)
        invariant SameOutside(mFirst, p.mem, c.dest + |done|, c.dest + c.destSize)
        invariant Frontier(c, p.mem, done, erasedEnd) && ErasedOnce(erases, c.dest + c0, erasedEnd)
        decreases writeEnd - erasedEnd
      {
        NextSector(c, s, erasedEnd, c.dest + c.destSize);
        var sec := p.g.size(erasedEnd);
        var blank := EffectEngine.IsErased(p, erasedEnd, sec, 64);
        if !blank {
          ghost var m := p.mem;
          st := p.EraseSector(erasedEnd);
          SameOutsideTrans(mFirst, m, p.mem, c.dest + |done|, c.dest + c.destSize);
          if st != Ok {
            WrittenGrows(c, m0, mFirst, p.mem, done, []);
            InputsKept(c, s, mFirst, p.mem);
            return;
          }
          erases := erases + [erasedEnd];
        }
        erasedEnd := erasedEnd + sec;
      }
      WrittenGrows(c, m0, mFirst, p.mem, done, []);
      InputsKept(c, s, mFirst, p.mem);
      return Ok;
    }

    /** Erase ahead of the frontier, and write there. */
    method WriteOut(data: Bytes) returns (st: Status)
      requires Valid() && flushedOff + |data| <= c.destSize
      modifies this`erasedEnd, this`erases, p`mem, p`cuts
      ensures p.Valid() && Written(c, m0, p.mem, done) && Inputs(c, s, p.mem)
      ensures st == Ok || st == PowerCut || (st == FlashHw && !Al(|data|, c.align))
      ensures st == Ok ==>
                && Al(|data|, c.align) && Written(c, m0, p.mem, done + data)
                && Frontier(c, p.mem, done + data, erasedEnd) && ErasedOnce(erases, c.dest + c0, erasedEnd)
      ensures if st == PowerCut then p.cuts < old(p.cuts) else p.cuts == old(p.cuts)
    {
      hide Tiling, Boundary, Incremental, WellFormed, Meant, Buffered, Marks, Checkpointed, Al, PadUp, Inputs;
      hide Slice, ErasedOnce, Latest, Throttled, Paced;
      var at := c.dest + flushedOff;
      st := EraseAhead(at + |data|);
      if st != Ok { return; }
      ghost var m := p.mem;
      DestAl(c, s, |done|);
      st := AlignedWrite(p, c.align, at, data);
      WrittenGrows(c, m0, m, p.mem, done, data);
      InputsKept(c, s, m, p.mem);
    }

    /** The commit loop: the high-water mark moves over every sector that is complete. */
    method Advance() returns (st: Status)
      requires Fixed() && Marks(c, done, committedOff, checkpointOff) && c.dest + |done| <= c.g.total
      modifies this`committedOff
      ensures st == Ok || st == FlashHw
      ensures Marks(c, done, committedOff, checkpointOff)
      ensures st == FlashHw <==> c.dest + |done| == c.g.total
      ensures st == Ok ==>
              c.dest + committedOff < c.g.total && flushedOff < committedOff + p.g.size(c.dest + committedOff)
    {
      hide Tiling, Incremental;
      while true
        invariant Marks(c, done, committedOff, checkpointOff)
        decreases flushedOff - committedOff
      {
        if c.dest + committedOff >= p.g.total { return FlashHw; }
        NextSector(c, s, c.dest + committedOff, c.g.total);
        var sec := p.g.size(c.dest + committedOff);
        if committedOff + sec > flushedOff { return Ok; }
        committedOff := committedOff + sec;
      }
    }

    /** The frontier has moved from `prev` to where it is, and the mark not yet. */
    ghost predicate Moved(prev: nat)
      reads this
    {
      && c.cap > 0 && c0 <= prev < |done| && Prev(c0, NextGrid(q, c.cap, c0), c.cap, |done|) == prev
      && checkpointOff == Anchor(c, c0, NextGrid(q, c.cap, c0), prev)
      && |done| <= PadUp(s.target, c.align) && Incremental(s.dec)
      && (WellFormed(s) ==> q == Restart(s, |s.instrs|, c0))
    }

    lemma MovedMark(prev: nat)
      requires Fixed() && Moved(prev) && Boundary(c.g, c.dest + committedOff)
      requires committedOff <= |done| < committedOff + p.g.size(c.dest + committedOff)
      ensures Paced(c, c0, q, done, if committedOff >= checkpointOff + c.maxSector then committedOff else checkpointOff)
      ensures committedOff >= checkpointOff + c.maxSector && WellFormed(s) ==> Logs(c, s, c0, committedOff)
    {
      hide Incremental, Restart, WellFormed, PadUp, NextGrid, Prev, Anchor, Mark;
      MarkIs(c, |done|, committedOff);
      hide Tiling, Boundary;
      AnchorStep(c, c0, NextGrid(q, c.cap, c0), |done|);
      if committedOff >= checkpointOff + c.maxSector && WellFormed(s) {
        assert committedOff == Anchor(c, c0, FirstEnd(c, s, c0), |done|);
      }
    }

    /** Advance the high-water mark and, throttled, log it. */
    method Commit(ghost prev: nat) returns (st: Status)
      requires Fixed() && Marks(c, done, committedOff, checkpointOff) && c.dest + |done| <= c.g.total && Moved(prev)
      requires Checkpointed(c, s, c0, log0, p.log, done) && Latest(c0, log0, p.log, checkpointOff)
      modifies this`committedOff, this`checkpointOff, this`txn, p`log, p`cuts
      ensures Fixed() && Marks(c, done, committedOff, checkpointOff) && Checkpointed(c, s, c0, log0, p.log, done)
      ensures st == Ok || st == PowerCut || st == FlashHw
      ensures st == FlashHw <==> c.dest + |done| == c.g.total
      ensures p.log != old(p.log) ==> p.log.chunk == committedOff >= old(checkpointOff) + c.maxSector
      ensures st == Ok ==> Settled()
      ensures st == Ok ==>
              p.log == if committedOff >= old(checkpointOff) + c.maxSector then old(txn).(chunk := committedOff)
                                    else old(p.log)
      ensures if st == PowerCut then p.cuts < old(p.cuts) else p.cuts == old(p.cuts)
    {
      hide Tiling, Incremental, Boundary, Paced, Anchor, Logs, WellFormed;
      st := Advance();
      if st != Ok { return; }
      MovedMark(prev);
      if committedOff - checkpointOff >= c.maxSector {
        txn := txn.(chunk := committedOff);
        st := p.Append(txn);
        if st != Ok { return; }
        checkpointOff := committedOff;
      }
    }

    /** The write of emit_flush is done, and the commit loop still to come. */
    ghost predicate Pushed(last: bool)
      reads this, p
    {
      && Sound() && buf == [] && |out| <= |done| && c.dest + |done| <= c.g.total
         && Latest(c0, log0, p.log, checkpointOff)
      && (c.dest + |done| < c.g.total && (last ==> |out| == s.target) ==> Window(c, s, c0, q, buf, out, done))
      && (c.dest + |done| == c.g.total ==> Excused(FlashHw))
    }

    /** emit_flush from the padding to the read-back. */
    method Push(last: bool) returns (st: Status)
      requires Valid() && |done| < |out| && (if last then Final(s, out) else |buf| == c.cap)
      modifies this`buf, this`flushedOff, this`erasedEnd, this`done, this`erases, p`mem, p`cuts
      ensures if st == Ok then Pushed(last) else Kept() && Excused(st)
      ensures st == Ok || st == PowerCut || st == FlashHw || st == FlashBounds
      ensures st == Ok ==>
              |done| == |out| + Pad(|out| - |old(done)|, c.align, last) <= |out| - |old(buf)| + c.cap
      ensures if st == PowerCut then p.cuts < old(p.cuts) else p.cuts == old(p.cuts)
    {
      hide Window, Meant, Frontier, Inputs, Written, ErasedOnce, Doomed, WellFormed, Agrees, Latest, Throttled, Paced;
      hide Al, PadUp, Tiling, Incremental, Boundary, Most, Final, Configured, Restart, Prev, Anchor, NextGrid;
      hide Buffered, Slice, Logs;
      var start := targetOff - |buf|;
      var skip := flushedOff - start;
      var n := |buf| - skip;
      var pad := Pad(n, c.align, last);
      FlushFacts(c, s, c0, q, buf, out, done, last);
      InFlash(c, s);
      if skip + n + pad > c.cap { return FlashBounds; }
      var data := buf[skip..] + Blank(pad);
      st := WriteOut(data);
      if st != Ok { return; }
      flushedOff, buf := flushedOff + |data|, [];
      done := out + Blank(pad);
    }

    lemma MovedNow(prev: nat)
      requires c.cap > 0 && Incremental(s.dec) && c0 <= prev < |done| <= PadUp(s.target, c.align)
      requires Prev(c0, NextGrid(q, c.cap, c0), c.cap, |done|) == prev
      requires checkpointOff == Anchor(c, c0, NextGrid(q, c.cap, c0), prev)
      requires WellFormed(s) ==> q == Restart(s, |s.instrs|, c0)
      ensures Moved(prev)
    {
    }

    /** Where a flush moves the frontier to. */
    lemma NextFrontier(f: nat)
      requires Valid() && |done| < |out| <= f <= |out| - |buf| + c.cap
      ensures Prev(c0, NextGrid(q, c.cap, c0), c.cap, f) == |done| && c.cap > 0 && Incremental(s.dec)
      ensures checkpointOff == Anchor(c, c0, NextGrid(q, c.cap, c0), |done|)
      ensures WellFormed(s) ==> q == Restart(s, |s.instrs|, c0)
    {
      hide Prev, Anchor, NextGrid, Restart, WellFormed, OnGrid, Incremental, Tiling;
      FlushPrev(c, s, c0, q, buf, out, done, f);
    }

    /** emit_flush past its early exits: some of the buffer is new. */
    method FlushNew(last: bool) returns (st: Status)
      requires Valid() && |done| < |out| && (if last then Final(s, out) else |buf| == c.cap)
      modifies this`buf, this`flushedOff, this`committedOff, this`checkpointOff, this`erasedEnd, this`txn
      modifies this`done, this`erases, p
      ensures Kept() && (st == Ok ==> buf == [] && |out| <= |done|)
      ensures st == Ok || st == PowerCut || st == FlashHw || st == FlashBounds
      ensures st == Ok && (last ==> |out| == s.target) ==> Valid()
      ensures st != Ok ==> Excused(st)
      ensures if st == PowerCut then p.cuts < old(p.cuts) else p.cuts == old(p.cuts)
    {
      hide Window, Buffered, Meant, Frontier, Inputs, Written, ErasedOnce, Stuck, WellFormed, Configured, Boundary;
      hide Al, Marks, Checkpointed, Latest, Throttled, Paced, Moved, Prev, Anchor, NextGrid, Restart, PadUp, Final;
      ghost var prev, f := |done|, |out| + Pad(|out| - |done|, c.align, last);
      if f <= |out| - |buf| + c.cap { NextFrontier(f); }
      st := Push(last);
      if st != Ok { return; }
      MeantFits(c, s, out, done);
      MovedNow(prev);
      st := Commit(prev);
    }

    /** emit_flush.  A partly filled buffer that is dropped during dry replay leaves the
        window to be set anew. */
    method EmitFlush(last: bool) returns (st: Status)
      requires Valid()
      requires |out| <= |done| || (if last then Final(s, out) else |buf| == c.cap)
      modifies this`buf, this`flushedOff, this`committedOff, this`checkpointOff, this`erasedEnd, this`txn
      modifies this`done, this`erases, p
      ensures Kept() && (st == Ok ==> buf == [])
      ensures st == Ok || st == PowerCut || st == FlashHw || st == FlashBounds
      ensures st == Ok && !last ==> Sound() && Settled()
      ensures st == Ok && |out| == s.target ==> Valid()
      ensures st == Ok && !last && (|old(buf)| == 0 || |old(buf)| == c.cap) ==> Valid()
      ensures old(|out| <= |done|) || old(buf) == [] ==>
                st == Ok && done == old(done) && p.mem == old(p.mem) && p.log == old(p.log)
      ensures st == Ok ==> |out| <= |done| || |old(buf)| == 0
      ensures st != Ok ==> Excused(st)
      ensures if st == PowerCut then p.cuts < old(p.cuts) else p.cuts == old(p.cuts)
    {
      hide Window, Meant, Marks, Checkpointed, Frontier, Inputs, Written, ErasedOnce, Excused, WellFormed, Latest;
      hide Throttled, Paced;
      if |buf| == 0 { return Ok; }
      if targetOff <= flushedOff {
        Discarded(c, s, c0, q, buf, out, done);
        buf := [];
        return Ok;
      }
      st := FlushNew(last);
    }

    /** Skip output that an earlier run has written: the buffer below it is dropped. */
    method Skip(step: nat, ghost x: Bytes) returns (st: Status)
      requires Valid() && |x| == step > 0 && |out| + step <= |done| && |out| + step <= s.target
      requires out + x <= Most(s) && (WellFormed(s) && |out| + step >= c0 ==> Restart(s, |s.instrs|, c0) == c0)
      modifies this`buf, this`targetOff, this`flushedOff, this`committedOff, this`checkpointOff, this`erasedEnd
      modifies this`txn
      modifies this`out, this`q, this`done, this`erases, p
      ensures st == Ok && p.cuts == old(p.cuts)
      ensures Valid() && buf == [] && out == old(out) + x && done == old(done) && |done| == c0 && q == |out|
    {
      hide Window, Buffered, Meant, Marks, Frontier, Inputs, Written, ErasedOnce, WellFormed, Checkpointed, Latest;
      hide Throttled, Paced, Tiling, Boundary, Al, Most, Restart;
      SkipOk(c, s, c0, q, buf, out, done, x);
      PacedAtStart(c, c0, q, done, checkpointOff);
      st := EmitFlush(false);
      PacedAtStart(c, c0, q, done, checkpointOff);
      PacedAtStart(c, c0, |out| + step, done, checkpointOff);
      targetOff := targetOff + step;
      out := out + x;
      q := |out|;
    }

    /** Append to the buffer. */
    method Put(x: Bytes)
      requires Valid() && |buf| + |x| <= c.cap && |out| + |x| <= s.target
      requires out + x <= Most(s) && (WellFormed(s) && |out| + |x| >= c0 ==> q == Restart(s, |s.instrs|, c0))
      modifies this`buf, this`targetOff, this`out
      ensures Valid() && buf == old(buf) + x && out == old(out) + x
    {
      hide Window, Buffered, Meant, Marks, Frontier, Inputs, Written, ErasedOnce, WellFormed, Checkpointed, Latest;
      hide Throttled, Paced;
      hide Tiling, Boundary, Al, Most, Restart;
      PutOk(c, s, c0, q, buf, out, done, x);
      buf := buf + x;
      targetOff := targetOff + |x|;
      out := out + x;
    }

    /** Between instructions: what was executed is the first k of them. */
    ghost predicate AtInstr(k: nat)
      reads this
    {
      FedAt(s, k, fed, drained) && out == Run(s, k).value.out && q == Restart(s, k, c0) && |buf| < c.cap
    }

    /** Inside COPY or ZERO number k, with n bytes produced. */
    ghost predicate Copying(k: nat, n: nat)
      reads this
    {
      CopyingAt(s, k, n, c0, out, q) && FedAt(s, k, fed, drained) && |buf| < c.cap
    }

    /** Dry replay in produce_copy_or_zero. */
    method DryRound(ghost k: nat, ghost n: nat, step: nat)
      requires Valid() && Copying(k, n) && 0 < step && n + step <= s.instrs[k].len && |out| + step <= |done|
      modifies this`buf, this`targetOff, this`flushedOff, this`committedOff, this`checkpointOff, this`erasedEnd
      modifies this`txn
      modifies this`out, this`q, this`done, this`erases, p
      ensures Valid() && Copying(k, n + step) && p.cuts == old(p.cuts)
    {
      DryIsMeant(c, s, c0, k, n, q, buf, out, done, step);
      CopyStep(s, k, n, step, c0, out, q);
      hide Window, Buffered, Meant, Marks, Frontier, Inputs, Written, ErasedOnce, WellFormed, Checkpointed;
      hide Incremental, Latest, Throttled, Paced;
      ghost var st := Skip(step, Made(s, s.instrs[k], n + step)[n..]);
    }

    /** The next `step` bytes of COPY or ZERO number k: read from the base image, or zeros. */
    method Fetch(i: Instr, ghost k: nat, n: nat, step: nat) returns (st: Status, x: Bytes)
      requires p.Valid() && c.cap > 0 && Inputs(c, s, p.mem) && k < |s.instrs| && i == s.instrs[k]
      requires step > 0 && MadeOk(s, i, n) && n + step <= i.len
      ensures st == Ok ==> MadeOk(s, i, n + step) && x == Made(s, i, n + step)[n..] && |x| == step
      ensures st != Ok ==> st == FlashBounds && Excused(st)
    {
      hide WellFormed, Stuck, Incremental, Inputs, Slice, Latest, Throttled, Paced;
      if i.CopyBase? {
        var soff := i.off + n;
        if soff + step > |s.base| {
          if WellFormed(s) { CopyFacts(s, k, c0); }
          return FlashBounds, [];
        }
        BaseRead(c, s, p.mem, soff, step);
        x := Slice(p.mem, c.base + soff, step);
      } else {
        x := Zeros(step);
      }
      st := Ok;
      MadeMore(s, i, n, step);
    }

    /** Production into the buffer in produce_copy_or_zero. */
    method WetRound(i: Instr, ghost k: nat, n: nat, step: nat) returns (st: Status)
      requires Valid() && Copying(k, n) && i == s.instrs[k] && 0 < step && n + step <= i.len && |buf| + step <= c.cap
      requires |done| <= |out|
      modifies this`buf, this`targetOff, this`flushedOff, this`committedOff, this`checkpointOff, this`erasedEnd
      modifies this`txn
      modifies this`out, this`done, this`erases, p
      ensures st == Ok ==> Valid() && Copying(k, n + step)
      ensures st != Ok ==> Kept() && Excused(st)
      ensures Code(st)
      ensures if st == PowerCut then p.cuts < old(p.cuts) else p.cuts == old(p.cuts)
    {
      hide Window, Buffered, Meant, Marks, Frontier, Inputs, Written, ErasedOnce, WellFormed, Checkpointed;
      hide Incremental, Run, Restart, Latest, Throttled, Paced;
      hide Stuck, Made, MadeOk, FedAt, Fixed;
      var x;
      st, x := Fetch(i, k, n, step);
      if st != Ok { return; }
      CopyStep(s, k, n, step, c0, out, q);
      hide CopyingAt;
      Put(x);
      if |buf| == c.cap {
        st := EmitFlush(false);
      }
    }

    /** produce_copy_or_zero */
    method CopyOrZero(i: Instr, ghost k: nat) returns (st: Status)
      requires Valid() && AtInstr(k) && k < |s.instrs| && i == s.instrs[k] && IsCopy(i) && |out| + i.len <= s.target
      modifies this, p
      ensures st == Ok ==> Valid() && AtInstr(k + 1)
      ensures st != Ok ==> Kept() && Excused(st)
      ensures Code(st)
      ensures if st == PowerCut then p.cuts < old(p.cuts) else p.cuts == old(p.cuts)
    {
      hide Window, Buffered, Meant, Marks, Frontier, Inputs, Written, ErasedOnce, WellFormed, Checkpointed;
      hide Incremental, Run, Restart, Latest, Throttled, Paced;
      hide Stuck, FedAt, Kept, Excused, Configured;
      CopyBegins(s, k, c0, out, q, fed, drained);
      var rem := i.len;
      while rem > 0
        invariant rem <= i.len && Valid() && Copying(k, i.len - rem) && p.cuts == old(p.cuts)
        decreases rem
      {
        var step;
        if targetOff < flushedOff {
          step := Min(rem, flushedOff - targetOff);
          DryRound(k, i.len - rem, step);
        } else {
          step := Min(rem, c.cap - |buf|);
          st := WetRound(i, k, i.len - rem, step);
          if st != Ok { return; }
        }
        rem := rem - step;
      }
      CopyEnds(s, k, c0, out, q, fed, drained);
      return Ok;
    }

    /** What the decompressor holds back. */
    function Pending(): (x: Bytes)
      requires drained <= |s.dec(fed)|
      reads this
    {
      s.dec(fed)[drained..]
    }

    /** heatshrink_decoder_poll: as much as there is room for. */
    method Poll() returns (st: Status, more: bool)
      requires Valid() && |buf| < c.cap
      requires Clip(out + Pending(), s.target) <= Most(s) && (WellFormed(s) ==> |out + Pending()| <= s.target)
      requires WellFormed(s) && |out| + |Pending()| >= c0 ==> q == Restart(s, |s.instrs|, c0)
      modifies this`buf, this`targetOff, this`drained, this`out
      ensures st == Ok ==> Valid() && out + Pending() == old(out + Pending())
      ensures st == Ok ==> if more then |Pending()| < |old(Pending())| else |buf| < c.cap && Pending() == []
      ensures st != Ok ==> st == InvalidState && Kept() && !WellFormed(s)
    {
      hide Window, Buffered, Meant, Marks, Frontier, Inputs, Written, ErasedOnce, WellFormed, Checkpointed;
      hide Incremental, Run, Restart, Latest, Throttled, Paced, Clip, Most, Configured, Boundary, Al;
      var all := Pending();
      var space := c.cap - |buf|;
      var n := Min(|all|, space);
      if targetOff + n > s.target { return InvalidState, false; }
      Polled(out, s.dec(fed), drained, n);
      ClipHolds(out + all[..n], all[n..], s.target);
      Put(all[..n]);
      drained := drained + n;
      return Ok, n == space;
    }

    lemma BufWithin()
      requires Buffered(c, buf, out, done)
      ensures |buf| <= c.cap
    {
    }

    /** drain_decoder: poll until the decompressor has nothing left. */
    method Drain() returns (st: Status)
      requires Valid()
      requires Clip(out + Pending(), s.target) <= Most(s) && (WellFormed(s) ==> |out + Pending()| <= s.target)
      requires WellFormed(s) && |out| + |Pending()| >= c0 ==> q == Restart(s, |s.instrs|, c0)
      modifies this`buf, this`targetOff, this`drained, this`flushedOff, this`committedOff, this`checkpointOff
      modifies this`erasedEnd, this`txn
      modifies this`out, this`done, this`erases, p
      ensures st == Ok ==> Valid() && |buf| < c.cap && Pending() == [] && out == old(out + Pending())
      ensures st != Ok ==> Kept() && Excused(st)
      ensures Code(st)
      ensures if st == PowerCut then p.cuts < old(p.cuts) else p.cuts == old(p.cuts)
    {
      hide Window, Buffered, Meant, Marks, Frontier, Inputs, Written, ErasedOnce, WellFormed, Checkpointed;
      hide Incremental, Run, Restart, Latest, Throttled, Paced;
      hide Stuck;
      while true
        invariant Valid() && out + Pending() == old(out + Pending()) && p.cuts == old(p.cuts)
        decreases |Pending()|
      {
        BufWithin();
        if |buf| == c.cap {
          st := EmitFlush(false);
          if st != Ok { return; }
        }
        var more;
        st, more := Poll();
        if st != Ok || !more { return; }
      }
    }

    /** Offer the decompressor some literal bytes, and drain it.  It takes at least one
        byte of what it is offered, because it was drained before. */
    method Feed(ghost k: nat, ghost n: nat, chunk: nat) returns (st: Status, sunk: nat)
      requires Valid() && InsertingAt(s, k, n, out, fed) && Pending() == [] && q == Restart(s, k, c0)
      requires 0 < chunk && n + chunk <= s.instrs[k].clen && |fed| + chunk <= |s.lits|
      modifies this, p
      ensures 1 <= sunk <= chunk
      ensures st == Ok ==>
              Valid() && InsertingAt(s, k, n + sunk, out, fed) && Pending() == [] && q == Restart(s, k, c0)
                && |buf| < c.cap
      ensures st != Ok ==> Kept() && Excused(st)
      ensures Code(st)
      ensures if st == PowerCut then p.cuts < old(p.cuts) else p.cuts == old(p.cuts)
    {
      hide Window, Buffered, Meant, Marks, Frontier, Inputs, Written, ErasedOnce, WellFormed, Checkpointed;
      hide Incremental, Run, Restart, Latest, Throttled, Paced;
      hide Stuck, InsertingAt;
      LiteralRead(c, s, p.mem, |fed|, chunk);
      var data := Slice(p.mem, c.lit + |fed|, chunk);
      sunk :| 1 <= sunk <= chunk;
      InsertStep(s, k, n, sunk, c0, out, fed, drained);
      SubSlice(s.lits, |fed|, chunk, 0, sunk);
      assert data[..sunk] == data[0..sunk];
      fed := fed + data[..sunk];
      st := Drain();
    }

    /** produce_insert */
    method Insert(clen: nat, ghost k: nat) returns (st: Status)
      requires Valid() && AtInstr(k) && k < |s.instrs| && s.instrs[k] == InsertLit(clen)
      modifies this, p
      ensures st == Ok ==> Valid() && AtInstr(k + 1)
      ensures st != Ok ==> Kept() && Excused(st)
      ensures Code(st)
      ensures if st == PowerCut then p.cuts < old(p.cuts) else p.cuts == old(p.cuts)
    {
      hide Window, Buffered, Meant, Marks, Frontier, Inputs, Written, ErasedOnce, WellFormed, Checkpointed;
      hide Incremental, Run, Restart, Latest, Throttled, Paced;
      hide Stuck;
      InsertBegins(s, k, out, fed, drained);
      var rem := clen;
      while rem > 0
        invariant rem <= clen && Valid() && InsertingAt(s, k, clen - rem, out, fed) && p.cuts == old(p.cuts)
        invariant Pending() == [] && q == Restart(s, k, c0) && |buf| < c.cap
        decreases rem
      {
        var chunk := Min(rem, c.sink);
        if |fed| + chunk > |s.lits| {
          if WellFormed(s) { InsertFacts(s, k, c0); }
          return FlashBounds;
        }
        var sunk;
        st, sunk := Feed(k, clen - rem, chunk);
        if st != Ok { return; }
        rem := rem - sunk;
      }
      InsertEnds(s, k, c0, out, fed, drained);
      return Ok;
    }

    /** At the exact end of the target nothing more can come. */
    lemma TargetReached()
      requires Valid() && |out| == s.target
      ensures Final(s, out)
    {
      assert |Most(s)| <= s.target;
    }

    /** One instruction and the flush at the exact end of the target. */
    method Execute(i: Instr, ghost k: nat) returns (st: Status)
      requires Valid() && AtInstr(k) && k < |s.instrs| && i == s.instrs[k]
      modifies this, p
      ensures st == Ok ==> Valid() && AtInstr(k + 1) && (targetOff == s.target ==> buf == [])
      ensures st != Ok ==> Kept() && Excused(st)
      ensures Code(st)
      ensures i == Unknown ==> st == VerifyFailed
      ensures IsCopy(i) && |old(out)| + i.len > s.target ==> st == FlashBounds
      ensures if st == PowerCut then p.cuts < old(p.cuts) else p.cuts == old(p.cuts)
    {
      hide Window, Buffered, Meant, Marks, Frontier, Inputs, Written, ErasedOnce, WellFormed, Checkpointed;
      hide Incremental, Run, Restart, Latest, Throttled, Paced;
      hide Stuck;
      if WellFormed(s) { InstrFacts(s, k, out); }
      match i {
        case CopyBase(_, len) =>
          if targetOff + len > s.target { return FlashBounds; }
          st := CopyOrZero(i, k);
        case Zero(len) =>
          if targetOff + len > s.target { return FlashBounds; }
          st := CopyOrZero(i, k);
        case InsertLit(clen) =>
          st := Insert(clen, k);
        case Unknown =>
          st := VerifyFailed;
      }
      if st == Ok && targetOff == s.target && |buf| > 0 {
        TargetReached();
        st := EmitFlush(true);
      }
    }

    /** The instruction loop, up to the EOF marker. */
    method RunAll() returns (st: Status, ghost begun: nat)
      requires Valid() && AtInstr(0)
      modifies this, p
      ensures st == Ok ==> Valid() && AtInstr(|s.instrs|) && s.terminated && |s.instrs| < MAX_INSTRUCTIONS
      ensures begun <= MAX_INSTRUCTIONS && (st == Ok ==> begun == |s.instrs|)
      ensures st != Ok ==> Kept() && Excused(st)
      ensures Code(st)
      ensures if st == PowerCut then p.cuts < old(p.cuts) else p.cuts == old(p.cuts)
    {
      hide Window, Buffered, Meant, Marks, Frontier, Inputs, Written, ErasedOnce, Checkpointed, Incremental, Run;
      hide Restart, Latest, Throttled, Paced;
      hide Stuck, FedAt;
      var idx := 0;
      begun := 0;
      while idx < |s.instrs|
        invariant begun == idx <= MAX_INSTRUCTIONS
        invariant Valid() && idx <= |s.instrs| && AtInstr(idx) && p.cuts == old(p.cuts)
      {
        if idx + 1 > MAX_INSTRUCTIONS { return InvalidState, begun; }
        begun := idx + 1;
        st := Execute(s.instrs[idx], idx);
        if st != Ok { return; }
        idx := idx + 1;
      }
      if idx + 1 > MAX_INSTRUCTIONS { return InvalidState, begun; }
      if !s.terminated { return VerifyFailed, begun; }
      return Ok, begun;
    }

    /** What EOF leaves to do: drain, flush, and the anti-truncation check. */
    method Finish() returns (st: Status)
      requires Valid() && AtInstr(|s.instrs|) && s.terminated && |s.instrs| < MAX_INSTRUCTIONS
      modifies this, p
      ensures Kept()
      ensures st == Ok ==> Valid() && WellFormed(s) && buf == [] && |out| == s.target && q == Restart(s, |s.instrs|, c0)
      ensures st != Ok ==> Excused(st)
      ensures Code(st)
      ensures if st == PowerCut then p.cuts < old(p.cuts) else p.cuts == old(p.cuts)
    {
      hide Window, Buffered, Meant, Marks, Frontier, Inputs, Written, ErasedOnce, Checkpointed, Run, Restart;
      hide Latest, Throttled, Paced;
      hide Stuck;
      assert out + Pending() == out;
      ClipShort(out, s.target);
      EndFacts(s, out);
      st := Drain();
      if st != Ok { return; }
      st := EmitFlush(true);
      if st != Ok { return; }
      if targetOff != s.target { return VerifyFailed; }
    }
  }

  lemma InstrFacts(s: Stream, k: nat, out: Bytes)
    requires WellFormed(s) && k < |s.instrs| && Run(s, k).Some? && out == Run(s, k).value.out
    ensures s.instrs[k] != Unknown
    ensures IsCopy(s.instrs[k]) ==> |out| + s.instrs[k].len <= s.target
  {
    RunFacts(s, k, 0);
    hide WellFormed, Incremental, Output;
  }

  lemma EndFacts(s: Stream, out: Bytes)
    requires Incremental(s.dec) && s.terminated && |s.instrs| < MAX_INSTRUCTIONS && Run(s, |s.instrs|).Some?
    requires out == Run(s, |s.instrs|).value.out
    ensures WellFormed(s) <==> |out| == s.target
    ensures WellFormed(s) ==> out == Output(s)
    ensures Final(s, out)
  {
  }

  /** Inside INSERT number k, with n literal bytes consumed and drained. */
  ghost predicate InsertingAt(s: Stream, k: nat, n: nat, out: Bytes, fed: Bytes) {
    && Incremental(s.dec) && k < |s.instrs| && Run(s, k).Some? && s.instrs[k].InsertLit? && n <= s.instrs[k].clen
    && var m := Run(s, k).value;
       m.lit + n <= |s.lits| && fed == s.lits[..m.lit + n] && out == m.out + Inserted(s, m.lit, n)
  }

  lemma InsertBegins(s: Stream, k: nat, out: Bytes, fed: Bytes, drained: nat)
    requires k < |s.instrs| && s.instrs[k].InsertLit? && FedAt(s, k, fed, drained) && out == Run(s, k).value.out
    ensures InsertingAt(s, k, 0, out, fed) && s.dec(fed)[drained..] == []
  {
    assert out + [] == out;
  }

  lemma InsertEnds(s: Stream, k: nat, c0: nat, out: Bytes, fed: Bytes, drained: nat)
    requires k < |s.instrs| && s.instrs[k].InsertLit? && InsertingAt(s, k, s.instrs[k].clen, out, fed)
             && |out| <= s.target
    requires drained <= |s.dec(fed)| && s.dec(fed)[drained..] == []
    ensures FedAt(s, k + 1, fed, drained) && out == Run(s, k + 1).value.out
            && Restart(s, k + 1, c0) == Restart(s, k, c0)
  {
    hide Incremental, Inserted;
  }

  lemma InsertFacts(s: Stream, k: nat, c: nat)
    requires WellFormed(s) && k < |s.instrs| && s.instrs[k].InsertLit?
    ensures var r, n := Run(s, k), s.instrs[k].clen;
            && r.Some? && Run(s, k + 1).Some? && r.value.lit + n <= |s.lits|
               && r.value.out + Inserted(s, r.value.lit, n) <= Output(s)
            && (|r.value.out| + |Inserted(s, r.value.lit, n)| >= c ==> Restart(s, |s.instrs|, c) == Restart(s, k, c))
  {
    RunFacts(s, k, c);
    hide WellFormed, Incremental, Inserted, Output;
  }

  /** A well-formed stream runs through every instruction. */
  lemma RunFacts(s: Stream, k: nat, c: nat)
    requires WellFormed(s) && k < |s.instrs|
    ensures Run(s, k).Some? && Run(s, k + 1).Some? && Run(s, k + 1).value.out <= Output(s)
    ensures |Run(s, k + 1).value.out| >= c ==> Restart(s, |s.instrs|, c) == Restart(s, k + 1, c)
    ensures |Run(s, k).value.out| >= c ==> Restart(s, |s.instrs|, c) == Restart(s, k, c)
  {
    hide Run, Restart, Step, Incremental;
    RunGrows(s, k, |s.instrs|);
    RunGrows(s, k + 1, |s.instrs|);
    RestartSettled(s, k, |s.instrs|, c);
    RestartSettled(s, k + 1, |s.instrs|, c);
  }

  lemma LiteralRead(c: Config, s: Stream, m: Bytes, off: nat, n: nat)
    requires Inputs(c, s, m) && off + n <= |s.lits|
    ensures Slice(m, c.lit + off, n) == s.lits[off..off + n]
  {
    SubSlice(m, c.lit, |s.lits|, off, n);
  }

  /** Feeding n more literal bytes of INSERT number k. */
  lemma InsertStep(s: Stream, k: nat, n: nat, step: nat, c0: nat, out: Bytes, fed: Bytes, drained: nat)
    requires InsertingAt(s, k, n, out, fed) && n + step <= s.instrs[k].clen && |fed| + step <= |s.lits|
    requires drained == |s.dec(fed)|
    ensures var fed' := fed + s.lits[|fed|..|fed| + step];
            && drained <= |s.dec(fed')|
            && InsertingAt(s, k, n + step, out + s.dec(fed')[drained..], fed')
            && Clip(out + s.dec(fed')[drained..], s.target) <= Most(s)
            && (WellFormed(s) ==> |out + s.dec(fed')[drained..]| <= s.target)
            && (WellFormed(s) && |out| + |s.dec(fed')[drained..]| >= c0 ==>
               Restart(s, |s.instrs|, c0) == Restart(s, k, c0))
  {
    hide WellFormed, Incremental, Run, Step, Output, Restart, Inserted;
    var m, all := Run(s, k).value, s.instrs[k].clen;
    var fed' := fed + s.lits[|fed|..|fed| + step];
    assert fed' == s.lits[..m.lit + n + step];
    InsertedMore(s, m.lit, n, step);
    assert out + s.dec(fed')[drained..] == m.out + Inserted(s, m.lit, n + step);
    InsertInMost(s, k, n + step);
    if WellFormed(s) {
      InsertFacts(s, k, c0);
      InsertedMore(s, m.lit, n + step, all - n - step);
    }
  }

  /** What an INSERT produces, up to the end of the target. */
  lemma InsertInMost(s: Stream, k: nat, n: nat)
    requires Incremental(s.dec) && k < |s.instrs| && s.instrs[k].InsertLit? && n <= s.instrs[k].clen && Run(s, k).Some?
    requires Run(s, k).value.lit + n <= |s.lits|
    ensures Clip(Run(s, k).value.out + Inserted(s, Run(s, k).value.lit, n), s.target) <= Most(s)
  {
    hide Incremental, Inserted, Most, WellFormed, Run, Reach, Clip, Part;
    var m, clen := Run(s, k).value, s.instrs[k].clen;
    MachineFits(s, k);
    ReachIs(s, k);
    MostAt(s, k);
    var all := Min(clen, |s.lits| - m.lit);
    var x, y := Inserted(s, m.lit, n), Inserted(s, m.lit, all);
    InsertedMore(s, m.lit, n, all - n);
    ClipMore(m.out, x, y, s.target);
    if k < Reach(s, |s.instrs|) {
      RunInserted(s, k);
      ClipShort(m.out + y, s.target);
    } else {
      ClipAfter(m.out, y, s.target);
      PartInserted(s, m, s.instrs[k]);
    }
    PrefixOf(Clip(m.out + x, s.target), Clip(m.out + y, s.target), Most(s));
  }

  lemma PartInserted(s: Stream, m: Machine, i: Instr)
    requires Incremental(s.dec) && m.lit <= |s.lits| && |m.out| <= s.target && i.InsertLit?
    ensures Part(s, m, i) == Clip(Inserted(s, m.lit, Min(i.clen, |s.lits| - m.lit)), s.target - |m.out|)
  {
  }

  lemma RunInserted(s: Stream, k: nat)
    requires Incremental(s.dec) && k < |s.instrs| && s.instrs[k].InsertLit? && Run(s, k + 1).Some?
    ensures Run(s, k).Some? && Run(s, k).value.lit + s.instrs[k].clen <= |s.lits|
    ensures Run(s, k + 1).value.out == Run(s, k).value.out + Inserted(s, Run(s, k).value.lit, s.instrs[k].clen)
    ensures |Run(s, k + 1).value.out| <= s.target
  {
  }

  lemma PrefixOf(a: Bytes, b: Bytes, c: Bytes)
    requires a <= b <= c
    ensures a <= c
  {
  }

  lemma ClipShort(x: Bytes, n: nat)
    requires |x| <= n
    ensures Clip(x, n) == x
  {
  }

  lemma ClipMore(a: Bytes, x: Bytes, y: Bytes, n: nat)
    requires x <= y
    ensures Clip(a + x, n) <= Clip(a + y, n)
  {
  }

  lemma ClipAfter(a: Bytes, x: Bytes, n: nat)
    requires |a| <= n
    ensures Clip(a + x, n) == a + Clip(x, n - |a|)
  {
  }

  lemma ClipHolds(x: Bytes, y: Bytes, n: nat)
    requires |x| <= n
    ensures x <= Clip(x + y, n)
  {
  }

  /** How far a stream runs, from a point that it reaches. */
  lemma {:induction false} ReachFrom(s: Stream, k: nat, n: nat)
    requires Incremental(s.dec) && k <= n <= |s.instrs| && Run(s, k).Some?
    ensures k <= Reach(s, n) && (k < Reach(s, n) ==> Run(s, k + 1).Some?)
    ensures k == Reach(s, n) && k < n ==> Run(s, n).None?
    decreases n
  {
    hide Run, Incremental;
    if k < n {
      if Run(s, n).Some? { RunGrows(s, k + 1, n); } else { ReachFrom(s, k, n - 1); }
    }
  }

  lemma ReachIs(s: Stream, k: nat)
    requires Incremental(s.dec) && k < |s.instrs| && Run(s, k).Some?
    ensures k <= Reach(s, |s.instrs|) && (k < Reach(s, |s.instrs|) ==> Run(s, k + 1).Some?)
    ensures k == Reach(s, |s.instrs|) ==> !Ends(s)
  {
    ReachFrom(s, k, |s.instrs|);
  }

  /** The output so far is part of it, and so is what a failing instruction puts out. */
  lemma MostAt(s: Stream, k: nat)
    requires Incremental(s.dec) && k < |s.instrs| && Run(s, k).Some?
    requires Run(s, k).value.lit <= |s.lits| && |Run(s, k).value.out| <= s.target
    ensures k < Reach(s, |s.instrs|) ==> Run(s, k + 1).Some? && Run(s, k + 1).value.out <= Most(s)
    ensures k == Reach(s, |s.instrs|) ==> Most(s) == Run(s, k).value.out + Part(s, Run(s, k).value, s.instrs[k])
  {
    var r := Reach(s, |s.instrs|);
    ReachIs(s, k);
    if k < r {
      RunGrows(s, k + 1, r);
      assert Run(s, r).value.out <= Most(s);
    }
  }

  lemma InsertedMore(s: Stream, lit: nat, n: nat, step: nat)
    requires Incremental(s.dec) && lit + n + step <= |s.lits|
    ensures s.dec(s.lits[..lit + n]) <= s.dec(s.lits[..lit + n + step])
    ensures Inserted(s, lit, n + step)
            == Inserted(s, lit, n) + s.dec(s.lits[..lit + n + step])[|s.dec(s.lits[..lit + n])|..]
  {
    assert s.lits[..lit + n + step] == s.lits[..lit + n] + s.lits[lit + n..lit + n + step];
    assert s.lits[..lit + n] == s.lits[..lit] + s.lits[lit..lit + n];
  }

  lemma Polled(out: Bytes, all: Bytes, drained: nat, n: nat)
    requires drained + n <= |all|
    ensures out + all[drained..] == out + all[drained..][..n] + all[drained + n..]
  {
    var x, y := all[drained..], all[drained + n..];
    forall i | 0 <= i < |y| ensures x[n + i] == y[i] {}
    assert x[n..] == y && x == x[..n] + x[n..];
    AppendInside(out, x[..n], y);
  }

  lemma CopyBegins(s: Stream, k: nat, c0: nat, out: Bytes, q: nat, fed: Bytes, drained: nat)
    requires k < |s.instrs| && IsCopy(s.instrs[k]) && FedAt(s, k, fed, drained)
    requires out == Run(s, k).value.out && q == Restart(s, k, c0) && |out| + s.instrs[k].len <= s.target
    ensures CopyingAt(s, k, 0, c0, out, q)
  {
    assert out + [] == out;
  }

  lemma CopyEnds(s: Stream, k: nat, c0: nat, out: Bytes, q: nat, fed: Bytes, drained: nat)
    requires k < |s.instrs| && IsCopy(s.instrs[k]) && CopyingAt(s, k, s.instrs[k].len, c0, out, q)
             && FedAt(s, k, fed, drained)
    ensures FedAt(s, k + 1, fed, drained) && out == Run(s, k + 1).value.out && q == Restart(s, k + 1, c0)
  {
    hide Incremental;
    var before := Run(s, k).value.out;
    assert before + [] == before;
  }

  ghost predicate CopyingAt(s: Stream, k: nat, n: nat, c0: nat, out: Bytes, q: nat) {
    && Incremental(s.dec) && k < |s.instrs| && Run(s, k).Some? && MadeOk(s, s.instrs[k], n)
    && var before := Run(s, k).value.out;
       && out == before + Made(s, s.instrs[k], n) && |before| + s.instrs[k].len <= s.target
       && q == (if |before| < c0 && n > 0 then Min(|out|, c0) else Restart(s, k, c0))
  }

  ghost predicate FedAt(s: Stream, k: nat, fed: Bytes, drained: nat) {
    && Incremental(s.dec) && k <= |s.instrs| && Run(s, k).Some?
    && var m := Run(s, k).value;
       m.lit <= |s.lits| && fed == s.lits[..m.lit] && drained == |s.dec(fed)|
  }

  lemma BaseRead(c: Config, s: Stream, m: Bytes, off: nat, n: nat)
    requires Inputs(c, s, m) && off + n <= |s.base|
    ensures c.base + off + n <= |m| && Slice(m, c.base + off, n) == s.base[off..off + n]
  {
    SubSlice(m, c.base, |s.base|, off, n);
  }

  /** What is replayed was produced once, so the bytes of the base image it came from
      exist, also in a stream that fails later on. */
  lemma DryIsMeant(c: Config, s: Stream, c0: nat, k: nat, n: nat, q: nat, buf: Bytes, out: Bytes, done: Bytes,
                   step: nat)
    requires c.cap > 0 && Window(c, s, c0, q, buf, out, done) && Meant(c, s, out, done)
    requires CopyingAt(s, k, n, c0, out, q) && 0 < step && n + step <= s.instrs[k].len
    requires |out| + step <= |done| && |out| + step <= s.target
    ensures |done| == c0 && MadeOk(s, s.instrs[k], n + step)
  {
    hide WellFormed, NextGrid, Restart, Al, Fits, OnGrid, Most, PadUp, Run, Reach, Incremental;
    MachineFits(s, k);
    ReachIs(s, k);
    MostAt(s, k);
    var i, m := s.instrs[k], Run(s, k).value;
    if k < Reach(s, |s.instrs|) {
      RunCopied(s, k);
    } else {
      assert |out| + step <= |Most(s)|;
      assert n + step <= |Part(s, m, i)|;
    }
  }

  lemma RunCopied(s: Stream, k: nat)
    requires Incremental(s.dec) && k < |s.instrs| && IsCopy(s.instrs[k]) && Run(s, k + 1).Some?
    ensures Run(s, k).Some? && MadeOk(s, s.instrs[k], s.instrs[k].len)
    ensures Run(s, k + 1).value.out == Run(s, k).value.out + Made(s, s.instrs[k], s.instrs[k].len)
  {
    var before := Run(s, k).value.out;
    assert before + [] == before;
  }

  /** What a COPY or ZERO that the target has room for can produce. */
  lemma CopyInMost(s: Stream, k: nat, n: nat)
    requires Incremental(s.dec) && k < |s.instrs| && Run(s, k).Some? && MadeOk(s, s.instrs[k], n)
    requires |Run(s, k).value.out| + s.instrs[k].len <= s.target
    ensures Run(s, k).value.out + Made(s, s.instrs[k], n) <= Most(s)
  {
    hide Most, Made, Run, Reach, Incremental, WellFormed;
    MachineFits(s, k);
    ReachIs(s, k);
    MostAt(s, k);
    var i, m := s.instrs[k], Run(s, k).value;
    if k < Reach(s, |s.instrs|) {
      RunCopied(s, k);
      MadePrefix(s, i, n);
      PrefixTrans(m.out, Made(s, i, n), Made(s, i, i.len), Most(s));
    } else {
      ZeroRuns(s, k);
      MadeInPart(s, m, i, n);
      PrefixTrans(m.out, Made(s, i, n), Part(s, m, i), Most(s));
    }
  }

  lemma ZeroRuns(s: Stream, k: nat)
    requires Incremental(s.dec) && k < |s.instrs| && Run(s, k).Some?
    requires k == Reach(s, |s.instrs|) && IsCopy(s.instrs[k]) && |Run(s, k).value.out| + s.instrs[k].len <= s.target
    ensures s.instrs[k].CopyBase? && s.instrs[k].len > 0
  {
    hide Reach, Run, Step, Incremental;
    if Run(s, k + 1).Some? { ReachAbove(s, k + 1, |s.instrs|); }
    StepFails(s, k);
  }

  lemma StepFails(s: Stream, k: nat)
    requires Incremental(s.dec) && k < |s.instrs| && Run(s, k).Some? && Run(s, k + 1).None?
    requires IsCopy(s.instrs[k]) && |Run(s, k).value.out| + s.instrs[k].len <= s.target
    ensures s.instrs[k].CopyBase? && s.instrs[k].len > 0
  {
    hide Incremental;
  }

  lemma {:induction false} ReachAbove(s: Stream, k: nat, n: nat)
    requires Incremental(s.dec) && k <= n <= |s.instrs| && Run(s, k).Some?
    ensures k <= Reach(s, n)
    decreases n
  {
    if k < n && Run(s, n).None? { ReachAbove(s, k, n - 1); }
  }

  lemma MadeInPart(s: Stream, m: Machine, i: Instr, n: nat)
    requires Incremental(s.dec) && m.lit <= |s.lits| && |m.out| <= s.target && i.CopyBase? && MadeOk(s, i, n)
    requires |m.out| + i.len <= s.target
    ensures Made(s, i, n) <= Part(s, m, i)
  {
    if n > 0 { SubSlice(s.base, i.off, Min(i.off + i.len, |s.base|) - i.off, 0, n); }
  }

  /** Producing `step` more bytes of COPY or ZERO number k. */
  lemma CopyStep(s: Stream, k: nat, n: nat, step: nat, c0: nat, out: Bytes, q: nat)
    requires CopyingAt(s, k, n, c0, out, q) && step > 0 && MadeOk(s, s.instrs[k], n + step)
    ensures var i := s.instrs[k];
            var x := Made(s, i, n + step)[n..];
            && x == (if i.Zero? then Zeros(step) else s.base[i.off + n..i.off + n + step])
            && out + x <= Most(s)
            && (|out| < c0 && |out| + step <= c0 ==> CopyingAt(s, k, n + step, c0, out + x, |out| + step))
            && (c0 <= |out| ==> CopyingAt(s, k, n + step, c0, out + x, q))
            && (WellFormed(s) && |out| + step >= c0 ==> Restart(s, |s.instrs|, c0) == if |out| < c0 then c0 else q)
  {
    hide WellFormed, Made, Incremental, Run, Step, Output;
    CopyBytes(s, k, n, step, out);
    if WellFormed(s) { CopyFacts(s, k, c0); }
    var i := s.instrs[k];
    assert Run(s, k).value.out + Made(s, i, n + step) == out + Made(s, i, n + step)[n..];
  }

  lemma CopyBytes(s: Stream, k: nat, n: nat, step: nat, out: Bytes)
    requires Incremental(s.dec) && k < |s.instrs| && Run(s, k).Some? && step > 0 && MadeOk(s, s.instrs[k], n + step)
    requires MadeOk(s, s.instrs[k], n) && out == Run(s, k).value.out + Made(s, s.instrs[k], n)
    requires |Run(s, k).value.out| + s.instrs[k].len <= s.target
    ensures var i := s.instrs[k];
            var x := Made(s, i, n + step)[n..];
            && x == (if i.Zero? then Zeros(step) else s.base[i.off + n..i.off + n + step])
            && out + x == Run(s, k).value.out + Made(s, i, n + step)
            && out + x <= Most(s)
  {
    hide WellFormed, Made, Incremental, Run, Step, Most, MadeOk;
    var i := s.instrs[k];
    MadeMore(s, i, n, step);
    CopyInMost(s, k, n + step);
    AppendInside(Run(s, k).value.out, Made(s, i, n), Made(s, i, n + step)[n..]);
  }

  lemma AppendInside(a: Bytes, b: Bytes, x: Bytes)
    ensures a + b + x == a + (b + x)
  {
  }

  lemma PrefixTrans(a: Bytes, b: Bytes, b': Bytes, all: Bytes)
    requires b <= b' && a + b' <= all
    ensures a + b <= all
  {
  }

  predicate IsCopy(i: Instr) {
    i.CopyBase? || i.Zero?
  }

  /** The first n bytes that a COPY or ZERO produces. */
  ghost predicate MadeOk(s: Stream, i: Instr, n: nat) {
    IsCopy(i) && n <= i.len && (i.CopyBase? && n > 0 ==> i.off + n <= |s.base|)
  }

  ghost function Made(s: Stream, i: Instr, n: nat): (x: Bytes)
    requires MadeOk(s, i, n)
    ensures |x| == n
  {
    if i.Zero? then Zeros(n) else if n == 0 then [] else s.base[i.off..i.off + n]
  }

  lemma MadeMore(s: Stream, i: Instr, n: nat, step: nat)
    requires MadeOk(s, i, n + step)
    ensures MadeOk(s, i, n)
    ensures Made(s, i, n + step) == Made(s, i, n) + Made(s, i, n + step)[n..]
    ensures step > 0 ==>
            Made(s, i, n + step)[n..] == if i.Zero? then Zeros(step) else s.base[i.off + n..i.off + n + step]
  {
    var a, b := Made(s, i, n + step), Made(s, i, n);
    if i.CopyBase? && step > 0 {
      SubSlice(s.base, i.off, n + step, 0, n);
      SubSlice(s.base, i.off, n + step, n, step);
    }
    assert b == a[..n];
    assert a == a[..n] + a[n..];
  }

  lemma MadePrefix(s: Stream, i: Instr, n: nat)
    requires MadeOk(s, i, n) && MadeOk(s, i, i.len)
    ensures Made(s, i, n) <= Made(s, i, i.len)
  {
    MadeMore(s, i, n, i.len - n);
  }

  /** Once the output has passed c, the restart point is settled. */
  lemma {:induction false} RestartSettled(s: Stream, k: nat, n: nat, c: nat)
    requires Incremental(s.dec) && k <= n <= |s.instrs| && Run(s, n).Some?
    ensures Run(s, k).Some? && (|Run(s, k).value.out| >= c ==> Restart(s, n, c) == Restart(s, k, c))
    decreases n
  {
    hide Step, Incremental;
    RunGrows(s, k, n);
    if k < n {
      assert Run(s, n - 1).Some?;
      RunGrows(s, k, n - 1);
      RestartSettled(s, k, n - 1, c);
    }
  }

  /** What a well-formed stream guarantees about COPY or ZERO number k. */
  lemma CopyFacts(s: Stream, k: nat, c: nat)
    requires WellFormed(s) && k < |s.instrs| && IsCopy(s.instrs[k])
    ensures var i, r := s.instrs[k], Run(s, k);
            && r.Some? && MadeOk(s, i, i.len) && r.value.out + Made(s, i, i.len) <= Output(s)
            && Run(s, k + 1) == Some(r.value.(out := r.value.out + Made(s, i, i.len)))
            && (|r.value.out| + i.len >= c ==> Restart(s, |s.instrs|, c) == Restart(s, k + 1, c))
            && (|r.value.out| >= c ==> Restart(s, |s.instrs|, c) == Restart(s, k, c))
  {
    RunFacts(s, k, c);
    hide Restart, Incremental, WellFormed, Output;
    var r := Run(s, k);
    assert r.value.out + [] == r.value.out;
  }

  lemma SkipOk(c: Config, s: Stream, c0: nat, q: nat, buf: Bytes, out: Bytes, done: Bytes, x: Bytes)
    requires c.cap > 0 && Buffered(c, buf, out, done) && Window(c, s, c0, q, buf, out, done) && Meant(c, s, out, done)
    requires |x| > 0 && |out| + |x| <= |done| && |out| + |x| <= s.target
    requires out + x <= Most(s) && (WellFormed(s) && |out| + |x| >= c0 ==> Restart(s, |s.instrs|, c0) == c0)
    ensures |done| == c0
    ensures var more := out + x;
            Meant(c, s, more, done) && Buffered(c, [], more, done) && Window(c, s, c0, |more|, [], more, done)
  {
    hide WellFormed, NextGrid, Restart, Al, Fits, Run;
  }

  lemma PutOk(c: Config, s: Stream, c0: nat, q: nat, buf: Bytes, out: Bytes, done: Bytes, x: Bytes)
    requires c.cap > 0 && Buffered(c, buf, out, done) && Window(c, s, c0, q, buf, out, done) && Meant(c, s, out, done)
    requires |buf| + |x| <= c.cap && |out| + |x| <= s.target
    requires out + x <= Most(s) && (WellFormed(s) && |out| + |x| >= c0 ==> q == Restart(s, |s.instrs|, c0))
    ensures var more := out + x;
            Meant(c, s, more, done) && Buffered(c, buf + x, more, done) && Window(c, s, c0, q, buf + x, more, done)
  {
    hide WellFormed, NextGrid, Restart, Al, Fits, Run, OnGrid;
    if x == [] {
      assert buf + x == buf && out + x == out;
    } else {
      assert (out + x)[|out| - |buf|..] == buf + x;
    }
  }

  lemma DestAl(c: Config, s: Stream, x: nat)
    requires Configured(c, s) && Al(x, c.align)
    ensures Al(c.dest + x, c.align)
  {
    Aligned(c, s, 0);
    AlShift(c.dest, x, c.align);
  }

  lemma NextSector(c: Config, s: Stream, a: nat, limit: nat)
    requires Configured(c, s) && Boundary(c.g, a) && Boundary(c.g, limit) && a < limit
    ensures c.g.start(a) && c.g.size(a) > 0 && a + c.g.size(a) <= limit && Boundary(c.g, a + c.g.size(a))
  {
    assert SectorOk(c.g, a) && !Inside(c.g, a, limit);
  }

  // ---- boot_delta_apply ------------------------------------------------------------

  /** The checkpoint a run resumes at. */
  function ResumePoint(log: Txn, target: nat): (x: nat)
    ensures x <= target
  {
    if log.intent == OtherIntent then 0 else Min(log.chunk, target)
  }

  /** What the newest log entry promises about the destination. */
  ghost predicate Resumable(c: Config, s: Stream, log: Txn, m: Bytes) {
    Boundary(c.g, c.dest + ResumePoint(log, s.target)) ==> OnFlash(c, s, m, ResumePoint(log, s.target))
  }

  lemma KeptIsResumable(c: Config, s: Stream, c0: nat, m0: Bytes, m: Bytes, log0: Txn, log: Txn,
                        out: Bytes, done: Bytes)
    requires Configured(c, s) && Written(c, m0, m, done) && Checkpointed(c, s, c0, log0, log, done)
    requires Meant(c, s, out, done) && ResumePoint(log0, s.target) <= |done|
    ensures Resumable(c, s, log, m)
    ensures log != log0 ==> LoggedWell(c, s, log, m)
    ensures log != log0 && WellFormed(s) ==> Logs(c, s, c0, log.chunk)
  {
    hide WellFormed, Full, Most, Logs;
    IsIncremental(c, s);
    hide Configured;
    var x := ResumePoint(log, s.target);
    assert x <= |done|;
    assert Slice(m, c.dest, x) == Slice(m, c.dest, |done|)[..x];
    if log != log0 { assert Slice(m, c.dest, log.chunk) == Slice(m, c.dest, |done|)[..log.chunk]; }
  }

  lemma IsIncremental(c: Config, s: Stream)
    requires Configured(c, s)
    ensures Incremental(s.dec)
  {
  }

  /** A checkpoint is a sector start, and covers only bytes that are on flash as meant. */
  ghost predicate LoggedWell(c: Config, s: Stream, log: Txn, m: Bytes) {
    && Incremental(s.dec) && Boundary(c.g, c.dest + log.chunk) && c.dest + log.chunk <= |m| && log.chunk <= |Full(c, s)|
    && Slice(m, c.dest, log.chunk) == Full(c, s)[..log.chunk]
  }

  /** A run that comes to its end has written the image, and was not stuck. */
  lemma Finished(c: Config, s: Stream, c0: nat, q: nat, out: Bytes, done: Bytes)
    requires Configured(c, s) && WellFormed(s) && Meant(c, s, out, done) && |out| == s.target && c0 <= s.target
    requires Buffered(c, [], out, done) && Window(c, s, c0, q, [], out, done) && q == Restart(s, |s.instrs|, c0)
    ensures done == Image(c, s) && !Stuck(c, s, c0)
  {
    FullIsImage(c, s);
    hide WellFormed, Restart, Output, Tiling, Incremental, Al, PadUp, Most, Full;
    PadUpLeast(s.target, c.align);
    PaddedFits(c, s);
    assert |done| == PadUp(s.target, c.align);
    if |done| == c0 { NextPast(q, c.cap, c0); }
  }

  lemma {:induction false} NextPast(q: nat, cap: nat, c: nat)
    requires cap > 0
    ensures c < NextGrid(q, cap, c)
    decreases c + cap - q
  {
    if q <= c { NextPast(q + cap, cap, c); }
  }

  /** The sector walk of the resume: it lands on the checkpoint exactly when a sector
      starts there. */
  method Walk(c: Config, ghost s: Stream, checkpoint: nat) returns (st: Status)
    requires Configured(c, s) && checkpoint <= s.target
    ensures st == if Boundary(c.g, c.dest + checkpoint) then Ok else InvalidState
  {
    hide Tiling, Incremental;
    var curr := 0;
    while curr < checkpoint
      invariant Boundary(c.g, c.dest + curr) && (Boundary(c.g, c.dest + checkpoint) ==> curr <= checkpoint)
      decreases checkpoint - curr
    {
      NextSector(c, s, c.dest + curr, c.dest + c.destSize);
      if Boundary(c.g, c.dest + checkpoint) { NextSector(c, s, c.dest + curr, c.dest + checkpoint); }
      curr := curr + c.g.size(c.dest + curr);
    }
    return if curr == checkpoint then Ok else InvalidState;
  }

  ghost predicate Refuses(c: Config, s: Stream, log: Txn, baseMatches: bool) {
    var x := ResumePoint(log, s.target);
    !Boundary(c.g, c.dest + x) || (x == 0 && !baseMatches)
  }

  ghost predicate Installed(c: Config, s: Stream, m: Bytes) {
    && WellFormed(s) && c.dest + |Image(c, s)| <= |m|
    && Slice(m, c.dest, |Image(c, s)|) == Image(c, s)
  }

  ghost predicate Hopeless(c: Config, s: Stream, c0: nat) {
    WellFormed(s) && c.cap > 0 && Stuck(c, s, c0)
  }

  /** A malformed stream is never accepted.  A well-formed one either ends with the
      padded image in the destination or is cut, unless the resume point is stuck; and
      from there it never ends well. */
  ghost predicate Outcome(c: Config, s: Stream, c0: nat, st: Status, m: Bytes) {
    && (st == Ok ==> Installed(c, s, m) && !Hopeless(c, s, c0))
    && (WellFormed(s) ==> st == Ok || st == PowerCut || Hopeless(c, s, c0))
  }

  /** The newest log entry of a completed run, if it logged one. */
  ghost predicate EndsAt(c: Config, s: Stream, c0: nat, log0: Txn, log: Txn) {
    && c.cap > 0 && Incremental(s.dec)
    && (log.chunk == LastLogged(c, s, c0) || (log == log0 && LastLogged(c, s, c0) == c0))
  }

  lemma PacedAtEnd(c: Config, s: Stream, c0: nat, q: nat, done: Bytes, log0: Txn, log: Txn, checkpoint: nat)
    requires c.cap > 0 && Incremental(s.dec) && q == Restart(s, |s.instrs|, c0)
    requires Paced(c, c0, q, done, checkpoint) && Latest(c0, log0, log, checkpoint)
             && |done| == PadUp(s.target, c.align)
    ensures EndsAt(c, s, c0, log0, log)
  {
  }

  /** The body of boot_delta_apply past its gates. */
  method RunFrom(p: Platform, c: Config, s: Stream, checkpoint: nat) returns (st: Status)
    requires p.Valid() && p.g == c.g && Configured(c, s) && Inputs(c, s, p.mem)
    requires checkpoint == ResumePoint(p.log, s.target) && Boundary(c.g, c.dest + checkpoint)
             && OnFlash(c, s, p.mem, checkpoint)
    modifies p
    ensures p.Valid() && SameOutside(old(p.mem), p.mem, c.dest, c.dest + c.destSize)
    ensures Resumable(c, s, p.log, p.mem) && (p.log != old(p.log) ==> LoggedWell(c, s, p.log, p.mem))
    ensures p.log == old(p.log).(chunk := p.log.chunk)
    ensures Outcome(c, s, checkpoint, st, p.mem) && Vm.Code(st)
    ensures st == Ok ==> EndsAt(c, s, checkpoint, old(p.log), p.log)
    ensures p.log != old(p.log) && WellFormed(s) ==> Logs(c, s, checkpoint, p.log.chunk)
    ensures if st == PowerCut then p.cuts < old(p.cuts) else p.cuts == old(p.cuts)
  {
    hide Tiling, Incremental, WellFormed, Stuck, Slice, Frontier, ErasedOnce, Marks, Boundary, Run, Restart, Inputs;
    hide Al, Fits, Agrees, Logs, EndsAt;
    IsIncremental(c, s);
    ghost var m0, log0 := p.mem, p.log;
    var vm := new Vm(p, c, s, p.log, checkpoint);
    ghost var begun;
    st, begun := vm.RunAll();
    if st == Ok { st := vm.Finish(); }
    hide Window, Buffered, Configured, Meant, Output, Image;
    KeptIsResumable(c, s, checkpoint, m0, p.mem, log0, p.log, vm.out, vm.done);
    if st == Ok {
      Finished(c, s, checkpoint, vm.q, vm.out, vm.done);
      PacedAtEnd(c, s, checkpoint, vm.q, vm.done, log0, p.log, vm.checkpointOff);
    }
  }

  /** boot_delta_apply past the header checks, re-entered with the newest log entry.
      `baseMatches` is the outcome of the fingerprint comparison. */
  method Apply(p: Platform, c: Config, s: Stream, baseMatches: bool) returns (st: Status)
    requires p.Valid() && p.g == c.g && Configured(c, s) && Inputs(c, s, p.mem)
    requires Resumable(c, s, p.log, p.mem)
    modifies p
    ensures p.Valid() && SameOutside(old(p.mem), p.mem, c.dest, c.dest + c.destSize) && Inputs(c, s, p.mem)
    ensures Resumable(c, s, p.log, p.mem) && (p.log != old(p.log) ==> LoggedWell(c, s, p.log, p.mem))
    ensures p.log == old(p.log).(chunk := p.log.chunk)
    ensures old(Refuses(c, s, p.log, baseMatches)) ==> p.mem == old(p.mem) && p.log == old(p.log)
    ensures st == InvalidState <== old(!Boundary(c.g, c.dest + ResumePoint(p.log, s.target)))
    ensures st == Downgrade <==> old(ResumePoint(p.log, s.target) == 0 && !baseMatches)
    ensures Vm.Code(st) || st == Downgrade
    ensures old(!Refuses(c, s, p.log, baseMatches)) ==> Outcome(c, s, old(ResumePoint(p.log, s.target)), st, p.mem)
    ensures st == Ok ==> Installed(c, s, p.mem)
    ensures st == Ok ==> EndsAt(c, s, old(ResumePoint(p.log, s.target)), old(p.log), p.log)
    ensures p.log != old(p.log) && WellFormed(s) ==> Logs(c, s, old(ResumePoint(p.log, s.target)), p.log.chunk)
    ensures if st == PowerCut then p.cuts < old(p.cuts) else p.cuts == old(p.cuts)
  {
    hide Tiling, Incremental, WellFormed, Stuck, Slice, Inputs, Installed, LoggedWell, Full, Most, EndsAt, Logs;
    IsIncremental(c, s);
    var checkpoint := ResumePoint(p.log, s.target);
    if checkpoint == 0 {
      if !baseMatches { return Downgrade; }
    } else {
      st := Walk(c, s, checkpoint);
      if st != Ok { return; }
    }
    ghost var m0 := p.mem;
    st := RunFrom(p, c, s, checkpoint);
    InputsKept(c, s, m0, p.mem);
  }

  /** A run from x that is not cut logs a checkpoint past the target. */
  ghost predicate LogsPast(c: Config, s: Stream, x: nat)
    requires c.cap > 0 && Incremental(s.dec)
  {
    LastLogged(c, s, x) > s.target
  }

  /** No run is stuck at x or logs past the target from there, nor from any checkpoint
      that a run from x may log. */
  ghost predicate Completes(c: Config, s: Stream, x: nat)
    requires c.cap > 0 && WellFormed(s)
    decreases s.target - x
  {
    && x <= s.target && Boundary(c.g, c.dest + x) && !Stuck(c, s, x) && !LogsPast(c, s, x)
    && forall y: nat :: x < y <= s.target && Logs(c, s, x, y) ==> Completes(c, s, y)
  }

  /** Call boot_delta_apply again after every power cut, each time with the newest log
      entry, for any stream: only a well-formed one is ever accepted, with its image
      installed, and one that `Completes` is, wherever the cuts strike. */
  method RunToCompletion(p: Platform, c: Config, s: Stream) returns (st: Status)
    requires p.Valid() && p.g == c.g && Configured(c, s) && Inputs(c, s, p.mem)
    requires ResumePoint(p.log, s.target) == 0
    modifies p
    ensures p.Valid() && st != PowerCut && SameOutside(old(p.mem), p.mem, c.dest, c.dest + c.destSize)
    ensures st == Ok ==> WellFormed(s) && Installed(c, s, p.mem)
    ensures c.cap > 0 && WellFormed(s) && Completes(c, s, 0) ==> st == Ok
  {
    hide Tiling, WellFormed, Configured, Inputs, Hopeless, OnFlash, LoggedWell, Installed, Logs, EndsAt, Completes;
    CapSome(c, s);
    ghost var fine := WellFormed(s) && Completes(c, s, 0);
    ghost var m0 := p.mem;
    AtStart(c, s, p.log, p.mem);
    st := PowerCut;
    while st == PowerCut
      invariant p.Valid() && Inputs(c, s, p.mem) && Resumable(c, s, p.log, p.mem)
      invariant SameOutside(m0, p.mem, c.dest, c.dest + c.destSize)
      invariant fine ==> WellFormed(s) && Completes(c, s, ResumePoint(p.log, s.target)) && (st == Ok || st == PowerCut)
      invariant st == Ok ==> WellFormed(s) && Installed(c, s, p.mem)
      decreases p.cuts, st == PowerCut
    {
      ghost var log0, m := p.log, p.mem;
      ghost var x := ResumePoint(p.log, s.target);
      if fine { CompletesMeans(c, s, x); }
      st := Apply(p, c, s, true);
      SameOutsideTrans(m0, m, p.mem, c.dest, c.dest + c.destSize);
      if st == Ok { InstalledMeans(c, s, p.mem); }
      if fine && p.log != log0 { StillCompletes(c, s, x, p.log, p.mem); }
    }
  }

  lemma CapSome(c: Config, s: Stream)
    requires Configured(c, s)
    ensures c.cap > 0 && Incremental(s.dec)
  {
  }

  lemma CompletesMeans(c: Config, s: Stream, x: nat)
    requires c.cap > 0 && WellFormed(s) && Completes(c, s, x)
    ensures Boundary(c.g, c.dest + x) && !Hopeless(c, s, x)
  {
  }

  /** A checkpoint past the target is the end of the image, and the last one logged. */
  lemma PastIsLast(c: Config, s: Stream, x: nat, log: Txn, m: Bytes)
    requires Configured(c, s) && LoggedWell(c, s, log, m) && Logs(c, s, x, log.chunk) && x <= s.target < log.chunk
    ensures LogsPast(c, s, x) && log.chunk == PadUp(s.target, c.align) == LastLogged(c, s, x)
  {
    NextResume(c, s, log, m);
    hide LoggedWell, Configured, PadUp, Boundary, Incremental;
    var f: nat :| f <= PadUp(s.target, c.align) && log.chunk == Anchor(c, x, FirstEnd(c, s, x), f);
  }

  lemma StillCompletes(c: Config, s: Stream, x: nat, log: Txn, m: Bytes)
    requires Configured(c, s) && WellFormed(s) && Completes(c, s, x)
    requires LoggedWell(c, s, log, m) && Logs(c, s, x, log.chunk) && (log.intent == OtherIntent ==> x == 0)
    ensures Completes(c, s, ResumePoint(log, s.target))
  {
    if log.chunk > s.target { PastIsLast(c, s, x, log, m); }
    LogsFrom(c, s, x, log.chunk);
    hide Configured, WellFormed, LoggedWell, Logs;
  }

  lemma LogsFrom(c: Config, s: Stream, x: nat, y: nat)
    requires c.cap > 0 && Incremental(s.dec) && Logs(c, s, x, y)
    ensures y >= x
  {
    var f: nat :| f <= PadUp(s.target, c.align) && y == Anchor(c, x, FirstEnd(c, s, x), f);
    AnchorGrows(c, x, FirstEnd(c, s, x), f);
  }

  lemma {:induction false} AnchorGrows(c: Config, c0: nat, first: nat, f: nat)
    requires c.cap > 0
    ensures Anchor(c, c0, first, f) >= c0
    decreases f
  {
    if f > c0 { AnchorGrows(c, c0, first, Prev(c0, first, c.cap, f)); }
  }

  /** No checkpoint within the target is stuck. */
  ghost predicate NeverStuck(c: Config, s: Stream) {
    forall x: nat :: x <= s.target && Boundary(c.g, c.dest + x) ==> !Hopeless(c, s, x)
  }

  /** The image ends with a sector but the target does not: the padding completes a sector
      past the target. */
  ghost predicate Overruns(c: Config, s: Stream) {
    !Al(s.target, c.align) && Boundary(c.g, c.dest + PadUp(s.target, c.align))
  }

  /** Only an image that overruns can log past its target. */
  lemma PastOverruns(c: Config, s: Stream, x: nat)
    requires Configured(c, s) && x <= s.target && Boundary(c.g, c.dest + x) && LogsPast(c, s, x)
    ensures Overruns(c, s) && LastLogged(c, s, x) == PadUp(s.target, c.align)
  {
    hide PadUp, Incremental, Tiling;
    var y := LastLogged(c, s, x);
    assert Boundary(c.g, c.dest + y);
    CheckpointAl(c, s, y);
    BetweenTarget(s.target, y, c.align);
  }

  /** What is never stuck and does not overrun completes. */
  lemma {:induction false} SimplyCompletes(c: Config, s: Stream, x: nat)
    requires Configured(c, s) && WellFormed(s) && NeverStuck(c, s) && !Overruns(c, s)
    requires x <= s.target && Boundary(c.g, c.dest + x)
    ensures Completes(c, s, x)
    decreases s.target - x
  {
    assert !Hopeless(c, s, x);
    if LogsPast(c, s, x) { PastOverruns(c, s, x); }
    hide Overruns, NeverStuck, WellFormed, Stuck;
    forall y: nat | x < y <= s.target && Logs(c, s, x, y) ensures Completes(c, s, y) {
      LogsBoundary(c, s, x, y);
      SimplyCompletes(c, s, y);
    }
  }

  lemma LogsBoundary(c: Config, s: Stream, x: nat, y: nat)
    requires Configured(c, s) && Boundary(c.g, c.dest + x) && Logs(c, s, x, y)
    ensures Boundary(c.g, c.dest + y)
  {
  }

  lemma InstalledMeans(c: Config, s: Stream, m: Bytes)
    requires Installed(c, s, m)
    ensures WellFormed(s)
  {
  }

  lemma AtStart(c: Config, s: Stream, log: Txn, m: Bytes)
    requires Configured(c, s) && ResumePoint(log, s.target) == 0 && |m| == c.g.total
    ensures Resumable(c, s, log, m) && Boundary(c.g, c.dest + ResumePoint(log, s.target))
  {
  }

  /** A logged checkpoint lies within the target, or is the end of an image that overruns. */
  lemma NextResume(c: Config, s: Stream, log: Txn, m: Bytes)
    requires Configured(c, s) && LoggedWell(c, s, log, m)
    ensures log.chunk <= s.target || (log.chunk == PadUp(s.target, c.align) && Overruns(c, s))
    ensures log.chunk <= s.target ==> Boundary(c.g, c.dest + ResumePoint(log, s.target))
  {
    hide LoggedWell, Configured, PadUp, Boundary, Al;
    LoggedFits(c, s, log, m);
    CheckpointAl(c, s, log.chunk);
    BetweenTarget(s.target, log.chunk, c.align);
  }

  lemma CheckpointAl(c: Config, s: Stream, x: nat)
    requires Configured(c, s) && Boundary(c.g, c.dest + x)
    ensures Al(x, c.align) && Boundary(c.g, c.dest + 0)
  {
    Aligned(c, s, x);
  }

  lemma BetweenTarget(target: nat, x: nat, align: nat)
    requires Al(x, align) && x <= PadUp(target, align)
    ensures x <= target || (x == PadUp(target, align) && !Al(target, align))
  {
    PadUpLeast(target, align);
  }

  lemma LoggedFits(c: Config, s: Stream, log: Txn, m: Bytes)
    requires LoggedWell(c, s, log, m)
    ensures Boundary(c.g, c.dest + log.chunk) && log.chunk <= PadUp(s.target, c.align)
  {
    FullFits(c, s);
    hide Full, Slice, PadUp, Boundary;
  }

  lemma FullFits(c: Config, s: Stream)
    requires Incremental(s.dec)
    ensures |Full(c, s)| <= PadUp(s.target, c.align)
  {
    var n := |Most(s)|;
    hide Most;
    PadUpLeast(n, c.align);
    PadUpLeast(s.target, c.align);
    if n <= s.target { assert PadUp(n, c.align) <= PadUp(s.target, c.align); }
  }

  // ---- When an image overruns its target ---------------------------------------------

  ghost predicate SectorIs(g: Geometry, n: nat, a: nat) {
    g.start(a) ==> g.size(a) == n
  }

  /** Every sector is as large as the throttle. */
  ghost predicate EvenSectors(c: Config) {
    c.maxSector > 0 && forall a: nat :: SectorIs(c.g, c.maxSector, a)
  }

  /** A target that is not a multiple of the alignment: a checkpoint past it is refused on
      every resume. */
  lemma OverrunRefused(c: Config, s: Stream, log: Txn)
    requires Configured(c, s) && log.intent != OtherIntent && log.chunk > s.target && !Al(s.target, c.align)
    ensures Refuses(c, s, log, true) && !Boundary(c.g, c.dest + ResumePoint(log, s.target))
  {
    if Boundary(c.g, c.dest + s.target) { Aligned(c, s, s.target); }
  }

  /** Every run logs past the target, from x and from every checkpoint within the target
      that a run from x may log, and none is stuck. */
  ghost predicate AlwaysPast(c: Config, s: Stream, x: nat)
    requires c.cap > 0 && WellFormed(s)
    decreases s.target - x
  {
    && x <= s.target && Boundary(c.g, c.dest + x) && !Stuck(c, s, x) && LogsPast(c, s, x)
    && forall y: nat :: x < y <= s.target && Logs(c, s, x, y) ==> AlwaysPast(c, s, y)
  }

  /** In sectors as large as the throttle an image that overruns always does. */
  lemma {:induction false} EvenAlwaysPast(c: Config, s: Stream, x: nat)
    requires Configured(c, s) && WellFormed(s) && NeverStuck(c, s) && Overruns(c, s) && EvenSectors(c)
    requires x <= s.target && Boundary(c.g, c.dest + x)
    ensures AlwaysPast(c, s, x)
    decreases s.target - x
  {
    assert !Hopeless(c, s, x);
    EvenLogsPast(c, s, x);
    hide Overruns, NeverStuck, WellFormed, Stuck, EvenSectors, LogsPast;
    forall y: nat | x < y <= s.target && Logs(c, s, x, y) ensures AlwaysPast(c, s, y) {
      LogsBoundary(c, s, x, y);
      EvenAlwaysPast(c, s, y);
    }
  }

  lemma EvenLogsPast(c: Config, s: Stream, x: nat)
    requires Configured(c, s) && Overruns(c, s) && EvenSectors(c)
    requires x <= s.target && Boundary(c.g, c.dest + x)
    ensures LogsPast(c, s, x)
  {
    EndFits(c, s);
    EvenAnchor(c, s, x, FirstEnd(c, s, x), PadUp(s.target, c.align));
  }

  lemma EvenAnchor(c: Config, s: Stream, x: nat, first: nat, end: nat)
    requires Configured(c, s) && EvenSectors(c) && x < end && c.dest + end <= c.g.total
    requires Boundary(c.g, c.dest + x) && Boundary(c.g, c.dest + end)
    ensures Anchor(c, x, first, end) == end
  {
    hide *;
    CapSome(c, s);
    CheckpointAl(c, s, x);
    AnchorStep(c, x, first, end);
    EvenApart(c, s, Anchor(c, x, first, Prev(x, first, c.cap, end)), end);
  }

  /** Two sector ends are a throttle apart. */
  lemma EvenApart(c: Config, s: Stream, y: nat, end: nat)
    requires Configured(c, s) && EvenSectors(c) && y < end && c.dest + end <= c.g.total
    requires Boundary(c.g, c.dest + y) && Boundary(c.g, c.dest + end)
    ensures y + c.maxSector <= end
  {
    hide Incremental;
    assert SectorIs(c.g, c.maxSector, c.dest + y);
    if end < y + c.maxSector { NoneInside(c.g, c.dest + y, c.dest + end); }
  }

  lemma EndFits(c: Config, s: Stream)
    requires Configured(c, s) && Overruns(c, s)
    ensures s.target < PadUp(s.target, c.align) && c.dest + PadUp(s.target, c.align) <= c.g.total
    ensures Boundary(c.g, c.dest + PadUp(s.target, c.align))
  {
    PadUpLeast(s.target, c.align);
    PaddedFits(c, s);
    InFlash(c, s);
  }

  /** Such an update, called again after every cut: the checkpoint at the end of the image
      is logged, and from then on every call is refused.  `st` is the first result that is
      not a cut, and `again` that of one more call: if a cut strikes between that log entry
      and the return of the call, the update is never completed. */
  method OverrunToCompletion(p: Platform, c: Config, s: Stream) returns (st: Status, again: Status)
    requires p.Valid() && p.g == c.g && Configured(c, s) && Inputs(c, s, p.mem)
    requires WellFormed(s) && AlwaysPast(c, s, 0) && p.log.intent != OtherIntent && p.log.chunk == 0
    modifies p
    ensures st == Ok || st == InvalidState
    ensures p.log.chunk == PadUp(s.target, c.align) > s.target && Refuses(c, s, p.log, true)
    ensures again == InvalidState
  {
    hide Tiling, WellFormed, Configured, Inputs, Hopeless, OnFlash, LoggedWell, Installed, PadUp, Logs, EndsAt;
    hide AlwaysPast, LogsPast, Overruns;
    CapSome(c, s);
    PastAtStart(c, s);
    AtStart(c, s, p.log, p.mem);
    st := PowerCut;
    while st == PowerCut
      invariant p.Valid() && Inputs(c, s, p.mem) && Resumable(c, s, p.log, p.mem) && p.log.intent != OtherIntent
      invariant if p.log.chunk <= s.target then AlwaysPast(c, s, p.log.chunk) && st == PowerCut
                else p.log.chunk == PadUp(s.target, c.align)
      invariant st == PowerCut || st == Ok || st == InvalidState
      decreases p.cuts, st == PowerCut
    {
      ghost var log0 := p.log;
      if p.log.chunk <= s.target { PastMeans(c, s, p.log.chunk); } else { EndRefused(c, s, p.log); }
      st := Apply(p, c, s, true);
      if log0.chunk <= s.target { PastNext(c, s, log0, p.log, p.mem, st == Ok); }
    }
    EndRefused(c, s, p.log);
    again := Apply(p, c, s, true);
  }

  /** One such resume point is enough: without a cut the run from it succeeds, and then
      every further call is refused. */
  method PastThenRefused(p: Platform, c: Config, s: Stream) returns (st: Status, again: Status)
    requires p.Valid() && p.g == c.g && Configured(c, s) && Inputs(c, s, p.mem) && Resumable(c, s, p.log, p.mem)
    requires WellFormed(s) && p.log.intent != OtherIntent && p.log.chunk <= s.target && p.cuts == 0
    requires Boundary(c.g, c.dest + p.log.chunk) && !Stuck(c, s, p.log.chunk) && LogsPast(c, s, p.log.chunk)
    modifies p
    ensures st == Ok && again == InvalidState && Installed(c, s, p.mem)
    ensures p.log.chunk == PadUp(s.target, c.align) > s.target
  {
    hide Tiling, Incremental, WellFormed, Configured, Inputs, Stuck, OnFlash, LoggedWell, PadUp, Logs;
    ghost var x, m := p.log.chunk, p.mem;
    PastOverruns(c, s, x);
    hide Overruns, Installed, Boundary;
    st := Apply(p, c, s, true);
    EndRefused(c, s, p.log);
    ghost var m1 := p.mem;
    again := Apply(p, c, s, true);
  }

  lemma PastAtStart(c: Config, s: Stream)
    requires Configured(c, s) && WellFormed(s) && AlwaysPast(c, s, 0)
    ensures Overruns(c, s)
  {
    PastOverruns(c, s, 0);
  }

  lemma PastMeans(c: Config, s: Stream, x: nat)
    requires Configured(c, s) && WellFormed(s) && AlwaysPast(c, s, x)
    ensures Boundary(c.g, c.dest + x) && !Hopeless(c, s, x)
  {
  }

  lemma PastNext(c: Config, s: Stream, log0: Txn, log: Txn, m: Bytes, completed: bool)
    requires Configured(c, s) && WellFormed(s) && log0.chunk <= s.target && AlwaysPast(c, s, log0.chunk)
    requires log == log0 || (LoggedWell(c, s, log, m) && Logs(c, s, log0.chunk, log.chunk))
    requires completed ==> EndsAt(c, s, log0.chunk, log0, log)
    ensures if log.chunk <= s.target then AlwaysPast(c, s, log.chunk) && !completed
            else log.chunk == PadUp(s.target, c.align)
  {
    if log != log0 {
      LogsFrom(c, s, log0.chunk, log.chunk);
      if log.chunk > s.target { PastIsLast(c, s, log0.chunk, log, m); }
    }
    hide Configured, WellFormed, LoggedWell, Logs, PadUp, Stuck;
  }

  lemma EndRefused(c: Config, s: Stream, log: Txn)
    requires Configured(c, s) && Overruns(c, s) && log.intent != OtherIntent && log.chunk == PadUp(s.target, c.align)
    ensures log.chunk > s.target && Refuses(c, s, log, true) && !Boundary(c.g, c.dest + ResumePoint(log, s.target))
  {
    PadUpLeast(s.target, c.align);
    OverrunRefused(c, s, log);
  }

  // ---- When a resume is stuck --------------------------------------------------------

  /** Every COPY and ZERO ends at a multiple of the write alignment. */
  ghost predicate EndsAligned(c: Config, s: Stream)
    requires Incremental(s.dec)
  {
    forall k: nat :: k < |s.instrs| ==> EndAligned(c, s, k)
  }

  ghost predicate EndAligned(c: Config, s: Stream, k: nat)
    requires Incremental(s.dec) && k < |s.instrs|
  {
    Run(s, k).Some? && IsCopy(s.instrs[k]) ==> Al(|Run(s, k).value.out| + s.instrs[k].len, c.align)
  }

  lemma {:induction false} RestartAligned(c: Config, s: Stream, k: nat, c0: nat)
    requires Incremental(s.dec) && EndsAligned(c, s) && k <= |s.instrs| && Al(c0, c.align)
    ensures Al(Restart(s, k, c0), c.align)
  {
    if k > 0 {
      RestartAligned(c, s, k - 1, c0);
      assert EndAligned(c, s, k - 1);
    }
  }

  /** Then no checkpoint is stuck, unless the destination ends where flash ends. */
  lemma AlignedNeverStuck(c: Config, s: Stream)
    requires Configured(c, s) && WellFormed(s) && EndsAligned(c, s)
    requires c.dest + PadUp(s.target, c.align) < c.g.total
    ensures NeverStuck(c, s)
  {
    hide Restart, WellFormed, EndsAligned;
    forall x: nat | x <= s.target && Boundary(c.g, c.dest + x) ensures !Hopeless(c, s, x) {
      Aligned(c, s, x);
      RestartAligned(c, s, |s.instrs|, x);
    }
  }

  // ---- Examples ------------------------------------------------------------------------

  /** One zero byte and 63 inserted ones. */
  function OddStream(): Stream {
    Stream([Zero(1), InsertLit(63)], true, Zeros(63), [], 64, (x: Bytes) => x)
  }

  /** Sectors and window of 32 bytes, and words of 8. */
  function OddConfig(): Config {
    Config(Uniform(32, 256), 64, 64, 0, 0, 32, 8, 8, 32)
  }

  lemma UniformAl(sec: nat, total: nat, align: nat, a: nat)
    requires align > 0 && sec > 0 && Al(sec, align) && Multiple(total, sec)
    ensures SectorAl(Uniform(sec, total), align, a)
  {
    if Boundary(Uniform(sec, total), a) {
      var q := a / sec;
      var w := sec / align;
      assert a == q * sec && sec == w * align;
      assert a == (q * w) * align;
      ModOfMultiple(q * w, align);
    }
  }

  lemma OddConfigured()
    ensures Configured(OddConfig(), OddStream())
  {
    var c := OddConfig();
    UniformTiles(32, 256);
    forall a: nat ensures SectorAl(c.g, c.align, a) { UniformAl(32, 256, 8, a); }
  }

  lemma OddRuns()
    ensures Incremental(OddStream().dec) && WellFormed(OddStream()) && Restart(OddStream(), 2, 32) == 1
  {
    var s := OddStream();
    assert Run(s, 0) == Some(Machine([], 0));
    assert Run(s, 1) == Some(Machine([] + Zeros(1), 0));
    assert Inserted(s, 0, 63) == Zeros(63);
    assert Run(s, 2) == Some(Machine([] + Zeros(1) + Zeros(63), 63));
    assert Restart(s, 0, 32) == 0;
    assert Restart(s, 1, 32) == 1;
  }

  /** A run whose first window of 32 bytes is on flash has logged the checkpoint 32. */
  lemma FirstFlushLogged(vm: Vm)
    requires vm.Valid() && vm.c == OddConfig() && vm.s == OddStream() && vm.c0 == 0 && |vm.done| == 32
    ensures vm.p.log.chunk == 32
  {
    hide Window, Written, Inputs, Meant, Buffered, ErasedOnce, Frontier, Incremental, Tiling, Paced, Configured;
    hide Restart, Run, WellFormed, OnFlash, LoggedWell, Al, PadUp, Slice, Logs;
    assert OddConfig().g.size(64 + vm.committedOff) == 32;
  }

  /** And a resume at 32 is stuck: dry replay restarts the buffer at byte 1, so that its
      window ends at byte 33, in the middle of a word. */
  lemma StuckExample()
    ensures Configured(OddConfig(), OddStream()) && WellFormed(OddStream()) && Stuck(OddConfig(), OddStream(), 32)
  {
    OddConfigured();
    OddRuns();
    assert NextGrid(1, 32, 32) == NextGrid(33, 32, 32) == 33;
    PadUpLeast(64, 8);
  }

  /** 60 inserted bytes in sectors of 64. */
  function ShortStream(): Stream {
    Stream([InsertLit(60)], true, Zeros(60), [], 60, (x: Bytes) => x)
  }

  function ShortConfig(): Config {
    Config(Uniform(64, 256), 64, 64, 0, 0, 64, 8, 8, 64)
  }

  lemma ShortConfigured()
    ensures Configured(ShortConfig(), ShortStream()) && EvenSectors(ShortConfig())
  {
    var c := ShortConfig();
    UniformTiles(64, 256);
    forall a: nat ensures SectorAl(c.g, c.align, a) { UniformAl(64, 256, 8, a); }
    forall a: nat ensures SectorIs(c.g, c.maxSector, a) {}
  }

  lemma ShortRuns()
    ensures WellFormed(ShortStream()) && EndsAligned(ShortConfig(), ShortStream())
  {
    var s := ShortStream();
    assert Run(s, 0) == Some(Machine([], 0));
    assert Inserted(s, 0, 60) == Zeros(60);
    assert Run(s, 1) == Some(Machine([] + Zeros(60), 60));
  }

  /** It is never stuck, and overruns its target. */
  lemma OverrunExample()
    ensures var c, s := ShortConfig(), ShortStream();
            Configured(c, s) && WellFormed(s) && Overruns(c, s) && AlwaysPast(c, s, 0)
  {
    var c, s := ShortConfig(), ShortStream();
    ShortConfigured();
    ShortRuns();
    PadUpIs(60, 8);
    hide WellFormed, EndsAligned, PadUp;
    AlignedNeverStuck(c, s);
    EvenAlwaysPast(c, s, 0);
  }

  /** 92 inserted bytes in sectors of 32, with a throttle of 64. */
  function SmallStream(): Stream {
    Stream([InsertLit(92)], true, Zeros(92), [], 92, (x: Bytes) => x)
  }

  function SmallConfig(): Config {
    Config(Uniform(32, 256), 128, 96, 0, 0, 32, 8, 8, 64)
  }

  lemma SmallConfigured()
    ensures Configured(SmallConfig(), SmallStream())
  {
    var c := SmallConfig();
    UniformTiles(32, 256);
    forall a: nat ensures SectorAl(c.g, c.align, a) { UniformAl(32, 256, 8, a); }
  }

  lemma SmallRuns()
    ensures WellFormed(SmallStream()) && forall x: nat :: Restart(SmallStream(), 1, x) == 0
  {
    var s := SmallStream();
    assert Run(s, 0) == Some(Machine([], 0));
    assert Inserted(s, 0, 92) == Zeros(92);
    assert Run(s, 1) == Some(Machine([] + Zeros(92), 92));
    forall x: nat ensures Restart(s, 1, x) == 0 { assert Restart(s, 0, x) == 0; }
  }

  /** What its runs log: from the start, checkpoint 64 once the frontier is there. */
  lemma SmallAnchors(f: nat)
    requires f <= 96
    ensures Anchor(SmallConfig(), 0, 32, f) == if f < 64 then 0 else 64
  {
    var c := SmallConfig();
    hide Anchor, Mark, Tiling;
    if f > 64 {
      AnchorStep(c, 0, 32, f);
      assert GridBelow(32, 32, f) == GridBelow(64, 32, f) == 64;
      SmallAnchors(64);
    } else if f > 32 {
      AnchorStep(c, 0, 32, f);
      assert GridBelow(32, 32, f) == 32;
      SmallAnchors(32);
    } else if f > 0 {
      AnchorStep(c, 0, 32, f);
    }
  }

  lemma SmallResumed(f: nat)
    requires f <= 96
    ensures Anchor(SmallConfig(), 64, 96, f) == 64
  {
    hide Anchor, Mark;
    if f > 64 { AnchorStep(SmallConfig(), 64, 96, f); }
  }

  /** It overruns its target and completes all the same: the throttle swallows the last
      checkpoint. */
  lemma SwallowedExample()
    ensures var c, s := SmallConfig(), SmallStream();
            Configured(c, s) && WellFormed(s) && Overruns(c, s) && Completes(c, s, 0)
  {
    var c, s := SmallConfig(), SmallStream();
    SmallConfigured();
    SmallRuns();
    PadUpIs(92, 8);
    hide WellFormed, PadUp, Anchor, Restart;
    SmallAnchors(96);
    SmallResumed(96);
    assert NextGrid(0, 32, 0) == 32 && NextGrid(0, 32, 64) == 96;
    forall y: nat | Logs(c, s, 64, y) ensures y == 64 {
      var f: nat :| f <= 96 && y == Anchor(c, 64, 96, f);
      SmallResumed(f);
    }
    assert Completes(c, s, 64);
    forall y: nat | 0 < y && Logs(c, s, 0, y) ensures y == 64 {
      var f: nat :| f <= 96 && y == Anchor(c, 0, 32, f);
      SmallAnchors(f);
    }
  }
}
