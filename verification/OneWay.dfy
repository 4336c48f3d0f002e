/** Backup and deploy: a one-way transport that keeps the old image until the new one
    is in place (toobloader/core/boot_transport_oneway.c). */
module OneWay {
  import opened FlashModel
  import opened EffectEngine

  const ONEWAY_MAX_LOOPS: nat := 100000
  const U32_MAX: nat := 0xFFFF_FFFF

  /** One call of copy_region_resumable. */
  datatype Job = Job(src: nat, srcSize: nat, dst: nat, dstSize: nat, length: nat, magic: Phase)

  /** The block size solver: the larger of the two sectors, or the padded tail. */
  function Block(g: Geometry, align: nat, j: Job, off: nat): (n: nat)
    requires off < j.length
    ensures Aligned(g, j, off) ==> n > 0
  {
    var s, d := g.size(j.src + off), g.size(j.dst + off);
    var b := if s > d then s else d;
    if b > j.length - off then PadUp(j.length - off, align) else b
  }

  /** What the solver demands of a block. */
  predicate Aligned(g: Geometry, j: Job, off: nat) {
    && g.size(j.dst + off) > 0 && g.start(j.dst + off)
    && g.size(j.src + off) > 0 && g.start(j.src + off)
  }

  /** A copy that starts at `off` meets only blocks that the solver accepts and the
      erase loop guard lets through. */
  ghost predicate Runs(g: Geometry, align: nat, j: Job, off: nat)
    decreases j.length - off
  {
    off < j.length ==>
      && Aligned(g, j, off)
      && SectorCount(g, j.dst + off, j.dst + off + Block(g, align, j, off)) < MAX_ERASE_LOOPS
      && Runs(g, align, j, off + Block(g, align, j, off))
  }

  /** How many blocks it copies. */
  ghost function Rounds(g: Geometry, align: nat, j: Job, off: nat): nat
    decreases j.length - off
  {
    if off < j.length && Aligned(g, j, off) then 1 + Rounds(g, align, j, off + Block(g, align, j, off)) else 0
  }

  ghost predicate Finishes(g: Geometry, align: nat, j: Job, off: nat) {
    Runs(g, align, j, off) && Rounds(g, align, j, off) <= ONEWAY_MAX_LOOPS
  }

  lemma FinishesNext(g: Geometry, align: nat, j: Job, off: nat)
    requires off < j.length && Aligned(g, j, off)
    ensures var next := off + Block(g, align, j, off);
            && (Runs(g, align, j, off) ==> Runs(g, align, j, next))
            && Rounds(g, align, j, off) == 1 + Rounds(g, align, j, next)
  {
  }

  /** A padded tail that stays inside both regions. */
  ghost predicate TailFits(g: Geometry, align: nat, j: Job, off: nat) {
    off < j.length && Aligned(g, j, off) ==>
      off + PadUp(j.length - off, align) <= j.srcSize && off + PadUp(j.length - off, align) <= j.dstSize
  }

  /** Two disjoint regions, the target one of whole sectors. */
  ghost predicate JobOk(g: Geometry, align: nat, j: Job) {
    && Placed(g, j) && Tiling(g) && Boundary(g, j.dst + j.dstSize)
    && forall off: nat :: TailFits(g, align, j, off)
  }

  ghost predicate Placed(g: Geometry, j: Job) {
    && j.src + j.srcSize <= g.total && j.dst + j.dstSize <= g.total
    && (j.src + j.srcSize <= j.dst || j.dst + j.dstSize <= j.src)
    && j.length <= j.srcSize && j.length <= j.dstSize
  }

  /** Tails fit when sectors start, and regions end, at multiples of the alignment. */
  lemma MultiplesFit(g: Geometry, align: nat, j: Job, off: nat)
    requires off < j.length <= j.srcSize && j.length <= j.dstSize
    requires Al(j.srcSize - off, align) && Al(j.dstSize - off, align)
    ensures TailFits(g, align, j, off)
  {
    PadUpLeast(j.length - off, align);
  }

  /** The first `off` bytes of the target equal those of the source. */
  ghost predicate Copied(j: Job, m: Bytes, off: nat) {
    && j.src + j.srcSize <= |m| && j.dst + j.dstSize <= |m| && off <= j.srcSize && off <= j.dstSize
    && Slice(m, j.dst, off) == Slice(m, j.src, off)
  }

  /** Flash changed in the target region only. */
  ghost predicate OnlyTarget(j: Job, m0: Bytes, m: Bytes) {
    SameOutside(m0, m, j.dst, j.dst + j.dstSize)
  }

  /** A block that was copied extends the copy; one that was torn leaves it. */
  lemma CopyGrows(j: Job, m: Bytes, m': Bytes, off: nat, n: nat, hi: nat)
    requires Copied(j, m, off) && off + n <= j.srcSize && off + n <= j.dstSize
    requires j.src + j.srcSize <= j.dst || j.dst + j.dstSize <= j.src
    requires SameOutside(m, m', j.dst + off, hi) && hi <= j.dst + j.dstSize
    ensures OnlyTarget(j, m, m') && Copied(j, m', off)
    ensures Slice(m', j.dst + off, n) == Slice(m, j.src + off, n) ==> Copied(j, m', off + n)
  {
    SliceKept(m, m', j.dst + off, hi, j.dst, off);
    SliceKept(m, m', j.dst + off, hi, j.src, off + n);
    SliceKept(m, m', j.dst + off, hi, j.src, off);
    hide Slice;
    if Slice(m', j.dst + off, n) == Slice(m, j.src + off, n) {
      Joined(m', j.dst, off, n);
      Joined(m', j.src, off, n);
      Joined(m, j.src, off, n);
      assert Slice(m', j.src, off + n) == Slice(m, j.src, off + n);
    }
  }

  lemma CopiedLess(j: Job, m: Bytes, off: nat, less: nat)
    requires Copied(j, m, off) && less <= off
    ensures Copied(j, m, less)
  {
    Joined(m, j.src, less, off - less);
    Joined(m, j.dst, less, off - less);
  }

  lemma BlockPlace(g: Geometry, align: nat, j: Job, off: nat)
    requires JobOk(g, align, j) && off < j.length && Aligned(g, j, off)
    ensures var n := Block(g, align, j, off);
            && 0 < n && off + n <= j.srcSize && off + n <= j.dstSize
            && Erasable(g, j.dst + off, j.dst + off + n)
            && j.dst + off + n <= EraseEnd(g, j.dst + off, j.dst + off + n) <= j.dst + j.dstSize
  {
    assert TailFits(g, align, j, off);
    hide PadUp, TailFits;
    var n := Block(g, align, j, off);
    TiledErase(g, j.dst + off, j.dst + off + n, j.dst + j.dstSize);
  }

  /** What copy_region_resumable has logged: nothing, or the block at `at`. */
  ghost predicate LoggedAt(j: Job, log0: Txn, txn0: Txn, log: Txn, first: nat, at: nat) {
    (log == log0 && at == first) || (at < j.length && log == txn0.(chunk := at, phase := j.magic))
  }

  /** Erase and copy one block, inside a whitelist of just the target region. */
  method WriteBlock(p: Platform, align: nat, j: Job, off: nat, n: nat, arena: nat) returns (st: Status)
    requires p.Valid() && arena > 0 && JobOk(p.g, align, j) && off < j.length && Copied(j, p.mem, off)
    requires Aligned(p.g, j, off) && n == Block(p.g, align, j, off)
    modifies p`mem, p`cuts
    ensures p.Valid() && OnlyTarget(j, old(p.mem), p.mem) && Copied(j, p.mem, off)
    ensures SameOutside(old(p.mem), p.mem, j.dst + off, j.dst + j.dstSize)
    ensures st == Ok ==> Copied(j, p.mem, off + n)
    ensures st == Ok || st == PowerCut || (st == FlashHw && !Runs(p.g, align, j, off))
    ensures if st == PowerCut then p.cuts < old(p.cuts) else p.cuts == old(p.cuts)
  {
    BlockPlace(p.g, align, j, off);
    var src, dst := j.src + off, j.dst + off;
    hide Slice, Block, OnlyTarget, Copied, Tiling, TailFits;
    var wl := [Region(j.dst, j.dstSize)];
    assert Within(wl[0], dst, n);
    st := EraseAndCopy(p, src, dst, n, wl, arena);
    CopyGrows(j, old(p.mem), p.mem, off, n, EraseEnd(p.g, dst, dst + n));
  }

  /** A block that is a copy already. */
  ghost predicate SameBlock(p: Platform, j: Job, off: nat, n: nat)
    reads p`mem
  {
    && j.src + off + n <= |p.mem| && j.dst + off + n <= |p.mem|
    && Slice(p.mem, j.dst + off, n) == Slice(p.mem, j.src + off, n)
  }

  /** The identity check: checksums first, then the bytes. */
  method Identical(p: Platform, j: Job, off: nat, n: nat, arena: nat) returns (same: bool)
    requires p.Valid() && arena >= 512 && j.src + off + n <= p.g.total && j.dst + off + n <= p.g.total
    ensures same <==> SameBlock(p, j, off, n)
  {
    var src, dst := j.src + off, j.dst + off;
    if CrcOf(p.mem, src, n) != CrcOf(p.mem, dst, n) { return false; }
    same := BlocksIdentical(p, src, dst, n, arena, arena / 2 - arena / 2 % 8);
  }

  /** One round of copy_region_resumable.  `logged` says the block's checkpoint is the
      newest log entry. */
  method CopyBlock(p: Platform, align: nat, j: Job, txn0: Txn, off: nat, arena: nat)
    returns (st: Status, txn: Txn, next: nat, ghost logged: bool)
    requires p.Valid() && arena >= 512 && JobOk(p.g, align, j) && off < j.length && Copied(j, p.mem, off)
    modifies p
    ensures p.Valid() && OnlyTarget(j, old(p.mem), p.mem) && Copied(j, p.mem, off)
    ensures SameOutside(old(p.mem), p.mem, j.dst + off, j.dst + j.dstSize)
    ensures st == Ok ==> next == off + Block(p.g, align, j, off) > off && Aligned(p.g, j, off) && Copied(j, p.mem, next)
    ensures txn == txn0 || txn == txn0.(chunk := off, phase := j.magic)
    ensures if logged then p.log == txn0.(chunk := off, phase := j.magic) else p.log == old(p.log)
    ensures st == Ok || st == PowerCut || (st == FlashHw && !Runs(p.g, align, j, off))
    ensures Aligned(p.g, j, off) && old(SameBlock(p, j, off, Block(p.g, align, j, off))) ==>
              st == Ok && p.mem == old(p.mem) && p.log == old(p.log) && txn == txn0
    ensures if st == PowerCut then p.cuts < old(p.cuts) else p.cuts == old(p.cuts)
  {
    txn, next, logged := txn0, off, false;
    if !Aligned(p.g, j, off) { return FlashHw, txn, next, logged; }
    var n := Block(p.g, align, j, off);
    next := off + n;
    BlockPlace(p.g, align, j, off);
    var src, dst := j.src + off, j.dst + off;
    ghost var m := p.mem;
    hide Slice, JobOk, Block, OnlyTarget, Copied;
    var same := Identical(p, j, off, n, arena);
    if same {
      CopyGrows(j, m, m, off, n, dst);
      return Ok, txn, next, logged;
    }
    txn := txn.(chunk := off, phase := j.magic);
    st := p.Append(txn);
    logged := p.log == txn;
    if st != Ok { return; }
    st := WriteBlock(p, align, j, off, n, arena);
  }

  function ResumeAt(j: Job, txn: Txn): (off: nat)
    ensures off <= j.length
  {
    if txn.phase != j.magic then 0 else if txn.chunk > j.length then j.length else txn.chunk
  }

  /** copy_region_resumable.  `at` is where the next call would resume if this one
      logged a block, and where this one resumed if not. */
  method CopyRegion(p: Platform, align: nat, j: Job, txn0: Txn, arena: nat)
    returns (st: Status, txn: Txn, ghost at: nat)
    requires p.Valid() && arena >= 512 && JobOk(p.g, align, j) && Copied(j, p.mem, ResumeAt(j, txn0))
    modifies p
    ensures p.Valid() && OnlyTarget(j, old(p.mem), p.mem) && Copied(j, p.mem, at)
    ensures txn0.phase == j.magic && txn0.chunk <= j.length ==>
              SameOutside(old(p.mem), p.mem, j.dst + txn0.chunk, j.dst + j.dstSize)   // resumed where it was logged
    ensures LoggedAt(j, old(p.log), txn0, p.log, ResumeAt(j, txn0), at)
    ensures txn == txn0.(chunk := txn.chunk, phase := txn.phase)
    ensures st == Ok ==> Copied(j, p.mem, j.length) && Rounds(p.g, align, j, ResumeAt(j, txn0)) <= ONEWAY_MAX_LOOPS
    ensures Finishes(p.g, align, j, ResumeAt(j, txn0)) ==> Finishes(p.g, align, j, at)
    ensures st == Ok || st == PowerCut || (st == FlashHw && !Finishes(p.g, align, j, ResumeAt(j, txn0)))
    ensures if st == PowerCut then p.cuts < old(p.cuts) else p.cuts == old(p.cuts)
  {
    hide Copied, JobOk, Runs, Rounds, Block, Aligned;
    var off := ResumeAt(j, txn0);
    ghost var first := off;
    var guard := 0;
    txn, at := txn0, off;
    while off < j.length
      invariant p.Valid() && p.cuts == old(p.cuts) && OnlyTarget(j, old(p.mem), p.mem)
      invariant Copied(j, p.mem, at) && Copied(j, p.mem, off) && at <= off && first <= off
      invariant SameOutside(old(p.mem), p.mem, j.dst + first, j.dst + j.dstSize)
      invariant LoggedAt(j, old(p.log), txn0, p.log, first, at)
      invariant txn == txn0.(chunk := txn.chunk, phase := txn.phase)
      invariant guard <= ONEWAY_MAX_LOOPS && guard + Rounds(p.g, align, j, off) == Rounds(p.g, align, j, first)
      invariant Runs(p.g, align, j, first) ==> Runs(p.g, align, j, off) && Runs(p.g, align, j, at)
      invariant Rounds(p.g, align, j, at) <= Rounds(p.g, align, j, first)
      decreases j.length - off
    {
      guard := guard + 1;
      if guard > ONEWAY_MAX_LOOPS {
        if Runs(p.g, align, j, off) { RoundsPositive(p.g, align, j, off); }
        return FlashHw, txn, at;
      }
      ghost var logged, m, o := false, p.mem, off;
      st, txn, off, logged := CopyBlock(p, align, j, txn, off, arena);
      SameOutsideTrans(old(p.mem), m, p.mem, j.dst, j.dst + j.dstSize);
      SameOutsideTrans(old(p.mem), m, p.mem, j.dst + first, j.dst + j.dstSize);
      if logged { at := o; } else { CopiedStays(j, m, p.mem, o, at); }
      if st != Ok { return; }
      FinishesNext(p.g, align, j, o);
    }
    CopiedLess(j, p.mem, off, j.length);
    NoRounds(p.g, align, j, off);
    return Ok, txn, at;
  }

  lemma RoundsPositive(g: Geometry, align: nat, j: Job, off: nat)
    requires off < j.length && Runs(g, align, j, off)
    ensures Rounds(g, align, j, off) > 0
  {
  }

  lemma NoRounds(g: Geometry, align: nat, j: Job, off: nat)
    requires j.length <= off
    ensures Rounds(g, align, j, off) == 0
  {
  }

  lemma CopiedStays(j: Job, m: Bytes, m': Bytes, off: nat, at: nat)
    requires Copied(j, m', off) && at <= off
    ensures Copied(j, m', at)
  {
    CopiedLess(j, m', off, at);
  }

  // ---- The provider ----------------------------------------------------------------

  /** The fields of slot_txn_t this provider reads.  backup == 0 means no backup slot. */
  datatype Slots = Slots(src: nat, srcSize: nat, dest: nat, destSize: nat, backup: nat, backupSize: nat,
                         length: nat, verified: bool)

  function BackupJob(t: Slots): Job {
    Job(t.dest, t.destSize, t.backup, t.backupSize, t.length, OnewayBackup)
  }

  function DeployJob(t: Slots): Job {
    Job(t.src, t.srcSize, t.dest, t.destSize, t.length, OnewayDeploy)
  }

  function RevertJob(t: Slots): Job {
    Job(t.backup, t.backupSize, t.dest, t.destSize, t.length, OnewayRback)
  }

  /** The bounds proofs at the top of oneway_apply. */
  predicate InBounds(t: Slots) {
    && t.length <= t.destSize && t.length <= t.srcSize && (t.backup != 0 ==> t.length <= t.backupSize)
    && t.src + t.length <= U32_MAX && t.dest + t.length <= U32_MAX
    && (t.backup != 0 ==> t.backup + t.length <= U32_MAX)
  }

  /** What the provider is configured with: pairwise disjoint regions of whole sectors. */
  ghost predicate Configured(g: Geometry, align: nat, t: Slots) {
    && JobOk(g, align, DeployJob(t))
    && (t.backup != 0 ==>
          && JobOk(g, align, BackupJob(t)) && JobOk(g, align, RevertJob(t))
          && (t.src + t.srcSize <= t.backup || t.backup + t.backupSize <= t.src))
  }

  /** The images: of the destination before the update, and of the source. */
  datatype Images = Images(dest: Bytes, src: Bytes)

  ghost predicate Holds(m: Bytes, a: nat, image: Bytes) {
    a + |image| <= |m| && Slice(m, a, |image|) == image
  }

  /** Flash changed in the destination and the backup only. */
  ghost predicate OnlySlots(t: Slots, m0: Bytes, m1: Bytes) {
    && |m0| == |m1|
    && forall a :: 0 <= a < |m0| && !InSlot(t, a) ==> m1[a] == m0[a]
  }

  predicate InSlot(t: Slots, a: int) {
    t.dest <= a < t.dest + t.destSize || (t.backup != 0 && t.backup <= a < t.backup + t.backupSize)
  }

  lemma TargetInSlots(t: Slots, m0: Bytes, m1: Bytes)
    requires OnlyTarget(DeployJob(t), m0, m1) || (t.backup != 0 && OnlyTarget(BackupJob(t), m0, m1))
    ensures OnlySlots(t, m0, m1)
  {
  }

  lemma Untouched(t: Slots, m: Bytes)
    ensures OnlySlots(t, m, m)
  {
  }

  lemma OnlySlotsTrans(t: Slots, m0: Bytes, m1: Bytes, m2: Bytes)
    requires OnlySlots(t, m0, m1) && OnlySlots(t, m1, m2)
    ensures OnlySlots(t, m0, m2)
  {
  }

  /** What the newest log entry promises about flash. */
  ghost predicate Resumable(t: Slots, log: Txn, m: Bytes, im: Images) {
    && |im.dest| == |im.src| == t.length && Holds(m, t.src, im.src)
    && if log.phase == OnewayDeploy
       then (t.backup != 0 ==> Holds(m, t.backup, im.dest)) && Copied(DeployJob(t), m, ResumeAt(DeployJob(t), log))
       else t.backup != 0 ==> Holds(m, t.dest, im.dest) && Copied(BackupJob(t), m, ResumeAt(BackupJob(t), log))
  }

  /** The old image is in the destination, or all of it is in the backup. */
  ghost predicate OldImageKept(t: Slots, m: Bytes, im: Images) {
    t.backup != 0 ==> Holds(m, t.dest, im.dest) || Holds(m, t.backup, im.dest)
  }

  lemma NothingLost(t: Slots, log: Txn, m: Bytes, im: Images)
    requires Resumable(t, log, m, im)
    ensures OldImageKept(t, m, im)
  {
  }

  /** The new image is in place and the old one in the backup. */
  ghost predicate Deployed(t: Slots, m: Bytes, im: Images) {
    && |im.dest| == |im.src| == t.length && Holds(m, t.src, im.src)
    && Holds(m, t.dest, im.src) && (t.backup != 0 ==> Holds(m, t.backup, im.dest))
  }

  /** The log entry that closes a finished update. */
  ghost predicate Closed(t: Slots, log: Txn) {
    log.phase == NoPhase && log.chunk == t.length
  }

  /** No block is misplaced and no loop guard trips in what is left to do. */
  ghost predicate Unstuck(g: Geometry, align: nat, t: Slots, log: Txn) {
    && Clean(g, align, t)
    && Finishes(g, align, DeployJob(t), ResumeAt(DeployJob(t), log))
    && (t.backup != 0 ==> Finishes(g, align, BackupJob(t), ResumeAt(BackupJob(t), log)))
  }

  ghost predicate Clean(g: Geometry, align: nat, t: Slots) {
    && Finishes(g, align, DeployJob(t), 0)
    && (t.backup != 0 ==> Finishes(g, align, BackupJob(t), 0) && Finishes(g, align, RevertJob(t), 0))
  }

  /** A copy into one region leaves an image elsewhere alone. */
  lemma HoldsKept(j: Job, m: Bytes, m': Bytes, a: nat, image: Bytes)
    requires OnlyTarget(j, m, m') && Holds(m, a, image)
    requires a + |image| <= j.dst || j.dst + j.dstSize <= a
    ensures Holds(m', a, image)
  {
    SliceKept(m, m', j.dst, j.dst + j.dstSize, a, |image|);
  }

  lemma CopiedHolds(j: Job, m: Bytes, image: Bytes)
    requires Copied(j, m, j.length) && |image| == j.length && Holds(m, j.src, image)
    ensures Holds(m, j.dst, image)
  {
  }

  /** Where a run of oneway_apply stands when it returns. */
  ghost predicate Outcome(g: Geometry, align: nat, t: Slots, log: Txn, m: Bytes, im: Images, st: Status,
                          recorded: bool) {
    && (st == Ok ==> recorded) && (recorded ==> st == Ok || st == PowerCut)
    && if recorded then Closed(t, log) && Deployed(t, m, im) else Resumable(t, log, m, im)
  }

  /** Phase 1, up to the log entry that opens phase 2. */
  method BackupPhase(p: Platform, align: nat, t: Slots, txn0: Txn, arena: nat, ghost im: Images)
    returns (st: Status, txn: Txn)
    requires p.Valid() && arena >= 512 && t.backup != 0 && Configured(p.g, align, t)
    requires txn0 == p.log && txn0.phase != OnewayDeploy && Resumable(t, p.log, p.mem, im)
    modifies p
    ensures p.Valid() && Resumable(t, p.log, p.mem, im) && OnlyTarget(BackupJob(t), old(p.mem), p.mem)
    ensures st == Ok ==> txn == p.log && p.log.phase == OnewayDeploy
    ensures old(Unstuck(p.g, align, t, p.log)) ==> Unstuck(p.g, align, t, p.log) && st != FlashHw
    ensures st == Ok || st == PowerCut || st == FlashHw
    ensures if st == PowerCut then p.cuts < old(p.cuts) else p.cuts == old(p.cuts)
  {
    hide Tiling, TailFits, Boundary, Slice, Finishes;
    ghost var j, m, at := BackupJob(t), p.mem, 0;
    st, txn, at := CopyRegion(p, align, BackupJob(t), txn0, arena);
    HoldsKept(j, m, p.mem, t.src, im.src);
    HoldsKept(j, m, p.mem, t.dest, im.dest);
    if st != Ok { return; }
    CopiedHolds(j, p.mem, im.dest);
    txn := txn.(phase := OnewayDeploy, chunk := 0);
    st := p.Append(txn);
  }

  /** Phase 2 and the closing entry. */
  method DeployPhase(p: Platform, align: nat, t: Slots, txn0: Txn, arena: nat, ghost im: Images)
    returns (st: Status, ghost recorded: bool)
    requires p.Valid() && arena >= 512 && Configured(p.g, align, t)
    requires txn0 == p.log && (t.backup == 0 || p.log.phase == OnewayDeploy) && Resumable(t, p.log, p.mem, im)
    modifies p
    ensures p.Valid() && Outcome(p.g, align, t, p.log, p.mem, im, st, recorded)
    ensures OnlyTarget(DeployJob(t), old(p.mem), p.mem)
    ensures old(Unstuck(p.g, align, t, p.log)) ==> (recorded || Unstuck(p.g, align, t, p.log)) && st != FlashHw
    ensures st == Ok || st == PowerCut || st == FlashHw
    ensures if st == PowerCut then p.cuts < old(p.cuts) else p.cuts == old(p.cuts)
  {
    hide Tiling, TailFits, Boundary, Slice, Finishes;
    ghost var j, m, at := DeployJob(t), p.mem, 0;
    var txn;
    recorded := false;
    st, txn, at := CopyRegion(p, align, DeployJob(t), txn0, arena);
    HoldsKept(j, m, p.mem, t.src, im.src);
    if t.backup != 0 { HoldsKept(j, m, p.mem, t.backup, im.dest); }
    if st != Ok { return; }
    CopiedHolds(j, p.mem, im.src);
    ghost var before := p.log;
    txn := txn.(phase := NoPhase, chunk := t.length);
    st := p.Append(txn);
    recorded := st == Ok || (p.log == txn && p.log != before);
  }

  /** oneway_apply, re-entered with the newest log entry. */
  method Apply(p: Platform, align: nat, t: Slots, arena: nat, ghost im: Images)
    returns (st: Status, ghost recorded: bool)
    requires p.Valid() && (InBounds(t) ==> Configured(p.g, align, t) && Resumable(t, p.log, p.mem, im))
    modifies p
    ensures p.Valid() && OnlySlots(t, old(p.mem), p.mem)
    ensures arena < 512 || t.length == 0 || !InBounds(t) || !t.verified ==>
              p.mem == old(p.mem) && p.log == old(p.log) && p.cuts == old(p.cuts) && !recorded
    ensures arena < 512 ==> st == InvalidArg
    ensures arena >= 512 && t.length == 0 ==> st == Ok
    ensures arena >= 512 && t.length > 0 && !InBounds(t) ==> st == FlashBounds
    ensures arena >= 512 && t.length > 0 && InBounds(t) && !t.verified ==> st == VerifyFailed
    ensures arena >= 512 && t.length > 0 && InBounds(t) && t.verified ==>
              && Outcome(p.g, align, t, p.log, p.mem, im, st, recorded)
              && (old(Unstuck(p.g, align, t, p.log)) ==> (recorded || Unstuck(p.g, align, t, p.log)) && st != FlashHw)
              && (st == Ok || st == PowerCut || st == FlashHw)
    ensures if st == PowerCut then p.cuts < old(p.cuts) else p.cuts == old(p.cuts)
  {
    hide Configured, Resumable, Unstuck, Deployed, Closed, OnlyTarget, OnlySlots;
    recorded := false;
    Untouched(t, p.mem);
    if arena < 512 { return InvalidArg, recorded; }
    if t.length == 0 { return Ok, recorded; }
    if t.length > t.destSize || t.length > t.srcSize { return FlashBounds, recorded; }
    if t.backup != 0 && t.length > t.backupSize { return FlashBounds, recorded; }
    if U32_MAX < t.src + t.length || U32_MAX < t.dest + t.length { return FlashBounds, recorded; }
    if t.backup != 0 && U32_MAX < t.backup + t.length { return FlashBounds, recorded; }
    if !t.verified { return VerifyFailed, recorded; }
    var txn := p.log;
    if t.backup != 0 && txn.phase != OnewayDeploy {
      st, txn := BackupPhase(p, align, t, txn, arena, im);
      TargetInSlots(t, old(p.mem), p.mem);
      if st != Ok { return; }
    }
    ghost var m := p.mem;
    st, recorded := DeployPhase(p, align, t, txn, arena, im);
    TargetInSlots(t, m, p.mem);
    OnlySlotsTrans(t, old(p.mem), m, p.mem);
  }

  /** A call that starts from the closing entry backs up what is in the destination,
      which by now is the new image. */
  lemma Reopened(g: Geometry, t: Slots, log: Txn, m: Bytes, im: Images)
    requires Closed(t, log) && Deployed(t, m, im) && |m| == g.total
    requires t.backup != 0 ==> Placed(g, BackupJob(t))
    ensures Resumable(t, log, m, Images(im.src, im.src))
  {
  }

  /** The destination holds the new image and the backup what was in the destination. */
  ghost predicate Final(t: Slots, m: Bytes, im: Images, backedUp: Bytes) {
    Holds(m, t.dest, im.src) && (t.backup != 0 ==> Holds(m, t.backup, backedUp))
  }

  /** Call oneway_apply again after every power cut, each time with the newest log
      entry.  The new image is always deployed.  The backup ends up with the old image
      exactly when no cut hit between the closing entry and the return of a call;
      after such a cut the next call starts over and backs up the new image. */
  method RunToCompletion(p: Platform, align: nat, t: Slots, arena: nat, ghost im: Images)
    returns (st: Status, ghost reopened: bool)
    requires p.Valid() && arena >= 512 && t.length > 0 && t.verified && InBounds(t)
    requires Configured(p.g, align, t) && Clean(p.g, align, t)
    requires p.log.phase == NoPhase
    requires im == Images(Slice(p.mem, t.dest, t.length), Slice(p.mem, t.src, t.length))
    modifies p
    ensures p.Valid() && st == Ok && OnlySlots(t, old(p.mem), p.mem)
    ensures Final(t, p.mem, im, if reopened then im.src else im.dest) && (reopened ==> p.cuts < old(p.cuts))
  {
    hide Configured, JobOk, Finishes, Slice, OnlySlots;
    ghost var now, recorded := im, false;
    reopened := false;
    Untouched(t, p.mem);
    StartsResumable(p.g, align, t, p.log, p.mem, im);
    while true
      invariant p.Valid() && Resumable(t, p.log, p.mem, now) && Unstuck(p.g, align, t, p.log)
      invariant now == Images(if reopened then im.src else im.dest, im.src) && OnlySlots(t, old(p.mem), p.mem)
      invariant if reopened then p.cuts < old(p.cuts) else p.cuts <= old(p.cuts)
      decreases p.cuts
    {
      ghost var m := p.mem;
      st, recorded := Apply(p, align, t, arena, now);
      OnlySlotsTrans(t, old(p.mem), m, p.mem);
      if st == Ok { return; }
      if recorded {
        PlacedIn(p.g, align, t);
        Reopened(p.g, t, p.log, p.mem, now);
        now, reopened := Images(im.src, im.src), true;
      }
    }
  }

  lemma PlacedIn(g: Geometry, align: nat, t: Slots)
    requires Configured(g, align, t)
    ensures t.backup != 0 ==> Placed(g, BackupJob(t)) && Placed(g, RevertJob(t))
    ensures Placed(g, DeployJob(t))
  {
  }

  lemma StartsResumable(g: Geometry, align: nat, t: Slots, log: Txn, m: Bytes, im: Images)
    requires Configured(g, align, t) && Clean(g, align, t) && log.phase == NoPhase && |m| == g.total
    requires im == Images(Slice(m, t.dest, t.length), Slice(m, t.src, t.length))
    ensures Resumable(t, log, m, im) && Unstuck(g, align, t, log)
  {
  }

  /** oneway_rollback: always a fresh transaction, so every call copies from the start. */
  method Rollback(p: Platform, align: nat, t: Slots, arena: nat) returns (st: Status)
    requires p.Valid()
             && (t.backup != 0 && t.length <= t.destSize && t.length <= t.backupSize ==>
                JobOk(p.g, align, RevertJob(t)))
    modifies p
    ensures p.Valid() && OnlyTarget(RevertJob(t), old(p.mem), p.mem)
    ensures arena < 512 ==> st == InvalidArg
    ensures arena >= 512 && t.backup == 0 ==> st == NotFound
    ensures arena >= 512 && t.backup != 0 && (t.length > t.destSize || t.length > t.backupSize) ==> st == FlashBounds
    ensures arena >= 512 && t.backup != 0 && t.length <= t.destSize && t.length <= t.backupSize ==>
              && (st == Ok || st == PowerCut || (st == FlashHw && !Finishes(p.g, align, RevertJob(t), 0)))
              && (st == Ok ==>
                    && Copied(RevertJob(t), p.mem, t.length)
                    && p.log == Txn(RollbackPending, t.length, Cleared, Cleared, false, NoPhase, Cleared, Cleared))
    ensures if st == PowerCut then p.cuts < old(p.cuts) else p.cuts == old(p.cuts)
  {
    if arena < 512 { return InvalidArg; }
    if t.backup == 0 { return NotFound; }
    if t.length > t.destSize || t.length > t.backupSize { return FlashBounds; }
    hide Tiling, TailFits, Boundary, Finishes;
    var txn := Txn(RollbackPending, 0, Cleared, Cleared, false, NoPhase, Cleared, Cleared);
    ghost var at;
    st, txn, at := CopyRegion(p, align, RevertJob(t), txn, arena);
    if st != Ok { return; }
    st := p.Append(txn.(phase := NoPhase, chunk := t.length));
  }

  /** A rollback, called again after every cut, brings back whatever the backup holds:
      after an update without a reopening, the old image. */
  method RollBackToCompletion(p: Platform, align: nat, t: Slots, arena: nat, ghost backedUp: Bytes) returns (st: Status)
    requires p.Valid() && arena >= 512 && t.backup != 0 && InBounds(t)
    requires Configured(p.g, align, t) && Clean(p.g, align, t)
    requires |backedUp| == t.length && Holds(p.mem, t.backup, backedUp)
    modifies p
    ensures p.Valid() && st == Ok && Holds(p.mem, t.dest, backedUp) && Holds(p.mem, t.backup, backedUp)
    ensures OnlyTarget(RevertJob(t), old(p.mem), p.mem)
  {
    st := PowerCut;
    while st == PowerCut
      invariant p.Valid() && Holds(p.mem, t.backup, backedUp) && OnlyTarget(RevertJob(t), old(p.mem), p.mem)
      invariant st == PowerCut || (st == Ok && Copied(RevertJob(t), p.mem, t.length))
      decreases p.cuts, st == PowerCut
    {
      hide Tiling, TailFits, Boundary, Finishes, Slice;
      ghost var m := p.mem;
      st := Rollback(p, align, t, arena);
      HoldsKept(RevertJob(t), m, p.mem, t.backup, backedUp);
      SameOutsideTrans(old(p.mem), m, p.mem, t.dest, t.dest + t.destSize);
    }
    CopiedHolds(RevertJob(t), p.mem, backedUp);
  }
}
