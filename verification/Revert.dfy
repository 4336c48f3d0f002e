/** The rollback of the scratch exchange: the previous image is copied back from the
    staging slot, redo-safe (toobloader/core/boot_rollback.c). */
module Revert {
  import opened FlashModel
  import opened Wrappers
  import Journal
  import OneWay
  import SwapScratch

  const TOOB_MAGIC_HEADER: nat := 0x544F_4F42
  const U32_MAX: nat := 0xFFFF_FFFF

  /** Where the two slots are. */
  datatype Config = Config(app: nat, appSize: nat, staging: nat, stagingSize: nat, align: nat)

  /** The two fields of toob_image_header_t that are used. */
  datatype Header = Header(magic: nat, size: nat)

  function Word(m: Bytes, a: nat): (w: nat)
    requires a + 4 <= |m|
    ensures w <= U32_MAX
  {
    var b0: int, b1: int, b2: int, b3: int := m[a], m[a + 1], m[a + 2], m[a + 3];
    b0 + 0x100 * b1 + 0x1_0000 * b2 + 0x100_0000 * b3
  }

  function HeaderAt(m: Bytes, a: nat): (h: Header)
    requires a + 8 <= |m|
    ensures h.size <= U32_MAX
  {
    Header(Word(m, a), Word(m, a + 4))
  }

  /** The bytes of a word, low byte first. */
  function LowFirst(w: nat): (b: Bytes)
    ensures |b| == 4
  {
    [Low(w), Low(High(w)), Low(High(High(w))), Low(High(High(High(w))))]
  }

  function Low(w: nat): Byte {
    w % 0x100
  }

  function High(w: nat): nat {
    w / 0x100
  }

  lemma LowAndHigh(w: nat, hi: nat, lo: nat)
    ensures w == Low(w) + 0x100 * High(w) && High(w) <= w
    ensures lo < 0x100 && w == lo + 0x100 * hi ==> Low(w) == lo && High(w) == hi
  {
    if lo < 0x100 && w == lo + 0x100 * hi { DivModUnique(w, hi, lo, 0x100); }
  }

  lemma WordOf(w: nat)
    requires w <= U32_MAX
    ensures Word(LowFirst(w), 0) == w
  {
    var w1, w2 := High(w), High(High(w));
    LowAndHigh(w, 0, 0);
    LowAndHigh(w1, 0, 0);
    LowAndHigh(w2, 0, 0);
    LowAndHigh(High(w2), 0, High(w2));
    hide Low, High;
  }

  lemma BytesOf(m: Bytes, a: nat)
    requires a + 4 <= |m|
    ensures LowFirst(Word(m, a)) == m[a..a + 4]
  {
    var b0: nat, b1: nat, b2: nat, b3: nat := m[a], m[a + 1], m[a + 2], m[a + 3];
    var w2 := b2 + 0x100 * b3;
    var w1 := b1 + 0x100 * w2;
    LowAndHigh(Word(m, a), w1, b0);
    LowAndHigh(w1, w2, b1);
    LowAndHigh(w2, b3, b2);
    LowAndHigh(b3, 0, b3);
    hide Low, High;
  }

  predicate Genuine(h: Header) {
    h.magic == TOOB_MAGIC_HEADER && 0 < h.size < U32_MAX
  }

  /** In bytes: the magic word, then the length, which is neither 0 nor what erased flash
      reads as. */
  lemma GenuineExactly(m: Bytes, a: nat)
    requires a + 8 <= |m|
    ensures Genuine(HeaderAt(m, a)) <==>
              && m[a..a + 4] == [0x42, 0x4F, 0x4F, 0x54]
              && m[a + 4..a + 8] != [0, 0, 0, 0] && m[a + 4..a + 8] != [0xFF, 0xFF, 0xFF, 0xFF]
  {
    BytesOf(m, a);
    BytesOf(m, a + 4);
    WordOf(HeaderAt(m, a).magic);
    assert LowFirst(TOOB_MAGIC_HEADER) == [0x42, 0x4F, 0x4F, 0x54];
    assert LowFirst(0) == [0, 0, 0, 0] && LowFirst(U32_MAX) == [0xFF, 0xFF, 0xFF, 0xFF];
    WordOf(TOOB_MAGIC_HEADER);
    WordOf(HeaderAt(m, a).size);
  }

  predicate Fits(c: Config, h: Header) {
    h.size <= c.appSize && c.staging + h.size <= U32_MAX && c.app + h.size <= U32_MAX
  }

  /** The copy that the header asks for.  It logs no phase of its own. */
  function JobOf(c: Config, h: Header): OneWay.Job {
    OneWay.Job(c.staging, c.stagingSize, c.app, c.appSize, h.size, NoPhase)
  }

  /** What the revert is configured with: an accepted image lies in the staging slot,
      apart from an app slot of whole sectors. */
  ghost predicate Configured(g: Geometry, c: Config, m: Bytes) {
    && 8 <= c.stagingSize && c.staging + c.stagingSize <= g.total == |m|
    && (Genuine(HeaderAt(m, c.staging)) && Fits(c, HeaderAt(m, c.staging)) ==>
          OneWay.JobOk(g, c.align, JobOf(c, HeaderAt(m, c.staging))))
  }

  function MaxLoops(g: Geometry): nat {
    g.total / 64 + 100
  }

  /** A copy from `off` on that neither the block solver nor a loop guard stops. */
  ghost predicate Finishes(g: Geometry, c: Config, j: OneWay.Job, off: nat) {
    OneWay.Runs(g, c.align, j, off) && OneWay.Rounds(g, c.align, j, off) <= MaxLoops(g)
  }

  ghost predicate LeastSector(g: Geometry, a: nat) {
    g.start(a) ==> g.size(a) >= 64
  }

  /** The loop guard is generous: with sectors of at least 64 bytes it never trips. */
  lemma {:induction false} RoundsBounded(g: Geometry, align: nat, j: OneWay.Job, off: nat)
    requires forall a: nat :: LeastSector(g, a)
    ensures OneWay.Rounds(g, align, j, off) <= (if off < j.length then (j.length - off) / 64 + 1 else 0)
    decreases j.length - off
  {
    if off < j.length && OneWay.Aligned(g, j, off) {
      assert LeastSector(g, j.src + off);
      RoundsBounded(g, align, j, off + OneWay.Block(g, align, j, off));
    }
  }

  lemma GuardNeverTrips(g: Geometry, c: Config, j: OneWay.Job)
    requires forall a: nat :: LeastSector(g, a)
    requires j.length <= g.total && OneWay.Runs(g, c.align, j, 0)
    ensures Finishes(g, c, j, 0)
  {
    RoundsBounded(g, c.align, j, 0);
  }

  /** Where the copy loop ends. */
  ghost function Halt(g: Geometry, align: nat, j: OneWay.Job, off: nat): (end: nat)
    ensures end >= off
    decreases j.length - off
  {
    if off < j.length && OneWay.Aligned(g, j, off)
    then Halt(g, align, j, off + OneWay.Block(g, align, j, off)) else off
  }

  /** Every block of the image is in place, the padding of the last one included. */
  ghost predicate Whole(g: Geometry, align: nat, j: OneWay.Job, m: Bytes) {
    j.length <= Halt(g, align, j, 0) && OneWay.Copied(j, m, Halt(g, align, j, 0))
  }

  lemma WholeMeans(g: Geometry, align: nat, j: OneWay.Job, m: Bytes)
    requires Whole(g, align, j, m)
    ensures OneWay.Copied(j, m, j.length)
  {
    OneWay.CopiedLess(j, m, Halt(g, align, j, 0), j.length);
  }

  lemma HaltNext(g: Geometry, align: nat, j: OneWay.Job, off: nat)
    requires off < j.length && OneWay.Aligned(g, j, off)
    ensures var next := off + OneWay.Block(g, align, j, off);
            off < next <= Halt(g, align, j, next) == Halt(g, align, j, off)
  {
  }

  /** In a whole image the next block is a copy already. */
  lemma WholeBlock(g: Geometry, align: nat, j: OneWay.Job, m: Bytes, off: nat)
    requires Whole(g, align, j, m) && Halt(g, align, j, off) == Halt(g, align, j, 0)
    requires off < j.length && OneWay.Aligned(g, j, off)
    ensures OneWay.Copied(j, m, off + OneWay.Block(g, align, j, off))
  {
    HaltNext(g, align, j, off);
    OneWay.CopiedLess(j, m, Halt(g, align, j, 0), off + OneWay.Block(g, align, j, off));
  }

  // ---- The register ----------------------------------------------------------------------

  /** boot_failure_counter and app_slot_erase_counter among the fields of wal_tmr_payload_t;
      the factory register has zeros everywhere. */
  const BOOT_FAILURE_COUNTER: nat := 5
  const APP_SLOT_ERASE_COUNTER: nat := 7

  function Field(t: Journal.Tmr, i: nat): nat {
    if i < |t| then t[i] else 0
  }

  function Failures(t: Journal.Tmr): nat {
    Field(t, BOOT_FAILURE_COUNTER)
  }

  lemma FactoryCounters()
    ensures Failures(Journal.FACTORY_TMR) == 0 && Field(Journal.FACTORY_TMR, APP_SLOT_ERASE_COUNTER) == 0
  {
  }

  /** No field but the erase counter differs. */
  ghost predicate OnlyErases(t: Journal.Tmr, t': Journal.Tmr) {
    forall i: nat :: i != APP_SLOT_ERASE_COUNTER ==> Field(t', i) == Field(t, i)
  }

  function WithErases(t: Journal.Tmr, n: nat): (t': Journal.Tmr)
    ensures Field(t', APP_SLOT_ERASE_COUNTER) == (Field(t, APP_SLOT_ERASE_COUNTER) + n) % (U32_MAX + 1)
    ensures OnlyErases(t, t')
  {
    seq(if |t| <= APP_SLOT_ERASE_COUNTER then APP_SLOT_ERASE_COUNTER + 1 else |t|, i requires 0 <= i =>
      if i == APP_SLOT_ERASE_COUNTER then (Field(t, i) + n) % (U32_MAX + 1) else Field(t, i))
  }

  // ---- The log ---------------------------------------------------------------------------

  const TXN_COMMIT: nat := 3
  const TXN_ROLLBACK: nat := 6

  predicate IsCommit(main: Option<Journal.Entry>) {
    main.Some? && main.value.intent == Journal.Main(TXN_COMMIT)
  }

  function Checkpoint(chunk: nat): (e: Journal.Entry)
    ensures !e.intent.Main?
  {
    Journal.Entry(Journal.TxnRollbackPending, [chunk])
  }

  const CLOSING: Journal.Entry := Journal.Entry(Journal.Main(TXN_ROLLBACK), [])

  /** What n more slots of the log, and no rotation that recycles the open transaction,
      have room for: a rotation is safe up to four ids behind it (Journal.SurvivesExactly),
      and the fifth is the first that is not. */
  ghost predicate Room(S: Journal.Sectors, h: nat, cap: nat, open: Journal.Open, n: int) {
    && Journal.Has(S, h) && open.Logged?
    && h * cap + Journal.Fill(S, h) + n <= (open.q + Journal.WAL_PROTECT_WINDOW + 1) * cap
  }

  ghost predicate RoomFor(wal: Journal.Wal, n: int)
    reads wal
  {
    Room(wal.S, wal.h, wal.cap, wal.open, n)
  }

  /** The slots that a copy of `rounds` blocks may use up if it is cut `cuts` times. */
  ghost function Needed(rounds: nat, cuts: nat, cap: nat): nat {
    (cuts + 1) * (rounds + 1) + cuts * cap
  }

  lemma NeededAfterCut(rounds: nat, cuts: nat, cuts': nat, cap: nat)
    requires cuts' < cuts
    ensures Needed(rounds, cuts', cap) + rounds + 1 + cap <= Needed(rounds, cuts, cap)
  {
    MulMono(cuts' + 1, cuts, rounds + 1);
    MulMono(cuts' + 1, cuts, cap);
    assert (cuts + 1) * (rounds + 1) == cuts * (rounds + 1) + (rounds + 1);
    assert (cuts' + 1) * cap == cuts' * cap + cap;
  }

  lemma RoomMeans(wal: Journal.Wal, n: int)
    requires RoomFor(wal, n) && n >= 1
    ensures var q := wal.open.q + Journal.WAL_PROTECT_WINDOW;
            wal.h <= q && (wal.h == q ==> Journal.Fill(wal.S, wal.h) < wal.cap)
  {
    var q := wal.open.q + Journal.WAL_PROTECT_WINDOW;
    MulMono(q + 1, wal.h, wal.cap);
    assert (q + 1) * wal.cap == q * wal.cap + wal.cap;
  }

  /** If there was room, nothing was recycled, and this much room is left. */
  ghost predicate RoomLeft(room: bool, open: Journal.Open, wal: Journal.Wal, n: int)
    reads wal
  {
    room ==> wal.open == open && RoomFor(wal, n)
  }

  lemma RoomLess(room: bool, open: Journal.Open, wal: Journal.Wal, n: int, less: int)
    requires less <= n && RoomLeft(room, open, wal, n)
    ensures RoomLeft(room, open, wal, less)
  {
  }

  lemma RoomAfterCut(room: bool, open: Journal.Open, wal: Journal.Wal, blocks: nat, cuts: nat, cuts': nat)
    requires cuts' < cuts
    requires RoomLeft(room, open, wal, Needed(blocks, cuts, wal.cap) - (blocks + 1) - wal.cap)
    ensures RoomLeft(room, open, wal, Needed(blocks, cuts', wal.cap))
  {
    NeededAfterCut(blocks, cuts, cuts', wal.cap);
  }

  lemma NoRounds(g: Geometry, align: nat, j: OneWay.Job, off: nat)
    requires j.length <= off
    ensures OneWay.Rounds(g, align, j, off) == 0 && Halt(g, align, j, off) == off
  {
  }

  /** With that room the next boot finds the open transaction. */
  lemma StillFound(wal: Journal.Wal, blocks: nat, cuts: nat, cuts': nat)
    requires wal.Valid() && RoomFor(wal, Needed(blocks, cuts, wal.cap)) && cuts' <= cuts
    ensures RoomFor(wal, Needed(blocks, cuts', wal.cap)) && wal.open.Logged? && wal.h < wal.open.q + |wal.S|
  {
    if cuts' < cuts { NeededAfterCut(blocks, cuts, cuts', wal.cap); }
    NeededSome(blocks, cuts, wal.cap);
    RoomMeans(wal, Needed(blocks, cuts, wal.cap));
    wal.ValidSize();
  }

  lemma NeededSome(blocks: nat, cuts: nat, cap: nat)
    ensures Needed(blocks, cuts, cap) >= blocks + 1
  {
    MulMono(1, cuts + 1, blocks + 1);
  }

  /** What one block adds to physical_app_erases. */
  function ErasesOf(len: nat, sector: nat): (n: nat)
    requires sector > 0
    ensures n > 0 && if len < sector then n == 1 else n * sector <= len < n * sector + sector
  {
    if len / sector > 0 then len / sector else 1
  }

  /** What the blocks at these offsets add up to. */
  ghost function ErasesAt(g: Geometry, align: nat, j: OneWay.Job, offs: seq<nat>): nat {
    if offs == [] then 0
    else
      var off := offs[|offs|-1];
      ErasesAt(g, align, j, offs[..|offs|-1])
      + if off < j.length && OneWay.Aligned(g, j, off)
        then ErasesOf(OneWay.Block(g, align, j, off), g.size(j.dst + off)) else 0
  }

  lemma NothingRedone(g: Geometry, align: nat, j: OneWay.Job)
    ensures Wrap(ErasesAt(g, align, j, [])) == 0
  {
  }

  lemma OneMoreBlock(g: Geometry, align: nat, j: OneWay.Job, offs: seq<nat>, off: nat)
    requires off < j.length && OneWay.Aligned(g, j, off)
    ensures ErasesAt(g, align, j, offs + [off]) ==
              ErasesAt(g, align, j, offs) + ErasesOf(OneWay.Block(g, align, j, off), g.size(j.dst + off))
  {
    assert (offs + [off])[..|offs|] == offs;
  }

  /** 32-bit arithmetic. */
  function Wrap(n: nat): (w: nat)
    ensures w <= U32_MAX && n == n / (U32_MAX + 1) * (U32_MAX + 1) + w
  {
    n % (U32_MAX + 1)
  }

  ghost function Redone(redone: seq<nat>, off: nat, erases: nat): seq<nat> {
    if erases > 0 then redone + [off] else redone
  }

  lemma CountsOn(g: Geometry, align: nat, j: OneWay.Job, redone: seq<nat>, off: nat, erases: nat, more: nat)
    requires off < j.length && OneWay.Aligned(g, j, off)
    requires erases == Wrap(ErasesAt(g, align, j, redone))
    requires more == 0 || more == ErasesOf(OneWay.Block(g, align, j, off), g.size(j.dst + off))
    ensures Wrap(erases + more) == Wrap(ErasesAt(g, align, j, Redone(redone, off, more)))
    ensures if more == 0 then Redone(redone, off, more) == redone else Redone(redone, off, more) != []
  {
    hide ErasesOf, OneWay.Block, OneWay.Aligned, ErasesAt;
    OneMoreBlock(g, align, j, redone, off);
    AddMod(ErasesAt(g, align, j, redone), more);
  }

  lemma AddMod(a: nat, b: nat)
    ensures (a % (U32_MAX + 1) + b) % (U32_MAX + 1) == (a + b) % (U32_MAX + 1)
  {
    ModShift(a % (U32_MAX + 1) + b, a / (U32_MAX + 1), U32_MAX + 1);
  }

  /** The newest entry of the log is the checkpoint of this offset. */
  ghost predicate LastNotes(wal: Journal.Wal, chunk: nat)
    reads wal
  {
    && Journal.Has(wal.S, wal.h)
    && var es := Journal.EntriesAt(wal.S, wal.h);
       es != [] && es[|es|-1] == Journal.Entry(Journal.TxnRollbackPending, [chunk])
  }

  /** The open transaction is as it was, or has been recycled. */
  predicate Passes(o: Journal.Open, o': Journal.Open) {
    o' == o || (o.Logged? && o' == Journal.Lost(o.entry, o.q))
  }

  class Device {
    const p: Platform
    const wal: Journal.Wal

    constructor (p: Platform, wal: Journal.Wal)
      ensures this.p == p && this.wal == wal
    {
      this.p, this.wal := p, wal;
    }

    ghost function Cuts(): nat
      reads p, wal
    {
      p.cuts + wal.cuts
    }

    /** A side-band entry. */
    method Note(chunk: nat, ghost n: int) returns (st: Status)
      requires wal.Valid()
      modifies wal
      ensures wal.Sound() && wal.reg == old(wal.reg) && Passes(old(wal.open), wal.open)
      ensures st == Ok || st == PowerCut || (st == CounterExhausted && wal.maxErase > 0)
      ensures st != PowerCut ==> wal.Valid() && wal.cuts == old(wal.cuts)
      ensures st == PowerCut ==> wal.cuts < old(wal.cuts)
      ensures st == Ok ==> LastNotes(wal, chunk)
      ensures st == Ok ==> RoomLeft(old(RoomFor(wal, n)) && n >= 1, old(wal.open), wal, n - 1)
      ensures st == PowerCut ==> RoomLeft(old(RoomFor(wal, n)) && n >= 1, old(wal.open), wal, n - wal.cap)
    {
      if RoomFor(wal, n) && n >= 1 { RoomMeans(wal, n); }
      hide Journal.Fill;
      ghost var took;
      st, took := wal.Append(Checkpoint(chunk));
    }

    /** The identity check: the block is a copy already. */
    method Identical(c: Config, j: OneWay.Job, off: nat, len: nat, arena: nat) returns (same: bool)
      requires p.Valid() && arena >= 512 && OneWay.JobOk(p.g, c.align, j) && off < j.length
      requires OneWay.Aligned(p.g, j, off) && len == OneWay.Block(p.g, c.align, j, off) && OneWay.Copied(j, p.mem, off)
      ensures same <==> OneWay.Copied(j, p.mem, off + len)
      ensures len > 0
    {
      OneWay.BlockPlace(p.g, c.align, j, off);
      ghost var m := p.mem;
      if OneWay.Copied(j, m, off + len) { SameBlock(j, m, off, len); }
      OneWay.CopyGrows(j, m, m, off, len, j.dst + off);
      hide Slice, OneWay.JobOk, OneWay.Block, OneWay.Copied;
      same := OneWay.Identical(p, j, off, len, arena);
    }

    /** The side-band checkpoint of a block, and then its erase and copy. */
    method LogAndWrite(c: Config, j: OneWay.Job, off: nat, len: nat, arena: nat, ghost n: int) returns (st: Status)
      requires p.Valid() && wal.Valid() && arena >= 512 && OneWay.JobOk(p.g, c.align, j) && off < j.length
      requires OneWay.Aligned(p.g, j, off) && len == OneWay.Block(p.g, c.align, j, off) && OneWay.Copied(j, p.mem, off)
      modifies p`mem, p`cuts, wal
      ensures p.Valid() && wal.Sound() && Passes(old(wal.open), wal.open) && wal.reg == old(wal.reg)
      ensures OneWay.OnlyTarget(j, old(p.mem), p.mem) && OneWay.Copied(j, p.mem, off)
      ensures st == Ok ==> wal.Valid() && OneWay.Copied(j, p.mem, off + len) && LastNotes(wal, off)
      ensures st == Ok || st == PowerCut || (st == CounterExhausted && wal.maxErase > 0)
              || (st == FlashHw && !OneWay.Runs(p.g, c.align, j, off))
      ensures if st == PowerCut then Cuts() < old(Cuts()) else Cuts() == old(Cuts())
      ensures st == Ok ==> RoomLeft(old(RoomFor(wal, n)) && n >= 1, old(wal.open), wal, n - 1)
      ensures st == PowerCut ==> RoomLeft(old(RoomFor(wal, n)) && n >= 1, old(wal.open), wal, n - 1 - wal.cap)
    {
      hide OneWay.JobOk, OneWay.Block, OneWay.OnlyTarget, OneWay.Copied, OneWay.Runs, OneWay.Aligned, Room;
      hide Journal.Stable, LastNotes;
      Untouched(j, p.mem);
      ghost var room, open := RoomFor(wal, n) && n >= 1, wal.open;
      st := Note(off, n);
      if st == PowerCut { RoomLess(room, open, wal, n - wal.cap, n - 1 - wal.cap); }
      if st != Ok { return; }
      st := OneWay.WriteBlock(p, c.align, j, off, len, arena);
      if st == PowerCut { RoomLess(room, open, wal, n - 1, n - 1 - wal.cap); }
    }

    /** One block of the copy loop: solver, identity skip, side-band checkpoint, copy.
        `erases` is what the block adds to physical_app_erases; in an image that is `whole`
        it is nothing, and the block is not touched. */
    method BackBlock(c: Config, j: OneWay.Job, off: nat, arena: nat, ghost whole: bool, ghost n: int)
      returns (st: Status, next: nat, erases: nat)
      requires p.Valid() && wal.Valid() && arena >= 512 && OneWay.JobOk(p.g, c.align, j)
      requires off < j.length && OneWay.Copied(j, p.mem, off)
      requires whole && OneWay.Aligned(p.g, j, off) ==>
                 OneWay.Copied(j, p.mem, off + OneWay.Block(p.g, c.align, j, off))
      modifies p`mem, p`cuts, wal
      ensures p.Valid() && wal.Sound() && Passes(old(wal.open), wal.open) && wal.reg == old(wal.reg)
      ensures OneWay.OnlyTarget(j, old(p.mem), p.mem) && OneWay.Copied(j, p.mem, off)
      ensures st == Ok ==> wal.Valid() && next == off + OneWay.Block(p.g, c.align, j, off) > off
      ensures st == Ok ==> OneWay.Copied(j, p.mem, next) && (erases == 0 ==> p.mem == old(p.mem))
      ensures st == Ok && OneWay.Aligned(p.g, j, off) ==>
                var len := OneWay.Block(p.g, c.align, j, off);
                erases == (if old(OneWay.Copied(j, p.mem, off + len)) then 0 else ErasesOf(len, p.g.size(j.dst + off)))
                && (erases > 0 ==> LastNotes(wal, off))
      ensures st == Ok || st == PowerCut ==> OneWay.Aligned(p.g, j, off)
      ensures st == Ok || st == PowerCut || (st == CounterExhausted && wal.maxErase > 0)
              || (st == FlashHw && !OneWay.Runs(p.g, c.align, j, off))
      ensures whole ==> p.mem == old(p.mem) && erases == 0
      ensures if st == PowerCut then Cuts() < old(Cuts()) else Cuts() == old(Cuts())
      ensures st == Ok ==> RoomLeft(old(RoomFor(wal, n)) && n >= 1, old(wal.open), wal, n - 1)
      ensures st == PowerCut ==> RoomLeft(old(RoomFor(wal, n)) && n >= 1, old(wal.open), wal, n - 1 - wal.cap)
    {
      hide OneWay.JobOk, OneWay.Block, OneWay.OnlyTarget, OneWay.Copied, Journal.Stable, Room, ErasesOf;
      hide PadUp, OneWay.Runs, Journal.EntriesAt, Journal.Entries, Journal.IsAt, Journal.Register, LastNotes;
      next, erases := off, 0;
      Untouched(j, p.mem);
      RunsAligned(p.g, c.align, j, off);
      if !OneWay.Aligned(p.g, j, off) { return FlashHw, next, erases; }
      var len := OneWay.Block(p.g, c.align, j, off);
      next := off + len;
      var same := Identical(c, j, off, len, arena);
      if same {
        RoomLess(RoomFor(wal, n) && n >= 1, wal.open, wal, n, n - 1);
        return Ok, next, erases;
      }
      st := LogAndWrite(c, j, off, len, arena, n);
      if st != Ok { return; }
      erases := ErasesOf(len, p.g.size(j.dst + off));
    }

    /** The copy loop of boot_rollback_trigger_revert.  An image that is whole already is
        not touched. */
    method CopyBack(c: Config, j: OneWay.Job, arena: nat, ghost n: int)
      returns (st: Status, erases: nat, ghost redone: seq<nat>)
      requires p.Valid() && wal.Valid() && arena >= 512 && OneWay.JobOk(p.g, c.align, j) && OneWay.Copied(j, p.mem, 0)
      modifies p`mem, p`cuts, wal
      ensures p.Valid() && wal.Sound() && Passes(old(wal.open), wal.open) && wal.reg == old(wal.reg)
      ensures OneWay.OnlyTarget(j, old(p.mem), p.mem)
      ensures st == Ok ==> wal.Valid() && Whole(p.g, c.align, j, p.mem)
      ensures st == Ok ==> OneWay.Rounds(p.g, c.align, j, 0) <= MaxLoops(p.g)
      ensures st == Ok ==> erases == Wrap(ErasesAt(p.g, c.align, j, redone))
      ensures redone == [] ==> st != Ok || p.mem == old(p.mem)
      ensures old(Whole(p.g, c.align, j, p.mem)) ==> p.mem == old(p.mem) && erases == 0 && redone == []
      ensures st == Ok || st == PowerCut || (st == CounterExhausted && wal.maxErase > 0)
              || (st == FlashHw && !Finishes(p.g, c, j, 0))
      ensures if st == PowerCut then Cuts() < old(Cuts()) else Cuts() == old(Cuts())
      ensures var rounds := OneWay.Rounds(p.g, c.align, j, 0);
              st == PowerCut ==>
                RoomLeft(old(RoomFor(wal, n)) && n >= rounds, old(wal.open), wal, n - rounds - wal.cap)
    {
      hide OneWay.Copied, OneWay.JobOk, OneWay.Runs, OneWay.Rounds, OneWay.Block, OneWay.Aligned, Room, Halt, Whole;
      hide OneWay.OnlyTarget, RoomFor, ErasesAt, ErasesOf, LastNotes, Redone, Wrap;
      hide Journal.Stable, Journal.EntriesAt, Journal.Entries, Journal.IsAt;
      Untouched(j, p.mem);
      var off, guard := 0, 0;
      erases, redone := 0, [];
      NothingRedone(p.g, c.align, j);
      ghost var rounds := OneWay.Rounds(p.g, c.align, j, 0);
      ghost var left, room, open := n, RoomFor(wal, n) && n >= OneWay.Rounds(p.g, c.align, j, 0), wal.open;
      ghost var whole := Whole(p.g, c.align, j, p.mem);
      while off < j.length
        invariant p.Valid() && wal.Valid() && Cuts() == old(Cuts()) && Passes(old(wal.open), wal.open)
        invariant OneWay.OnlyTarget(j, old(p.mem), p.mem) && OneWay.Copied(j, p.mem, off) && wal.reg == old(wal.reg)
        invariant guard + OneWay.Rounds(p.g, c.align, j, off) == rounds && guard <= MaxLoops(p.g)
        invariant erases == Wrap(ErasesAt(p.g, c.align, j, redone))
        invariant redone == [] ==> p.mem == old(p.mem)
        invariant OneWay.Runs(p.g, c.align, j, 0) ==> OneWay.Runs(p.g, c.align, j, off)
        invariant Halt(p.g, c.align, j, off) == Halt(p.g, c.align, j, 0)
        invariant whole ==> p.mem == old(p.mem) && erases == 0 && redone == []
        invariant left == n - guard && RoomLeft(room, open, wal, left)
        decreases j.length - off
      {
        guard := guard + 1;
        if guard > p.g.total / 64 + 100 {
          if OneWay.Runs(p.g, c.align, j, off) { OneWay.RoundsPositive(p.g, c.align, j, off); }
          return FlashHw, erases, redone;
        }
        ghost var m, o := p.mem, off;
        if OneWay.Aligned(p.g, j, o) {
          OneWay.FinishesNext(p.g, c.align, j, o);
          if whole { WholeBlock(p.g, c.align, j, m, o); }
          assert room ==> RoomFor(wal, left) && left >= 1 && wal.open == open;
        }
        var more;
        st, off, more := BackBlock(c, j, off, arena, whole, left);
        ghost var before := erases;
        erases := Wrap(erases + more);
        TargetTrans(j, old(p.mem), m, p.mem);
        left := left - 1;
        if st == PowerCut { RoomLess(room, open, wal, left - wal.cap, n - rounds - wal.cap); }
        if st != Ok { return; }
        CountsOn(p.g, c.align, j, redone, o, before, more);
        redone := Redone(redone, o, more);
        HaltNext(p.g, c.align, j, o);
      }
      NoRounds(p.g, c.align, j, off);
      IsWhole(p.g, c.align, j, off, p.mem);
      return Ok, erases, redone;
    }

    /** The gates of boot_rollback_trigger_revert. */
    method Gate(c: Config, arena: nat) returns (st: Status, h: Header)
      requires p.Valid() && Configured(p.g, c, p.mem)
      ensures h == HeaderAt(p.mem, c.staging)
      ensures arena < 512 ==> st == InvalidArg
      ensures arena >= 512 && !Genuine(h) ==> st == NotFound
      ensures arena >= 512 && Genuine(h) && !Fits(c, h) ==> st == FlashBounds
      ensures arena >= 512 && Genuine(h) && Fits(c, h) ==> st == Ok && OneWay.JobOk(p.g, c.align, JobOf(c, h))
    {
      h := HeaderAt(p.mem, c.staging);
      if arena < 512 { return InvalidArg, h; }
      if !Genuine(h) { return NotFound, h; }
      if h.size > c.appSize { return FlashBounds, h; }
      if U32_MAX < c.staging + h.size || U32_MAX < c.app + h.size { return FlashBounds, h; }
      return Ok, h;
    }

    /** boot_rollback_trigger_revert.  The closing entry is a main one; `closed` says that
        it reached the log. */
    method TriggerRevert(c: Config, arena: nat, ghost n: int) returns (st: Status, ghost closed: bool)
      requires p.Valid() && wal.Valid() && Configured(p.g, c, p.mem)
      modifies p`mem, p`cuts, wal
      ensures p.Valid() && wal.Sound() && SameOutside(old(p.mem), p.mem, c.app, c.app + c.appSize)
      ensures arena < 512 ==> st == InvalidArg
      ensures arena >= 512 && old(!Genuine(HeaderAt(p.mem, c.staging))) ==> st == NotFound
      ensures arena >= 512 && old(Genuine(HeaderAt(p.mem, c.staging)) && !Fits(c, HeaderAt(p.mem, c.staging))) ==>
                st == FlashBounds
      ensures st == InvalidArg || st == NotFound || st == FlashBounds ==>
                p.mem == old(p.mem) && wal.S == old(wal.S) && wal.open == old(wal.open) && !closed
      ensures (st == Ok ==> closed) && (closed ==> st == Ok || st == PowerCut)
      ensures if closed then wal.open == Journal.Logged(CLOSING, wal.h) else Passes(old(wal.open), wal.open)
      ensures OnlyErases(old(wal.reg), wal.reg) && Failures(wal.reg) == old(Failures(wal.reg))
      ensures var h := old(HeaderAt(p.mem, c.staging));
              var j := JobOf(c, h);
              arena >= 512 && Genuine(h) && Fits(c, h) ==>
                && (st == Ok || st == PowerCut || (st == CounterExhausted && wal.maxErase > 0)
                    || (st == FlashHw && !Finishes(p.g, c, j, 0)))
                && (closed || old(Whole(p.g, c.align, j, p.mem)) ==> Whole(p.g, c.align, j, p.mem))
      ensures var j := JobOf(c, old(HeaderAt(p.mem, c.staging)));
              var slots := OneWay.Rounds(p.g, c.align, j, 0) + 1;
              st == PowerCut && !Whole(p.g, c.align, j, p.mem) ==>
                RoomLeft(old(RoomFor(wal, n)) && n >= slots, old(wal.open), wal, n - slots - wal.cap)
      ensures if st == PowerCut then Cuts() < old(Cuts()) else Cuts() == old(Cuts())
    {
      hide OneWay.JobOk, OneWay.Rounds, OneWay.Copied, RoomFor, RoomLeft, Finishes, HeaderAt, Genuine, Fits, Whole;
      closed := false;
      var h;
      st, h := Gate(c, arena);
      if st != Ok { return; }
      ghost var redone;
      st, closed, redone := CopyAndClose(c, h, arena, n);
    }

    /** The resume logic: a pending rollback would be resumed, but the reconstruction never
        returns one, so a new one is logged. */
    method Begin(ghost n: int) returns (st: Status)
      requires wal.Valid()
      modifies wal
      ensures wal.Sound() && Passes(old(wal.open), wal.open) && wal.reg == old(wal.reg)
      ensures st == Ok || st == PowerCut || (st == CounterExhausted && wal.maxErase > 0)
      ensures st != PowerCut ==> wal.Valid() && wal.cuts == old(wal.cuts)
      ensures st == PowerCut ==> wal.cuts < old(wal.cuts)
      ensures st == Ok ==> LastNotes(wal, 0)
      ensures st == Ok ==> RoomLeft(old(RoomFor(wal, n)) && n >= 1, old(wal.open), wal, n - 1)
      ensures st == PowerCut ==> RoomLeft(old(RoomFor(wal, n)) && n >= 1, old(wal.open), wal, n - wal.cap)
    {
      hide Journal.Newest, RoomFor, RoomLeft, LastNotes;
      var main, accum, resume := wal.Reconstruct();
      if main.Some? && main.value.intent == Journal.TxnRollbackPending {
        assert false;   // a side-band entry
      }
      st := Note(0, n);
    }

    /** Open the rollback, and copy. */
    method CopyLogged(c: Config, j: OneWay.Job, arena: nat, ghost n: int)
      returns (st: Status, erases: nat, ghost redone: seq<nat>)
      requires p.Valid() && wal.Valid() && arena >= 512 && OneWay.JobOk(p.g, c.align, j) && OneWay.Copied(j, p.mem, 0)
      modifies p`mem, p`cuts, wal
      ensures p.Valid() && wal.Sound() && Passes(old(wal.open), wal.open) && wal.reg == old(wal.reg)
      ensures OneWay.OnlyTarget(j, old(p.mem), p.mem)
      ensures st == Ok ==> wal.Valid() && Whole(p.g, c.align, j, p.mem)
      ensures st == Ok ==> erases == Wrap(ErasesAt(p.g, c.align, j, redone))
      ensures old(Whole(p.g, c.align, j, p.mem)) ==> p.mem == old(p.mem) && erases == 0
      ensures st == Ok || st == PowerCut || (st == CounterExhausted && wal.maxErase > 0)
              || (st == FlashHw && !Finishes(p.g, c, j, 0))
      ensures if st == PowerCut then Cuts() < old(Cuts()) else Cuts() == old(Cuts())
      ensures var slots := OneWay.Rounds(p.g, c.align, j, 0) + 1;
              st == PowerCut ==>
                RoomLeft(old(RoomFor(wal, n)) && n >= slots, old(wal.open), wal, n - slots - wal.cap)
    {
      hide OneWay.JobOk, OneWay.Rounds, OneWay.Copied, RoomFor, Finishes, Slice, OneWay.OnlyTarget, Whole;
      hide ErasesAt, LastNotes;
      ghost var rounds, open := OneWay.Rounds(p.g, c.align, j, 0), wal.open;
      ghost var room := RoomFor(wal, n) && n >= rounds + 1;
      Untouched(j, p.mem);
      erases, redone := 0, [];
      st := Begin(n);
      if st == PowerCut { RoomLess(room, open, wal, n - wal.cap, n - 1 - rounds - wal.cap); }
      if st != Ok { return; }
      st, erases, redone := CopyBack(c, j, arena, n - 1);
    }

    /** The erase counter of the app slot goes into the register, if anything was erased.
        The code ignores whether that succeeds; `cut` says that the power went. */
    method Account(erases: nat) returns (cut: bool)
      requires wal.Valid()
      modifies wal
      ensures wal.Sound() && Failures(wal.reg) == old(Failures(wal.reg))
      ensures Journal.Fades(old(wal.open), wal.open, old(wal.h) + 2) && old(wal.h) <= wal.h <= old(wal.h) + 3
      ensures erases == 0 ==> !cut && wal.S == old(wal.S) && wal.h == old(wal.h) && wal.open == old(wal.open)
      ensures wal.reg == old(wal.reg) || wal.reg == WithErases(old(wal.reg), erases)
      ensures !cut ==> wal.Valid() && (wal.reg == WithErases(old(wal.reg), erases) || erases == 0 || wal.maxErase > 0)
      ensures if cut then wal.cuts < old(wal.cuts) else wal.cuts == old(wal.cuts)
    {
      cut := false;
      if erases > 0 {
        var st := wal.UpdateTmr(WithErases(wal.tmr, erases));
        cut := st == PowerCut;
      }
    }

    /** Past the gates: open the rollback, copy, count the erases, close. */
    method CopyAndClose(c: Config, h: Header, arena: nat, ghost n: int)
      returns (st: Status, ghost closed: bool, ghost redone: seq<nat>)
      requires p.Valid() && wal.Valid() && arena >= 512 && OneWay.JobOk(p.g, c.align, JobOf(c, h))
      modifies p`mem, p`cuts, wal
      ensures p.Valid() && wal.Sound() && OneWay.OnlyTarget(JobOf(c, h), old(p.mem), p.mem)
      ensures st == Ok || st == PowerCut || (st == CounterExhausted && wal.maxErase > 0)
              || (st == FlashHw && !Finishes(p.g, c, JobOf(c, h), 0))
      ensures (st == Ok ==> closed) && (closed ==> st == Ok || st == PowerCut)
      ensures var j := JobOf(c, h);
              closed || old(Whole(p.g, c.align, j, p.mem)) ==> Whole(p.g, c.align, j, p.mem)
      ensures if closed then wal.open == Journal.Logged(CLOSING, wal.h) else Passes(old(wal.open), wal.open)
      ensures OnlyErases(old(wal.reg), wal.reg) && Failures(wal.reg) == old(Failures(wal.reg))
      ensures st == Ok && wal.maxErase == 0 ==>
                var erases := Wrap(ErasesAt(p.g, c.align, JobOf(c, h), redone));
                wal.reg == if erases == 0 then old(wal.reg) else WithErases(old(wal.reg), erases)
      ensures var j := JobOf(c, h);
              var slots := OneWay.Rounds(p.g, c.align, j, 0) + 1;
              st == PowerCut && !Whole(p.g, c.align, j, p.mem) ==>
                RoomLeft(old(RoomFor(wal, n)) && n >= slots, old(wal.open), wal, n - slots - wal.cap)
      ensures if st == PowerCut then Cuts() < old(Cuts()) else Cuts() == old(Cuts())
    {
      hide OneWay.JobOk, OneWay.Rounds, OneWay.Copied, RoomFor, Finishes, Slice, OneWay.OnlyTarget, Whole;
      closed, redone := false, [];
      NothingCopied(p.g, c, h, p.mem);
      var erases, cut;
      st, erases, redone := CopyLogged(c, JobOf(c, h), arena, n);
      if st != Ok { return; }
      cut := Account(erases);
      if cut { return PowerCut, closed, redone; }
      st, closed := Close();
    }

    /** The closing entry. */
    method Close() returns (st: Status, ghost took: bool)
      requires wal.Valid()
      modifies wal
      ensures wal.Sound() && wal.reg == old(wal.reg)
      ensures if took then wal.open == Journal.Logged(CLOSING, wal.h) else Passes(old(wal.open), wal.open)
      ensures st == Ok || st == PowerCut || (st == CounterExhausted && wal.maxErase > 0)
      ensures (st == Ok ==> took) && (took ==> st == Ok || st == PowerCut)
      ensures if st == PowerCut then wal.cuts < old(wal.cuts) else wal.cuts == old(wal.cuts)
    {
      hide Journal.Fill;
      st, took := wal.Append(CLOSING);
    }

    /** The commit is no longer what the reconstruction finds. */
    ghost predicate Forgotten()
      reads wal
    {
      wal.open.Lost? || (wal.open.Logged? && wal.open.q + |wal.S| <= wal.h)
    }

    /** A boot, and the open transaction that it finds. */
    method Boot() returns (main: Option<Journal.Entry>)
      requires wal.Sound()
      modifies wal
      ensures wal.Valid() && wal.S == old(wal.S) && wal.h == old(wal.h) && wal.open == old(wal.open)
      ensures wal.reg == old(wal.reg) && wal.cuts <= old(wal.cuts) && |wal.S| > 0
      ensures wal.open.Logged? && wal.h < wal.open.q + |wal.S| ==> main == Some(wal.open.entry)
    {
      wal.Boot();
      wal.ValidSize();
      hide Journal.Newest;
      var accum, resume;
      main, accum, resume := wal.Reconstruct();
    }

    /** Boot after boot, with a crash on record, as long as the commit of the update is what
        the reconstruction finds: every cut restarts the copy.  `closed` says that the
        closing entry was logged; then the app slot holds the image that staging holds.  A
        revert that does not close ends at the wear limit of the log, or with the commit
        forgotten.  As long as the log has room for the checkpoints of all the runs, the
        latter happens only when the app slot already holds the whole image: what can still
        recycle the commit then is the count of the erases. */
    method RevertToCompletion(c: Config, arena: nat) returns (st: Status, ghost closed: bool)
      requires p.Valid() && wal.Sound() && Configured(p.g, c, p.mem) && arena >= 512 && Failures(wal.reg) > 0
      requires wal.open.Logged? && wal.open.entry.intent == Journal.Main(TXN_COMMIT)
      requires var h := HeaderAt(p.mem, c.staging); Genuine(h) && Fits(c, h) && Finishes(p.g, c, JobOf(c, h), 0)
      modifies p`mem, p`cuts, wal
      ensures p.Valid() && wal.Sound() && SameOutside(old(p.mem), p.mem, c.app, c.app + c.appSize)
      ensures st == Ok || st == NotFound || (st == CounterExhausted && wal.maxErase > 0)
      ensures st == Ok ==> closed
      ensures !closed && st == NotFound ==> Forgotten()
      ensures closed
              || (st != CounterExhausted && old(RoomFor(wal, Needed(Blocks(p.g, c, p.mem), Cuts(), wal.cap)))) ==>
                Restored(c, old(p.mem), p.mem)
      ensures old(RoomFor(wal, Needed(Blocks(p.g, c, p.mem), 0, wal.cap)) && Cuts() == 0) ==>
                closed || st == CounterExhausted
    {
      hide OneWay.JobOk, Finishes, Room, Needed, HeaderAt, OneWay.Copied, Slice, Genuine, Fits, Whole, Restored;
      ghost var h := HeaderAt(p.mem, c.staging);
      ghost var m0, blocks, open := p.mem, Blocks(p.g, c, p.mem), wal.open;
      ghost var room := RoomFor(wal, Needed(blocks, Cuts(), wal.cap));
      closed := false;
      while true
        invariant p.Valid() && wal.Sound() && SameOutside(m0, p.mem, c.app, c.app + c.appSize)
        invariant Failures(wal.reg) > 0 && (closed ==> Whole(p.g, c.align, JobOf(c, h), p.mem))
        invariant if closed then wal.open == Journal.Logged(CLOSING, wal.h) else Passes(open, wal.open)
        invariant Whole(p.g, c.align, JobOf(c, h), p.mem)
                  || RoomLeft(room, open, wal, Needed(blocks, Cuts(), wal.cap))
        invariant Cuts() == old(Cuts()) ==> !closed && RoomLeft(room, open, wal, Needed(blocks, Cuts(), wal.cap))
        decreases Cuts()
      {
        ghost var m := p.mem;
        SameHeader(p.g, c, m0, m);
        if Whole(p.g, c.align, JobOf(c, h), m) { IsRestored(p.g, c, h, m0, m); }
        var ran;
        st, ran, closed := OneBoot(c, arena, blocks, room, open, closed);
        SameOutsideTrans(m0, m, p.mem, c.app, c.app + c.appSize);
        if Whole(p.g, c.align, JobOf(c, h), p.mem) { IsRestored(p.g, c, h, m0, p.mem); }
        if st != PowerCut { return; }
      }
    }

    /** One boot: the revert runs if and only if the commit is what the reconstruction finds
        and a failure is on record; `ran` says whether it does. */
    method OneBoot(c: Config, arena: nat, ghost blocks: nat, ghost room: bool, ghost open: Journal.Open,
                   ghost closed0: bool)
      returns (st: Status, ran: bool, ghost closed: bool)
      requires p.Valid() && wal.Sound() && Configured(p.g, c, p.mem) && arena >= 512
      requires open.Logged? && open.entry.intent == Journal.Main(TXN_COMMIT)
      requires var h := HeaderAt(p.mem, c.staging); Genuine(h) && Fits(c, h) && Finishes(p.g, c, JobOf(c, h), 0)
      requires blocks == Blocks(p.g, c, p.mem)
      requires if closed0 then wal.open == Journal.Logged(CLOSING, wal.h) else Passes(open, wal.open)
      modifies p`mem, p`cuts, wal
      ensures p.Valid() && wal.Sound() && SameOutside(old(p.mem), p.mem, c.app, c.app + c.appSize)
      ensures st == Ok || st == PowerCut || st == NotFound || (st == CounterExhausted && wal.maxErase > 0)
      ensures !ran ==> st == NotFound && closed == closed0 && p.mem == old(p.mem) && wal.open == old(wal.open)
      ensures ran ==> !closed0 && st != NotFound && (st == Ok ==> closed) && (closed ==> st == Ok || st == PowerCut)
      ensures old(Failures(wal.reg)) == 0 ==> !ran
      ensures !ran && !closed && old(Failures(wal.reg)) > 0 ==> Forgotten()
      ensures room && !closed0 && old(Failures(wal.reg)) > 0 ==>
                old(RoomLeft(room, open, wal, Needed(blocks, Cuts(), wal.cap))) ==> ran
      ensures if closed then wal.open == Journal.Logged(CLOSING, wal.h) else Passes(open, wal.open)
      ensures Failures(wal.reg) == old(Failures(wal.reg))
      ensures var j := JobOf(c, old(HeaderAt(p.mem, c.staging)));
              (ran && closed) || old(Whole(p.g, c.align, j, p.mem)) ==> Whole(p.g, c.align, j, p.mem)
      ensures st == PowerCut ==> Cuts() < old(Cuts())
      ensures old(RoomLeft(room, open, wal, Needed(blocks, Cuts(), wal.cap))) && !closed0 && st == PowerCut ==>
                || Whole(p.g, c.align, JobOf(c, old(HeaderAt(p.mem, c.staging))), p.mem)
                || RoomLeft(room, open, wal, Needed(blocks, Cuts(), wal.cap))
    {
      hide OneWay.JobOk, Finishes, Room, Needed, HeaderAt, OneWay.Copied, Slice, Genuine, Fits, Whole;
      hide Journal.Stable;
      ghost var before, left := Cuts(), RoomLeft(room, open, wal, Needed(blocks, Cuts(), wal.cap));
      closed := closed0;
      var main := Boot();
      if !closed && room && left { StillFound(wal, blocks, before, Cuts()); }
      ran := IsCommit(main) && Failures(wal.tmr) > 0;
      if !ran { return NotFound, ran, closed; }
      ghost var cuts := Cuts();
      NeededSome(blocks, cuts, wal.cap);
      ghost var slots := OneWay.Rounds(p.g, c.align, JobOf(c, HeaderAt(p.mem, c.staging)), 0) + 1;
      assert slots == blocks + 1;
      ghost var need, run := Needed(blocks, cuts, wal.cap), RoomFor(wal, Needed(blocks, cuts, wal.cap));
      assert left && room && !closed0 ==> run && wal.open == open;
      hide OneWay.Rounds, JobOf, Journal.Newest, OnlyErases;
      st, closed := TriggerRevert(c, arena, need);
      if st == PowerCut && left && !closed0 && !Whole(p.g, c.align, JobOf(c, old(HeaderAt(p.mem, c.staging))), p.mem) {
        assert run && room ==> RoomLeft(true, open, wal, need - slots - wal.cap);
        RoomAfterCut(room, open, wal, blocks, cuts, Cuts());
      }
    }
  }

  /** The blocks that the revert copies. */
  ghost function Blocks(g: Geometry, c: Config, m: Bytes): nat
    requires 8 <= c.stagingSize && c.staging + c.stagingSize <= |m|
  {
    OneWay.Rounds(g, c.align, JobOf(c, HeaderAt(m, c.staging)), 0)
  }

  lemma TargetTrans(j: OneWay.Job, m0: Bytes, m1: Bytes, m2: Bytes)
    requires OneWay.OnlyTarget(j, m0, m1) && OneWay.OnlyTarget(j, m1, m2)
    ensures OneWay.OnlyTarget(j, m0, m2)
  {
    SameOutsideTrans(m0, m1, m2, j.dst, j.dst + j.dstSize);
  }

  lemma SameBlock(j: OneWay.Job, m: Bytes, off: nat, n: nat)
    requires OneWay.Copied(j, m, off + n)
    ensures Slice(m, j.dst + off, n) == Slice(m, j.src + off, n)
  {
    assert Slice(m, j.dst + off, n) == Slice(m, j.dst, off + n)[off..];
    assert Slice(m, j.src + off, n) == Slice(m, j.src, off + n)[off..];
  }

  lemma RunsAligned(g: Geometry, align: nat, j: OneWay.Job, off: nat)
    requires off < j.length
    ensures OneWay.Runs(g, align, j, off) ==> OneWay.Aligned(g, j, off)
  {
  }

  lemma IsWhole(g: Geometry, align: nat, j: OneWay.Job, off: nat, m: Bytes)
    requires j.length <= off == Halt(g, align, j, 0) && OneWay.Copied(j, m, off)
    ensures Whole(g, align, j, m)
  {
  }

  lemma Untouched(j: OneWay.Job, m: Bytes)
    ensures OneWay.OnlyTarget(j, m, m)
  {
  }

  lemma NothingCopied(g: Geometry, c: Config, h: Header, m: Bytes)
    requires OneWay.JobOk(g, c.align, JobOf(c, h)) && |m| == g.total
    ensures OneWay.Copied(JobOf(c, h), m, 0)
  {
  }

  /** The copy never touches the header it works from. */
  lemma SameHeader(g: Geometry, c: Config, m0: Bytes, m: Bytes)
    requires Configured(g, c, m0) && Genuine(HeaderAt(m0, c.staging)) && Fits(c, HeaderAt(m0, c.staging))
    requires SameOutside(m0, m, c.app, c.app + c.appSize)
    ensures HeaderAt(m, c.staging) == HeaderAt(m0, c.staging) && Configured(g, c, m)
  {
  }

  /** The app slot holds the image that staging held. */
  ghost predicate Restored(c: Config, m0: Bytes, m: Bytes)
    requires 8 <= c.stagingSize && c.staging + c.stagingSize <= |m0|
  {
    var n := HeaderAt(m0, c.staging).size;
    c.staging + n <= |m0| && c.app + n <= |m| && Slice(m, c.app, n) == Slice(m0, c.staging, n)
  }

  lemma IsRestored(g: Geometry, c: Config, h: Header, m0: Bytes, m: Bytes)
    requires Configured(g, c, m0) && h == HeaderAt(m0, c.staging) && Genuine(h) && Fits(c, h)
    requires SameOutside(m0, m, c.app, c.app + c.appSize) && Whole(g, c.align, JobOf(c, h), m)
    ensures Restored(c, m0, m)
  {
    WholeMeans(g, c.align, JobOf(c, h), m);
    SliceKept(m0, m, c.app, c.app + c.appSize, c.staging, h.size);
  }

  // ---- An update and its revert --------------------------------------------------------

  /** The slots of an exchange, as its revert sees them. */
  function ConfigOf(x: SwapScratch.Config): Config {
    Config(x.dest, x.destSize, x.src, x.srcSize, x.align)
  }

  /** After the exchange, staging holds the old app, as far as it was exchanged. */
  lemma OldImage(x: SwapScratch.Config, m0: Bytes, m: Bytes, n: nat)
    requires SwapScratch.Exchanged(x, m0, m) && n <= x.length
    ensures x.src + n <= |m| && x.dest + n <= |m0| && Slice(m, x.src, n) == Slice(m0, x.dest, n)
  {
    assert Slice(m, x.src, n) == Slice(m, x.src, x.length)[..n];
    assert Slice(m0, x.dest, n) == Slice(m0, x.dest, x.length)[..n];
  }

  /** So the header in staging is the one that the old app began with. */
  lemma OldHeader(x: SwapScratch.Config, m0: Bytes, m: Bytes)
    requires SwapScratch.Exchanged(x, m0, m) && 8 <= x.length
    ensures HeaderAt(m, x.src) == HeaderAt(m0, x.dest)
  {
    OldImage(x, m0, m, 8);
    SameBytes(m, x.src, m0, x.dest);
  }

  lemma SameBytes(m: Bytes, a: nat, m': Bytes, b: nat)
    requires a + 8 <= |m| && b + 8 <= |m'| && Slice(m, a, 8) == Slice(m', b, 8)
    ensures HeaderAt(m, a) == HeaderAt(m', b)
  {
    var s, s' := Slice(m, a, 8), Slice(m', b, 8);
    assert HeaderAt(m, a) == HeaderAt(s, 0) && HeaderAt(m', b) == HeaderAt(s', 0);
  }

  /** The commit entry, and the update of the failure counter. */
  method CommitAndCount(wal: Journal.Wal, commit: Journal.Entry, t: Journal.Tmr) returns (st: Status)
    requires wal.Valid() && commit.intent == Journal.Main(TXN_COMMIT) && t != wal.tmr
    modifies wal
    ensures st == Ok ==> wal.Valid() && wal.open.Logged? && wal.open.entry == commit && wal.reg == t
    ensures st == Ok ==> wal.h == wal.open.q + 3 && Journal.Fill(wal.S, wal.h) == 0 && wal.cuts == old(wal.cuts)
  {
    ghost var took;
    st, took := wal.Append(commit);
    if st != Ok { return; }
    st := wal.UpdateTmr(t);
  }

  /** An update through the scratch provider, its commit, the crash that a boot counts, and
      the revert.  With an even number of cuts between a cleanup entry of the exchange and
      its return, the app slot holds the old image again if the revert was closed; and,
      closed or not, if the log has room for the checkpoints of the revert, whatever cuts
      strike in the exchange and in the revert.  `counted` says that the commit and the
      count were logged without a cut; the count leaves two sectors of room. */
  method UpdateAndRevert(d: Device, x: SwapScratch.Config, commit: Journal.Entry, t: Journal.Tmr, arena: nat)
    returns (st: Status, counted: bool, reopened: nat, ghost closed: bool)
    requires d.p.Valid() && d.p.g == x.g && SwapScratch.Configured(x) && SwapScratch.Clean(x) && arena >= 512
    requires !SwapScratch.Misaligned(x) && 8 <= x.length && x.length <= x.destSize && x.length <= x.srcSize
    requires d.p.log.intent != OtherIntent && d.p.log.chunk == 0 && !d.p.log.shield
    requires d.wal.Valid() && commit.intent == Journal.Main(TXN_COMMIT) && t != d.wal.tmr && Failures(t) > 0
    requires var h := HeaderAt(d.p.mem, x.dest);
             && Genuine(h) && Fits(ConfigOf(x), h) && h.size <= x.length
             && OneWay.JobOk(x.g, x.align, JobOf(ConfigOf(x), h))
                && Finishes(x.g, ConfigOf(x), JobOf(ConfigOf(x), h), 0)
    modifies d.p, d.wal
    ensures d.p.Valid()
    ensures closed ==> counted && reopened % 2 == 0
    ensures counted && reopened % 2 == 0 && !closed ==>
              (st == CounterExhausted && d.wal.maxErase > 0) || (st == NotFound && d.Forgotten())
    ensures var h := old(HeaderAt(d.p.mem, x.dest));
            var rounds := OneWay.Rounds(x.g, x.align, JobOf(ConfigOf(x), h), 0);
            var room := Needed(rounds, old(d.Cuts()), d.wal.cap) <= 2 * d.wal.cap;
            closed || (counted && reopened % 2 == 0 && st != CounterExhausted && room) ==>
              x.dest + h.size <= |d.p.mem| && Slice(d.p.mem, x.dest, h.size) == old(Slice(d.p.mem, x.dest, h.size))
  {
    hide SwapScratch.Configured, SwapScratch.Clean, OneWay.JobOk, Finishes, HeaderAt, SwapScratch.Exchanged;
    hide SwapScratch.TailReverted, SwapScratch.SameAfter, SwapScratch.Same, Needed, Journal.Fill, OneWay.Rounds;
    InFlash(x);
    ghost var m0, cuts := d.p.mem, d.Cuts();
    ghost var h := HeaderAt(m0, x.dest);
    ghost var last;
    counted, closed := false, false;
    st, reopened, last := SwapScratch.RunUpdate(d.p, x, arena);
    st := CommitAndCount(d.wal, commit, t);
    if st != Ok { return; }
    counted := true;
    if reopened % 2 == 1 { return; }
    OldHeader(x, m0, d.p.mem);
    OldImage(x, m0, d.p.mem, h.size);
    RoomAtStart(d.wal, Blocks(x.g, ConfigOf(x), d.p.mem), cuts, d.Cuts());
    st, closed := d.RevertToCompletion(ConfigOf(x), arena);
  }

  lemma InFlash(x: SwapScratch.Config)
    requires SwapScratch.Configured(x)
    ensures x.src + x.srcSize <= x.g.total && x.dest + x.destSize <= x.g.total
  {
  }

  /** Two sectors are left when the commit is three ids behind and the newest is empty. */
  lemma RoomAtStart(wal: Journal.Wal, blocks: nat, cuts: nat, cuts': nat)
    requires wal.Valid() && wal.open.Logged? && cuts' <= cuts
    requires wal.h == wal.open.q + 3 && Journal.Fill(wal.S, wal.h) == 0
    ensures Needed(blocks, cuts, wal.cap) <= 2 * wal.cap ==> RoomFor(wal, Needed(blocks, cuts', wal.cap))
  {
    if cuts' < cuts { NeededAfterCut(blocks, cuts, cuts', wal.cap); }
    var q := wal.open.q;
    assert (q + 5) * wal.cap == (q + 3) * wal.cap + 2 * wal.cap;
  }

  /** A log of five sectors in which the commit is four ids behind and the newest sector is
      full: its revert is found by a boot before the next checkpoint, and by none after
      the rotation that this checkpoint begins. */
  lemma CommitForgotten(commit: Journal.Entry)
    requires commit.intent == Journal.Main(TXN_COMMIT)
    ensures var S := CrashedLog(commit);
            && Journal.Stable(S, 1, 5, [], Journal.Logged(commit, 1)) && Journal.Fill(S, 5) == 1
            && IsCommit(Journal.Newest(S, 5, 5, Journal.MainKind))
            && forall v: nat :: Journal.Reusable(S, 5, v) ==>
                 && Journal.Newest(S[v := Journal.Wiped()], 5, 5, Journal.MainKind) == None
                 && Journal.Newest(S[v := Journal.FreshSector(6, 2, [], 1)], 6, 5, Journal.MainKind) == None
  {
    var S := CrashedLog(commit);
    CrashedStable(commit);
    hide Journal.Stable, Journal.Newest;
    var open := Journal.Logged(commit, 1);
    Journal.EntriesAre([Journal.Free], []);
    Journal.FreshIsEmpty(6, 2, [], 1);
    assert Journal.Reusable(S, 5, 0);
    Journal.FiveSectorsLose(S, 1, 5, [], open, 0, Journal.Wiped(), 5);
    forall v: nat | Journal.Reusable(S, 5, v)
      ensures Journal.Newest(S[v := Journal.Wiped()], 5, 5, Journal.MainKind) == None
      ensures Journal.Newest(S[v := Journal.FreshSector(6, 2, [], 1)], 6, 5, Journal.MainKind) == None
    {
      Journal.FiveSectorsLose(S, 1, 5, [], open, v, Journal.Wiped(), 5);
      Journal.FiveSectorsLose(S, 1, 5, [], open, v, Journal.FreshSector(6, 2, [], 1), 6);
    }
  }

  /** Room for all the checkpoints is not enough to close: the count of the erases begins
      three ids after the commit, and its second header recycles it.  Here is a log of five
      sectors, as a counted crash leaves it, with room for a revert that is cut once; a cut
      right after the second header, and no boot finds the commit any more.  By then the
      image is in place. */
  lemma ClosingForgotten(commit: Journal.Entry, t: Journal.Tmr, t': Journal.Tmr, blocks: nat, cap: nat,
                         v1: nat, e1: nat, v2: nat, e2: nat)
    requires commit.intent == Journal.Main(TXN_COMMIT) && 2 * (blocks + 1) <= cap
    requires var S := CountedLog(commit, t, cap);
             && Journal.Reusable(S, 4, v1)
             && Journal.Reusable(S[v1 := Journal.FreshSector(5, e1, t', cap)], 5, v2)
    ensures var S, open := CountedLog(commit, t, cap), Journal.Logged(commit, 1);
            && Journal.Stable(S, cap, 4, t, open) && Room(S, 4, cap, open, Needed(blocks, 1, cap))
            && IsCommit(Journal.Newest(S, 4, 5, Journal.MainKind))
            && var S1 := S[v1 := Journal.FreshSector(5, e1, t', cap)];
               && IsCommit(Journal.Newest(S1, 5, 5, Journal.MainKind))
               && Journal.Newest(S1[v2 := Journal.Unused(cap)], 5, 5, Journal.MainKind) == None
               && Journal.Newest(S1[v2 := Journal.FreshSector(6, e2, t', cap)], 6, 5, Journal.MainKind) == None
  {
    var S, open := CountedLog(commit, t, cap), Journal.Logged(commit, 1);
    CountedStable(commit, t, cap);
    hide Journal.Stable, Journal.Newest, Journal.Entries, Journal.Fill;
    Journal.EntriesAre(Journal.Unused(cap).slots, []);
    Journal.FreshIsEmpty(6, e2, t', cap);
    Journal.FiveSectorsUpdateLoses(S, cap, 4, t, open, t', v1, e1, v2, Journal.Unused(cap), 5);
    Journal.FiveSectorsUpdateLoses(S, cap, 4, t, open, t', v1, e1, v2, Journal.FreshSector(6, e2, t', cap), 6);
  }

  /** The commit in the first sector, the three headers of the count, and a blank sector. */
  function CountedLog(commit: Journal.Entry, t: Journal.Tmr, cap: nat): (S: Journal.Sectors)
    requires cap > 0
    ensures |S| == 5
  {
    var first := Journal.FreshSector(1, 1, t, cap);
    [first.(slots := first.slots[0 := Journal.Holds(commit)]), Journal.FreshSector(2, 1, t, cap),
     Journal.FreshSector(3, 1, t, cap), Journal.FreshSector(4, 1, t, cap), Journal.Unused(cap)]
  }

  lemma CountedStable(commit: Journal.Entry, t: Journal.Tmr, cap: nat)
    requires commit.intent == Journal.Main(TXN_COMMIT) && cap > 0
    ensures var S := CountedLog(commit, t, cap);
            Journal.Stable(S, cap, 4, t, Journal.Logged(commit, 1)) && Journal.Fill(S, 4) == 0
  {
    var S := CountedLog(commit, t, cap);
    Journal.EntriesAre(S[0].slots, [commit]);
    Journal.EntriesAre(S[1].slots, []);
    hide Journal.Entries;
    assert Journal.SeqAt(S, 0, 1) && Journal.SeqAt(S, 1, 2) && Journal.SeqAt(S, 2, 3) && Journal.SeqAt(S, 3, 4);
    forall q: nat | 1 < q ensures Journal.Quiet(S, q) {}
  }

  /** One entry a sector: the commit, two empty headers of the counter update, and the
      first checkpoints of the revert in its third sector and the one after it. */
  function CrashedLog(commit: Journal.Entry): (S: Journal.Sectors)
    ensures |S| == 5
  {
    [Journal.Full(1, 1, [Journal.Holds(commit)]), Journal.Full(2, 1, [Journal.Free]),
     Journal.Full(3, 1, [Journal.Free]),
     Journal.Full(4, 1, [Journal.Holds(Checkpoint(0))]), Journal.Full(5, 1, [Journal.Holds(Checkpoint(0))])]
  }

  lemma CrashedStable(commit: Journal.Entry)
    requires commit.intent == Journal.Main(TXN_COMMIT)
    ensures Journal.Stable(CrashedLog(commit), 1, 5, [], Journal.Logged(commit, 1))
            && Journal.Fill(CrashedLog(commit), 5) == 1
  {
    var S := CrashedLog(commit);
    Journal.EntriesAre([Journal.Free], []);
    Journal.EntriesAre([Journal.Holds(commit)], [commit]);
    Journal.EntriesAre([Journal.Holds(Checkpoint(0))], [Checkpoint(0)]);
    hide Journal.Entries;
    assert Journal.SeqAt(S, 0, 1) && Journal.SeqAt(S, 1, 2) && Journal.SeqAt(S, 2, 3);
    assert Journal.SeqAt(S, 3, 4) && Journal.SeqAt(S, 4, 5);
    forall q: nat | 1 < q ensures Journal.Quiet(S, q) {}
  }
}
