/** The shared flash device: bytes, erase sectors, and power cuts.

    A run of the boot loader sees flash through four HAL calls.  `Read` and
    `get_sector_size` are expressions here; `EraseSector` and `Program` are
    methods that may be hit by a power cut.  A cut leaves what was in flight
    (the sector being erased, the bytes being programmed) with arbitrary
    content and ends the run: every caller returns at once, as the source does
    on any HAL status other than BOOT_OK, and the next boot calls again. */
module FlashModel {

  type Byte = x: int | 0 <= x < 256 witness 0
  type Bytes = seq<Byte>

  /** flash_hal_t.erased_value on every supported part. */
  const ERASED: Byte := 0xFF

  datatype Status =
    | Ok
    | PowerCut          // the run ended here; RAM is lost
    | FlashHw           // BOOT_ERR_FLASH_HW
    | FlashBounds       // BOOT_ERR_FLASH_BOUNDS
    | FlashAlign        // BOOT_ERR_FLASH_ALIGN
    | InvalidState      // BOOT_ERR_INVALID_STATE
    | InvalidArg        // BOOT_ERR_INVALID_ARG
    | NotSupported      // BOOT_ERR_NOT_SUPPORTED
    | VerifyFailed      // BOOT_ERR_VERIFY
    | NotFound          // BOOT_ERR_NOT_FOUND
    | CounterExhausted  // BOOT_ERR_COUNTER_EXHAUSTED
    | Downgrade         // BOOT_ERR_DOWNGRADE

  /** An ideal checksum: equal checksums mean equal content.  The loader compares
      CRC-32 values and accepts the risk of a collision
      (toobloader/core/boot_transport_swapmove.c:35-36); the model makes that
      one assumption here and nowhere else.  Only equality of checksums is ever
      used; no code path reads `of`.  `Cleared` is a zeroed log word. */
  datatype Checksum = Cleared | Crc(of: Bytes)

  /** The bytes [a, a+n) of a memory image. */
  function Slice(m: Bytes, a: nat, n: nat): (s: Bytes)
    requires a + n <= |m|
    ensures |s| == n
  {
    m[a..a + n]
  }

  function Blank(n: nat): (s: Bytes)
    ensures |s| == n
    ensures forall i :: 0 <= i < n ==> s[i] == ERASED
  {
    seq(n, _ => ERASED)
  }

  function Zeros(n: nat): (z: Bytes)
    ensures |z| == n
  {
    seq(n, _ => 0)
  }

  lemma Joined(m: Bytes, a: nat, k: nat, n: nat)
    requires a + k + n <= |m|
    ensures Slice(m, a, k + n) == Slice(m, a, k) + Slice(m, a + k, n)
    ensures Slice(m, a, k + n)[..k] == Slice(m, a, k)
    ensures Slice(m, a, k + n)[k..] == Slice(m, a + k, n)
  {
  }

  ghost predicate SameOutside(m0: Bytes, m1: Bytes, lo: int, hi: int) {
    && |m0| == |m1|
    && forall a :: 0 <= a < |m0| && (a < lo || hi <= a) ==> m1[a] == m0[a]
  }

  ghost predicate AllErased(m: Bytes, lo: int, hi: int) {
    forall a :: 0 <= a < |m| && lo <= a < hi ==> m[a] == ERASED
  }

  lemma SliceKept(m0: Bytes, m1: Bytes, lo: int, hi: int, a: nat, n: nat)
    requires SameOutside(m0, m1, lo, hi)
    requires a + n <= |m0|
    requires a + n <= lo || hi <= a
    ensures Slice(m1, a, n) == Slice(m0, a, n)
  {
  }

  lemma SameOutsideTrans(m0: Bytes, m1: Bytes, m2: Bytes, lo: int, hi: int)
    requires SameOutside(m0, m1, lo, hi) && SameOutside(m1, m2, lo, hi)
    ensures SameOutside(m0, m2, lo, hi)
  {
  }

  lemma SubSlice(m: Bytes, a: nat, n: nat, b: nat, k: nat)
    requires a + n <= |m| && b + k <= n
    ensures m[a..a + n][b..b + k] == m[a + b..a + b + k]
  {
    var x, y := m[a..a + n][b..b + k], m[a + b..a + b + k];
    assert |x| == |y|;
    forall i | 0 <= i < k ensures x[i] == y[i] {
      assert x[i] == m[a..a + n][b + i] == m[a + b + i];
    }
  }

  lemma PrefixJoin(m: Bytes, a: nat, b: nat)
    requires a <= b <= |m|
    ensures m[..a] + m[a..b] == m[..b]
  {
  }

  /** What the flash HAL reports about the device.  `start(a)` is the alignment test
      of the source, `a % get_sector_size(a) == 0`; `size(a)` is get_sector_size(a). */
  datatype Geometry = Geometry(total: nat, size: nat -> nat, start: nat -> bool)

  /** The end of a sector or of flash: a place where a sector may begin. */
  ghost predicate Boundary(g: Geometry, a: int) {
    0 <= a <= g.total && (a == g.total || g.start(a))
  }

  /** Sectors tile the device: each one ends where the next begins or at the end of
      flash, and no boundary lies inside a sector. */
  ghost predicate Tiling(g: Geometry) {
    forall a: nat :: SectorOk(g, a)
  }

  ghost predicate SectorOk(g: Geometry, a: nat) {
    a < g.total && g.start(a) ==>
      && g.size(a) > 0 && Boundary(g, a + g.size(a))
      && forall b: nat :: !Inside(g, a, b)
  }

  ghost predicate Inside(g: Geometry, a: nat, b: nat) {
    a < b < a + g.size(a) && Boundary(g, b)
  }

  function Uniform(sec: nat, total: nat): Geometry {
    Geometry(total, _ => sec, (a: nat) => Multiple(a, sec))
  }

  predicate Multiple(a: nat, k: nat) {
    k > 0 && a % k == 0
  }

  /** Equal sectors at multiples of their size tile the device. */
  lemma UniformTiles(sec: nat, total: nat)
    requires Multiple(total, sec)
    ensures Tiling(Uniform(sec, total))
  {
    var g := Uniform(sec, total);
    forall a: nat ensures SectorOk(g, a) {
      if a < g.total && g.start(a) {
        MultiplesApart(sec, a, total);
        forall b: nat ensures !Inside(g, a, b) {
          if Inside(g, a, b) { MultiplesApart(sec, a, b); }
        }
      }
    }
  }

  lemma MultiplesApart(sec: nat, a: nat, b: nat)
    requires sec > 0 && a < b && a % sec == 0 && b % sec == 0
    ensures a + sec <= b && (a + sec) % sec == 0
  {
    var i, j := a / sec, b / sec;
    assert a == i * sec && b == j * sec;
    MulMono(j, i, sec);
    MulMono(i + 1, j, sec);
    NextMultiple(i, sec);
  }

  lemma NextMultiple(i: nat, k: nat)
    requires k > 0
    ensures i * k + k == (i + 1) * k && (i * k + k) % k == 0
  {
    ModOfMultiple(i + 1, k);
  }

  lemma MulMono(i: int, j: int, k: nat)
    ensures i <= j ==> i * k <= j * k
  {
  }

  lemma ModOfMultiple(i: nat, k: nat)
    requires k > 0
    ensures (i * k) % k == 0
  {
    DivModUnique(i * k, i, 0, k);
  }

  lemma DivModUnique(x: int, q: int, r: int, k: nat)
    requires k > 0 && x == q * k + r && 0 <= r < k
    ensures x / k == q && x % k == r
  {
    var q', r' := x / k, x % k;
    assert x == q' * k + r' && 0 <= r' < k;
    assert (q - q') * k == r' - r;
    MulMono(1, q - q', k);
    MulMono(1, q' - q, k);
  }

  /** Where an erase of [cur, end) stops: the first sector end at or past `end`. */
  ghost function EraseEnd(g: Geometry, cur: nat, end: nat): (e: nat)
    ensures cur <= e
    decreases end - cur
  {
    if cur >= end || g.size(cur) == 0 then cur else EraseEnd(g, cur + g.size(cur), end)
  }

  /** How many sectors an erase of [cur, end) visits. */
  ghost function SectorCount(g: Geometry, cur: nat, end: nat): nat
    decreases end - cur
  {
    if cur >= end || g.size(cur) == 0 then 0 else 1 + SectorCount(g, cur + g.size(cur), end)
  }

  /** The sectors from `cur` until `end` is covered can be erased one by one. */
  ghost predicate Erasable(g: Geometry, cur: nat, end: nat)
    decreases end - cur
  {
    cur < end ==>
      && g.size(cur) > 0 && g.start(cur) && cur + g.size(cur) <= g.total
      && Erasable(g, cur + g.size(cur), end)
  }

  lemma {:induction false} ErasableMeans(g: Geometry, cur: nat, end: nat)
    requires Erasable(g, cur, end) && cur <= end
    ensures end <= EraseEnd(g, cur, end) && (end <= g.total ==> EraseEnd(g, cur, end) <= g.total)
    decreases end - cur
  {
    if cur < end {
      if cur + g.size(cur) <= end { ErasableMeans(g, cur + g.size(cur), end); }
    }
  }

  /** On a tiled device an erase that starts at a boundary works, and one inside a
      whole number of sectors stays inside it. */
  lemma {:induction false} TiledErase(g: Geometry, cur: nat, end: nat, limit: nat)
    requires Tiling(g) && cur <= end <= limit && Boundary(g, cur) && Boundary(g, limit)
    ensures Erasable(g, cur, end) && end <= EraseEnd(g, cur, end) <= limit
    decreases end - cur
  {
    if cur < end {
      assert SectorOk(g, cur) && !Inside(g, cur, limit);
      if cur + g.size(cur) < end { TiledErase(g, cur + g.size(cur), end, limit); }
    }
  }

  /** n, rounded up to a multiple of the write alignment (0 = no alignment). */
  function PadUp(n: nat, align: nat): (r: nat)
    ensures r >= n
  {
    if align == 0 || n == 0 then n else if n <= align then align else align + PadUp(n - align, align)
  }

  /** The form the source has it in. */
  lemma {:induction false} PadUpIs(n: nat, align: nat)
    requires align > 0
    ensures PadUp(n, align) == if n % align == 0 then n else n + (align - n % align)
    decreases n
  {
    if n == 0 {
    } else if n < align {
      DivModUnique(n, 0, n, align);
    } else if n == align {
      DivModUnique(n, 1, 0, align);
    } else {
      PadUpIs(n - align, align);
      var m := n - align;
      DivModUnique(n, m / align + 1, m % align, align);
    }
  }

  /** A multiple of the write alignment; 0 stands for no alignment. */
  predicate Al(x: int, align: nat) {
    align > 0 ==> x % align == 0
  }

  lemma AlZero(align: nat)
    ensures Al(0, align)
  {
  }

  lemma AlShift(x: int, d: int, align: nat)
    requires Al(d, align)
    ensures Al(x + d, align) <==> Al(x, align)
    ensures Al(x - d, align) <==> Al(x, align)
  {
    if align > 0 {
      var k := d / align;
      assert d == k * align;
      ModShift(x, k, align);
      ModShift(x - d, k, align);
    }
  }

  lemma ModShift(x: int, k: int, align: nat)
    requires align > 0
    ensures (x + k * align) % align == x % align
  {
    var q, r := x / align, x % align;
    assert x + k * align == (q + k) * align + r;
    DivModUnique(x + k * align, q + k, r, align);
  }

  /** Rounding up: the least aligned number at or above n. */
  lemma {:induction false} PadUpLeast(n: nat, align: nat)
    ensures n <= PadUp(n, align) && Al(PadUp(n, align), align)
    ensures Al(n, align) ==> PadUp(n, align) == n
    ensures forall m: nat :: n <= m && Al(m, align) ==> PadUp(n, align) <= m
    decreases n
  {
    if align > 0 && n > 0 {
      AlShift(0, align, align);
      if n <= align {
        forall m: nat | n <= m && Al(m, align) ensures align <= m {
          if m < align { DivModUnique(m, 0, m, align); }
        }
      } else {
        PadUpLeast(n - align, align);
        AlShift(n, align, align);
        AlShift(PadUp(n - align, align), align, align);
        forall m: nat | n <= m && Al(m, align) ensures PadUp(n, align) <= m {
          AlShift(m, align, align);
          assert n - align <= m - align;
        }
      }
    }
  }

  lemma PadUpShift(a: nat, n: nat, align: nat)
    requires Al(a, align)
    ensures a + PadUp(n, align) == PadUp(a + n, align)
  {
    PadUpLeast(n, align);
    PadUpLeast(a + n, align);
    AlShift(PadUp(n, align), a, align);
    AlShift(PadUp(a + n, align), a, align);
    assert n <= PadUp(a + n, align) - a;
  }

  datatype Intent = UpdatePending | RollbackPending | OtherIntent

  /** transfer_bitmap[TOOB_TB_SLOT_PHASE] */
  datatype Phase = NoPhase | OnewayBackup | OnewayDeploy | OnewayRback | SwapmoveMove | SwapmoveSwap | OtherPhase

  /** The part of wal_entry_payload_t that the transports resume from.  The slots
      follow the registry of common/include/boot_slot_transport.h:25-47. */
  datatype Txn = Txn(
    intent: Intent,
    chunk: nat,          // delta_chunk_id
    crcSrc: Checksum,    // transfer_bitmap[0]
    crcDest: Checksum,   // transfer_bitmap[1]
    shield: bool,        // transfer_bitmap[2] == 0xAA55AA55
    phase: Phase,        // transfer_bitmap[3]
    aux0: Checksum,      // transfer_bitmap[4]
    aux1: Checksum)      // transfer_bitmap[5]

  class Platform {
    const g: Geometry
    var mem: Bytes
    var log: Txn          // the newest entry that reached the write-ahead log
    var cuts: nat         // power cuts still to come

    ghost predicate Valid()
      reads this`mem
    {
      |mem| == g.total
    }

    constructor (g: Geometry, mem: Bytes, log: Txn, cuts: nat)
      requires |mem| == g.total
      ensures Valid() && this.g == g && this.mem == mem && this.log == log && this.cuts == cuts
    {
      this.g, this.mem, this.log, this.cuts := g, mem, log, cuts;
    }

    /** flash->erase_sector */
    method EraseSector(a: nat) returns (st: Status)
      requires Valid() && g.start(a) && a + g.size(a) <= g.total
      modifies this`mem, this`cuts
      ensures Valid()
      ensures SameOutside(old(mem), mem, a, a + g.size(a))
      ensures st == Ok || st == PowerCut
      ensures st == Ok ==> cuts == old(cuts) && AllErased(mem, a, a + g.size(a))
      ensures st == PowerCut ==> cuts < old(cuts)
    {
      var cut: bool := *;
      if cut && cuts > 0 {
        var torn: Bytes := *;
        if |torn| != g.size(a) { torn := mem[a..a + g.size(a)]; }
        mem := mem[..a] + torn + mem[a + g.size(a)..];
        cuts := cuts - 1;
        return PowerCut;
      }
      mem := mem[..a] + Blank(g.size(a)) + mem[a + g.size(a)..];
      return Ok;
    }

    /** flash->write.  Programming a byte that is not erased is illegal, so that is
        a precondition and every caller has to prove it never happens. */
    method Program(a: nat, data: Bytes) returns (st: Status)
      requires Valid() && a + |data| <= g.total
      requires AllErased(mem, a, a + |data|)
      modifies this`mem, this`cuts
      ensures Valid()
      ensures SameOutside(old(mem), mem, a, a + |data|)
      ensures st == Ok || st == PowerCut
      ensures st == Ok ==> cuts == old(cuts) && Slice(mem, a, |data|) == data
      ensures st == PowerCut ==> cuts < old(cuts)
    {
      var cut: bool := *;
      if cut && cuts > 0 {
        var torn: Bytes := *;
        if |torn| != |data| { torn := mem[a..a + |data|]; }
        mem := mem[..a] + torn + mem[a + |data|..];
        cuts := cuts - 1;
        return PowerCut;
      }
      mem := mem[..a] + data + mem[a + |data|..];
      return Ok;
    }

    /** boot_journal_append as the transports see it: atomic.  A cut leaves either
        the old newest entry or the new one; Journal.dfy proves the log does that. */
    method Append(e: Txn) returns (st: Status)
      modifies this`log, this`cuts
      ensures st == Ok || st == PowerCut
      ensures st == Ok ==> log == e && cuts == old(cuts)
      ensures st == PowerCut ==> (log == e || log == old(log)) && cuts < old(cuts)
    {
      var cut: bool, reached: bool := *, *;
      if cut && cuts > 0 {
        if reached { log := e; }
        cuts := cuts - 1;
        return PowerCut;
      }
      log := e;
      return Ok;
    }
  }
}
