/** In-place exchange by moving the primary up one sector and then swapping
    (toobloader/core/boot_transport_swapmove.c). */
module SwapMove {
  import opened FlashModel
  import opened EffectEngine

  const SM_MAX_LOOPS: nat := 100000

  /** The fields of slot_txn_t this provider reads. */
  datatype Slots = Slots(src: nat, srcSize: nat, dest: nat, destSize: nat, length: nat, verified: bool)

  type Sectors = seq<Bytes>

  // ---- Memory as rows of equal sectors ---------------------------------------

  function At(base: nat, sec: nat, i: nat): nat {
    base + i * sec
  }

  lemma AtApart(base: nat, sec: nat, i: nat, j: nat)
    ensures At(base, sec, i) + sec == At(base, sec, i + 1)
    ensures i < j ==> At(base, sec, i) + sec <= At(base, sec, j)
    ensures j < i ==> At(base, sec, j) + sec <= At(base, sec, i)
  {
    MulMono(i + 1, j, sec);
    MulMono(j + 1, i, sec);
  }

  /** Sector i of the row, or nothing if it would lie outside flash. */
  ghost function SectorAt(m: Bytes, base: nat, sec: nat, i: nat): Bytes {
    if At(base, sec, i) + sec <= |m| then Slice(m, At(base, sec, i), sec) else []
  }

  ghost function Row(m: Bytes, base: nat, sec: nat, n: nat): (v: Sectors)
    ensures |v| == n
  {
    seq(n, i requires 0 <= i => SectorAt(m, base, sec, i))
  }

  /** Changing one sector changes one place of the row. */
  lemma RowUpdate(m0: Bytes, m1: Bytes, base: nat, sec: nat, n: nat, i: nat)
    requires i < n && SameOutside(m0, m1, At(base, sec, i), At(base, sec, i) + sec)
    ensures Row(m1, base, sec, n) == Row(m0, base, sec, n)[i := SectorAt(m1, base, sec, i)]
  {
    forall j | 0 <= j < n && j != i ensures SectorAt(m1, base, sec, j) == SectorAt(m0, base, sec, j) {
      AtApart(base, sec, i, j);
      if At(base, sec, j) + sec <= |m0| {
        SliceKept(m0, m1, At(base, sec, i), At(base, sec, i) + sec, At(base, sec, j), sec);
      }
    }
  }

  lemma RowKept(m0: Bytes, m1: Bytes, lo: nat, hi: nat, base: nat, sec: nat, n: nat)
    requires SameOutside(m0, m1, lo, hi)
    requires At(base, sec, n) <= lo || hi <= base
    ensures Row(m1, base, sec, n) == Row(m0, base, sec, n)
  {
    forall j | 0 <= j < n ensures SectorAt(m1, base, sec, j) == SectorAt(m0, base, sec, j) {
      AtApart(base, sec, j, n);
      MulMono(0, j, sec);
      if At(base, sec, j) + sec <= |m0| {
        SliceKept(m0, m1, lo, hi, At(base, sec, j), sec);
      }
    }
  }

  // ---- What each phase keeps --------------------------------------------------
  // p is the primary with its spare sector on top, s the secondary; p0 and s0 are
  // the two images to exchange.

  /** MOVE is about to do step i: everything above has moved up by one, everything
      at or below i is untouched, and sector i+1 may hold anything. */
  ghost predicate Moving(p: Sectors, s: Sectors, p0: Sectors, s0: Sectors, i: int) {
    && |p| == |p0| + 1 && |s| == |s0| == |p0| && -1 <= i < |p0|
    && s == s0
    && (forall j :: 0 <= j <= i ==> p[j] == p0[j])
    && (forall j :: i < j < |p0| ==> p[j+1] == p0[j])
  }

  /** SWAP is at index i: all below is exchanged, all above is moved but not yet
      exchanged, and of the two sectors at i at least one copy of s0[i] survives. */
  ghost predicate Swapping(p: Sectors, s: Sectors, p0: Sectors, s0: Sectors, i: nat) {
    && |p| == |p0| + 1 && |s| == |s0| == |p0| && i < |p0|
    && (forall j :: 0 <= j < i ==> p[j] == s0[j] && s[j] == p0[j])
    && (forall j :: i <= j < |p0| ==> p[j+1] == p0[j])
    && (forall j :: i < j < |p0| ==> s[j] == s0[j])
    && (s[i] == s0[i] || p[i] == s0[i])
  }

  /** SWAP has finished every index below i and not begun the next. */
  ghost predicate SwapDone(p: Sectors, s: Sectors, p0: Sectors, s0: Sectors, i: nat) {
    && |p| == |p0| + 1 && |s| == |s0| == |p0| && i <= |p0|
    && (forall j :: 0 <= j < i ==> p[j] == s0[j] && s[j] == p0[j])
    && (forall j :: i <= j < |p0| ==> p[j+1] == p0[j] && s[j] == s0[j])
  }

  ghost predicate Exchanged(p: Sectors, s: Sectors, p0: Sectors, s0: Sectors) {
    |p| == |p0| + 1 && |s0| == |p0| && p[..|p0|] == s0 && s == p0
  }

  /** What the newest log entry promises about flash. */
  ghost predicate Resumable(log: Txn, p: Sectors, s: Sectors, p0: Sectors, s0: Sectors) {
    match log.phase
    case SwapmoveMove => log.chunk < |p0| && Moving(p, s, p0, s0, log.chunk)
    case SwapmoveSwap =>
      && log.chunk < |p0| == |s0|
      && log.aux0 == Crc(s0[log.chunk]) && log.aux1 == Crc(p0[log.chunk])
      && Swapping(p, s, p0, s0, log.chunk)
    case _ => Moving(p, s, p0, s0, |p0| - 1)
  }

  /** A move step may be skipped exactly when its two sectors agree already. */
  lemma MoveStep(p: Sectors, s: Sectors, p0: Sectors, s0: Sectors, i: nat, x: Bytes)
    requires Moving(p, s, p0, s0, i)
    ensures Moving(p[i+1 := x], s, p0, s0, i)
    ensures x == p[i] ==> Moving(p[i+1 := x], s, p0, s0, i - 1)
    ensures p[i] == p[i+1] ==> Moving(p, s, p0, s0, i - 1)
  {
  }

  lemma MoveToSwap(p: Sectors, s: Sectors, p0: Sectors, s0: Sectors)
    requires Moving(p, s, p0, s0, -1)
    ensures SwapDone(p, s, p0, s0, 0)
  {
  }

  lemma SwapNext(p: Sectors, s: Sectors, p0: Sectors, s0: Sectors, i: nat)
    requires SwapDone(p, s, p0, s0, i)
    ensures i < |p0| ==> Swapping(p, s, p0, s0, i)
    ensures i == |p0| ==> Exchanged(p, s, p0, s0)
  {
  }

  /** Sub-step (a) keeps the invariant whatever the cut leaves in P[i]. */
  lemma SwapStepA(p: Sectors, s: Sectors, p0: Sectors, s0: Sectors, i: nat, x: Bytes)
    requires Swapping(p, s, p0, s0, i) && p[i] != s0[i]
    ensures s[i] == s0[i]
    ensures Swapping(p[i := x], s, p0, s0, i)
  {
  }

  /** Sub-step (b) destroys the source of (a), but only once (a) is done. */
  lemma SwapStepB(p: Sectors, s: Sectors, p0: Sectors, s0: Sectors, i: nat, x: Bytes)
    requires Swapping(p, s, p0, s0, i) && p[i] == s0[i]
    ensures Swapping(p, s[i := x], p0, s0, i)
    ensures x == p[i+1] ==> SwapDone(p, s[i := x], p0, s0, i + 1)
    ensures s[i] == p0[i] ==> SwapDone(p, s, p0, s0, i + 1)
  {
  }

  // ---- The provider ------------------------------------------------------------

  const U32: nat := 0x1_0000_0000

  /** Image sectors, in the 32-bit arithmetic of the source. */
  function Count(t: Slots, sec: nat): nat
    requires sec > 0
  {
    (t.length + sec - 1) % U32 / sec
  }

  /** Either the count wrapped to zero (and is rejected) or the counted sectors
      cover the image and the last of them is needed. */
  lemma CountCovers(t: Slots, sec: nat)
    requires 0 < t.length < U32 && 0 < sec < U32
    ensures Count(t, sec) == 0 <==> t.length + sec - 1 >= U32
    ensures Count(t, sec) > 0 ==> (Count(t, sec) - 1) * sec < t.length <= Count(t, sec) * sec
  {
    var sum := t.length + sec - 1;
    if sum >= U32 {
      DivModUnique(sum % U32, 0, sum - U32, sec);
    } else {
      var q, r := sum / sec, sum % sec;
      assert sum == q * sec + r;
      assert q > 0;
      assert (q - 1) * sec == q * sec - sec;
    }
  }

  /** The geometry gate of swapmove_apply. */
  predicate Accepts(g: Geometry, t: Slots) {
    && SameGeometry(g, t)
    && SpareFits(g, t)
  }

  predicate SameGeometry(g: Geometry, t: Slots) {
    g.size(t.dest) == g.size(t.src) > 0 && g.start(t.dest) && g.start(t.src)
  }

  predicate SpareFits(g: Geometry, t: Slots)
    requires SameGeometry(g, t)
  {
    var sec, n := g.size(t.dest), Count(t, g.size(t.dest));
    n > 0 && (n + 1) * sec <= t.destSize && n * sec <= t.srcSize
  }

  /** n image sectors from `base` on, each made of whole sectors of flash. */
  ghost predicate WholeSectors(g: Geometry, base: nat, sec: nat, n: nat) {
    sec > 0 && forall i: nat :: i < n ==> WholeAt(g, base, sec, i)
  }

  ghost predicate WholeAt(g: Geometry, base: nat, sec: nat, i: nat) {
    var a := At(base, sec, i);
    Erasable(g, a, a + sec) && EraseEnd(g, a, a + sec) == a + sec && SectorCount(g, a, a + sec) < MAX_ERASE_LOOPS
  }

  /** On a tiled device: an image sector is made of whole sectors if and only if it begins
      and ends where sectors do. */
  lemma WholeExactly(g: Geometry, base: nat, sec: nat, i: nat)
    requires Tiling(g) && sec > 0 && At(base, sec, i) + sec <= g.total
    requires SectorCount(g, At(base, sec, i), At(base, sec, i) + sec) < MAX_ERASE_LOOPS
    ensures WholeAt(g, base, sec, i) <==> Boundary(g, At(base, sec, i)) && Boundary(g, At(base, sec, i) + sec)
  {
    var a := At(base, sec, i);
    if Boundary(g, a) && Boundary(g, a + sec) { TiledErase(g, a, a + sec, a + sec); }
    if WholeAt(g, base, sec, i) { ErasesToBoundary(g, a, a + sec); }
  }

  lemma {:induction false} ErasesToBoundary(g: Geometry, cur: nat, end: nat)
    requires Tiling(g) && Erasable(g, cur, end) && cur <= end <= g.total && EraseEnd(g, cur, end) <= g.total
    ensures cur < end ==> Boundary(g, cur) && Boundary(g, EraseEnd(g, cur, end))
    decreases end - cur
  {
    if cur < end {
      assert SectorOk(g, cur);
      if cur + g.size(cur) < end { ErasesToBoundary(g, cur + g.size(cur), end); }
    }
  }

  /** Sectors of 32, 64, 32, 32, ... bytes. */
  function Mixed(): Geometry {
    Geometry(256, (a: nat) => if 32 <= a < 96 then 64 else 32, (a: nat) => Multiple(a, 32) && a != 64)
  }

  /** The gate looks at the first sector of each region only and lets them pass, but the
      erase of image sector 1 takes image sector 2 with it. */
  lemma MixedSectors()
    ensures var g, t := Mixed(), Slots(128, 96, 0, 96, 64, true);
            && Accepts(g, t) && Count(t, 32) == 2 && Tiling(g)
            && Erasable(g, At(0, 32, 1), At(0, 32, 2)) && EraseEnd(g, At(0, 32, 1), At(0, 32, 2)) == At(0, 32, 3)
            && !WholeAt(g, 0, 32, 1) && !WholeAt(g, 0, 32, 2)
  {
    MixedTiling();
    assert Erasable(Mixed(), 96, 64) && EraseEnd(Mixed(), 96, 64) == 96;
  }

  lemma MixedTiling()
    ensures Tiling(Mixed())
  {
    var g := Mixed();
    forall a: nat ensures SectorOk(g, a) {
      if a < g.total && g.start(a) {
        forall b: nat ensures !Inside(g, a, b) {
          if Inside(g, a, b) { MultiplesApart(32, a, b); }
        }
      }
    }
  }

  /** What the provider is configured with: two disjoint regions inside flash whose image
      sectors are made of whole sectors. */
  ghost predicate Configured(g: Geometry, t: Slots) {
    && t.dest + t.destSize <= g.total && t.src + t.srcSize <= g.total
    && (t.dest + t.destSize <= t.src || t.src + t.srcSize <= t.dest)
    && (Accepts(g, t) ==>
          var sec := g.size(t.dest);
          WholeSectors(g, t.dest, sec, Count(t, sec) + 1) && WholeSectors(g, t.src, sec, Count(t, sec)))
  }

  /** The state of one apply: bases, sector size and image sectors. */
  datatype Ctx = Ctx(P: nat, S: nat, sec: nat, N: nat, wl: seq<Region>)

  ghost predicate CtxOk(g: Geometry, c: Ctx) {
    && At(c.P, c.sec, c.N + 1) <= g.total && At(c.S, c.sec, c.N) <= g.total
    && (At(c.P, c.sec, c.N + 1) <= c.S || At(c.S, c.sec, c.N) <= c.P)
    && WholeSectors(g, c.P, c.sec, c.N + 1) && WholeSectors(g, c.S, c.sec, c.N)
    && |c.wl| == 2
    && c.wl[0].base == c.P && At(c.P, c.sec, c.N + 1) <= c.P + c.wl[0].size
    && c.wl[1].base == c.S && At(c.S, c.sec, c.N) <= c.S + c.wl[1].size
  }

  /** Flash changed in the two rows only. */
  ghost predicate OnlyRows(c: Ctx, m0: Bytes, m1: Bytes) {
    && |m0| == |m1|
    && forall a :: 0 <= a < |m0| && !InRow(c, a) ==> m1[a] == m0[a]
  }

  predicate InRow(c: Ctx, a: int) {
    c.P <= a < At(c.P, c.sec, c.N + 1) || c.S <= a < At(c.S, c.sec, c.N)
  }

  lemma OnlyRowsTrans(c: Ctx, m0: Bytes, m1: Bytes, m2: Bytes)
    requires OnlyRows(c, m0, m1) && OnlyRows(c, m1, m2)
    ensures OnlyRows(c, m0, m2)
  {
  }

  lemma Untouched(c: Ctx, m: Bytes)
    ensures OnlyRows(c, m, m)
  {
  }

  lemma InPrimary(c: Ctx, m0: Bytes, m1: Bytes, d: nat)
    requires d <= c.N && SameOutside(m0, m1, At(c.P, c.sec, d), At(c.P, c.sec, d) + c.sec)
    ensures OnlyRows(c, m0, m1)
  {
    AtApart(c.P, c.sec, d, c.N + 1);
    MulMono(0, d, c.sec);
  }

  lemma InSecondary(c: Ctx, m0: Bytes, m1: Bytes, d: nat)
    requires d < c.N && SameOutside(m0, m1, At(c.S, c.sec, d), At(c.S, c.sec, d) + c.sec)
    ensures OnlyRows(c, m0, m1)
  {
    AtApart(c.S, c.sec, d, c.N);
    MulMono(0, d, c.sec);
  }

  ghost function Primary(p: Platform, c: Ctx): (v: Sectors)
    reads p`mem
    requires p.Valid() && CtxOk(p.g, c)
    ensures |v| == c.N + 1
  {
    Row(p.mem, c.P, c.sec, c.N + 1)
  }

  ghost function Secondary(p: Platform, c: Ctx): (v: Sectors)
    reads p`mem
    requires p.Valid() && CtxOk(p.g, c)
    ensures |v| == c.N
  {
    Row(p.mem, c.S, c.sec, c.N)
  }

  /** A sector of either row, as a place an erase-and-copy may work on. */
  lemma SectorPlace(g: Geometry, m: Bytes, base: nat, sec: nat, n: nat, i: nat)
    requires WholeSectors(g, base, sec, n) && i < n && At(base, sec, n) <= g.total == |m|
    ensures base <= At(base, sec, i) && At(base, sec, i) + sec <= At(base, sec, n)
    ensures Row(m, base, sec, n)[i] == SectorAt(m, base, sec, i) == Slice(m, At(base, sec, i), sec)
    ensures Erasable(g, At(base, sec, i), At(base, sec, i) + sec)
    ensures EraseEnd(g, At(base, sec, i), At(base, sec, i) + sec) == At(base, sec, i) + sec
    ensures SectorCount(g, At(base, sec, i), At(base, sec, i) + sec) < MAX_ERASE_LOOPS
  {
    AtApart(base, sec, i, n);
    MulMono(0, i, sec);
    assert WholeAt(g, base, sec, i);
  }

  lemma OnlyPrimary(g: Geometry, m0: Bytes, m1: Bytes, c: Ctx, d: nat)
    requires CtxOk(g, c) && d <= c.N
    requires SameOutside(m0, m1, At(c.P, c.sec, d), At(c.P, c.sec, d) + c.sec)
    ensures Row(m1, c.S, c.sec, c.N) == Row(m0, c.S, c.sec, c.N)
    ensures Row(m1, c.P, c.sec, c.N + 1) == Row(m0, c.P, c.sec, c.N + 1)[d := SectorAt(m1, c.P, c.sec, d)]
  {
    AtApart(c.P, c.sec, d, c.N + 1);
    MulMono(0, d, c.sec);
    RowUpdate(m0, m1, c.P, c.sec, c.N + 1, d);
    RowKept(m0, m1, At(c.P, c.sec, d), At(c.P, c.sec, d) + c.sec, c.S, c.sec, c.N);
  }

  lemma OnlySecondary(g: Geometry, m0: Bytes, m1: Bytes, c: Ctx, d: nat)
    requires CtxOk(g, c) && d < c.N
    requires SameOutside(m0, m1, At(c.S, c.sec, d), At(c.S, c.sec, d) + c.sec)
    ensures Row(m1, c.P, c.sec, c.N + 1) == Row(m0, c.P, c.sec, c.N + 1)
    ensures Row(m1, c.S, c.sec, c.N) == Row(m0, c.S, c.sec, c.N)[d := SectorAt(m1, c.S, c.sec, d)]
  {
    AtApart(c.S, c.sec, d, c.N);
    MulMono(0, d, c.sec);
    RowUpdate(m0, m1, c.S, c.sec, c.N, d);
    RowKept(m0, m1, At(c.S, c.sec, d), At(c.S, c.sec, d) + c.sec, c.P, c.sec, c.N + 1);
  }

  /** sm_crc of a primary sector, and of a secondary one. */
  method PrimaryCrc(p: Platform, c: Ctx, i: nat) returns (crc: Checksum)
    requires p.Valid() && CtxOk(p.g, c) && i <= c.N
    ensures crc == Crc(Primary(p, c)[i])
  {
    SectorPlace(p.g, p.mem, c.P, c.sec, c.N + 1, i);
    crc := CrcOf(p.mem, At(c.P, c.sec, i), c.sec);
  }

  method SecondaryCrc(p: Platform, c: Ctx, i: nat) returns (crc: Checksum)
    requires p.Valid() && CtxOk(p.g, c) && i < c.N
    ensures crc == Crc(Secondary(p, c)[i])
  {
    SectorPlace(p.g, p.mem, c.S, c.sec, c.N, i);
    crc := CrcOf(p.mem, At(c.S, c.sec, i), c.sec);
  }

  /** sm_move_sector, primary sector i to primary sector i+1. */
  method MoveUp(p: Platform, c: Ctx, i: nat, arena: nat) returns (st: Status)
    requires p.Valid() && CtxOk(p.g, c) && arena > 0 && i < c.N
    modifies p`mem, p`cuts
    ensures p.Valid() && OnlyRows(c, old(p.mem), p.mem)
    ensures Secondary(p, c) == old(Secondary(p, c))
    ensures Primary(p, c) == old(Primary(p, c))[i+1 := Primary(p, c)[i+1]]
    ensures st == Ok || st == PowerCut
    ensures st == Ok ==> Primary(p, c)[i+1] == old(Primary(p, c)[i])
    ensures if st == PowerCut then p.cuts < old(p.cuts) else p.cuts == old(p.cuts)
  {
    AtApart(c.P, c.sec, i, i + 1);
    SectorPlace(p.g, p.mem, c.P, c.sec, c.N + 1, i);
    st := MoveOntoPrimary(p, c, At(c.P, c.sec, i), i + 1, arena);
  }

  /** sm_move_sector, secondary sector i to primary sector i. */
  method MoveDown(p: Platform, c: Ctx, i: nat, arena: nat) returns (st: Status)
    requires p.Valid() && CtxOk(p.g, c) && arena > 0 && i < c.N
    modifies p`mem, p`cuts
    ensures p.Valid() && OnlyRows(c, old(p.mem), p.mem)
    ensures Secondary(p, c) == old(Secondary(p, c))
    ensures Primary(p, c) == old(Primary(p, c))[i := Primary(p, c)[i]]
    ensures st == Ok || st == PowerCut
    ensures st == Ok ==> Primary(p, c)[i] == old(Secondary(p, c)[i])
    ensures if st == PowerCut then p.cuts < old(p.cuts) else p.cuts == old(p.cuts)
  {
    SectorPlace(p.g, p.mem, c.P, c.sec, c.N + 1, i);
    SectorPlace(p.g, p.mem, c.S, c.sec, c.N, i);
    st := MoveOntoPrimary(p, c, At(c.S, c.sec, i), i, arena);
  }

  /** sm_move_sector onto primary sector d, from a sector outside it. */
  method MoveOntoPrimary(p: Platform, c: Ctx, src: nat, d: nat, arena: nat) returns (st: Status)
    requires p.Valid() && CtxOk(p.g, c) && arena > 0 && d <= c.N && src + c.sec <= p.g.total
    requires src + c.sec <= At(c.P, c.sec, d) || At(c.P, c.sec, d) + c.sec <= src
    modifies p`mem, p`cuts
    ensures p.Valid() && OnlyRows(c, old(p.mem), p.mem)
    ensures Secondary(p, c) == old(Secondary(p, c))
    ensures Primary(p, c) == old(Primary(p, c))[d := Primary(p, c)[d]]
    ensures st == Ok || st == PowerCut
    ensures st == Ok ==> Primary(p, c)[d] == old(Slice(p.mem, src, c.sec))
    ensures if st == PowerCut then p.cuts < old(p.cuts) else p.cuts == old(p.cuts)
  {
    var dst := At(c.P, c.sec, d);
    SectorPlace(p.g, p.mem, c.P, c.sec, c.N + 1, d);
    assert Within(c.wl[0], dst, c.sec);
    st := EraseAndCopy(p, src, dst, c.sec, c.wl, arena);
    OnlyPrimary(p.g, old(p.mem), p.mem, c, d);
    InPrimary(c, old(p.mem), p.mem, d);
  }

  /** sm_move_sector onto secondary sector d, from a primary sector. */
  method MoveOntoSecondary(p: Platform, c: Ctx, i: nat, d: nat, arena: nat) returns (st: Status)
    requires p.Valid() && CtxOk(p.g, c) && arena > 0 && d < c.N && i <= c.N
    modifies p`mem, p`cuts
    ensures p.Valid() && OnlyRows(c, old(p.mem), p.mem)
    ensures Primary(p, c) == old(Primary(p, c))
    ensures Secondary(p, c) == old(Secondary(p, c))[d := Secondary(p, c)[d]]
    ensures st == Ok || st == PowerCut
    ensures st == Ok ==> Secondary(p, c)[d] == old(Primary(p, c)[i])
    ensures if st == PowerCut then p.cuts < old(p.cuts) else p.cuts == old(p.cuts)
  {
    var src, dst := At(c.P, c.sec, i), At(c.S, c.sec, d);
    SectorPlace(p.g, p.mem, c.P, c.sec, c.N + 1, i);
    SectorPlace(p.g, p.mem, c.S, c.sec, c.N, d);
    assert Within(c.wl[1], dst, c.sec);
    st := EraseAndCopy(p, src, dst, c.sec, c.wl, arena);
    OnlySecondary(p.g, old(p.mem), p.mem, c, d);
    InSecondary(c, old(p.mem), p.mem, d);
  }

  /** One round of PHASE MOVE: skip a step already done, else log it and do it. */
  method MoveIndex(p: Platform, c: Ctx, txn0: Txn, i: nat, arena: nat, ghost p0: Sectors, ghost s0: Sectors)
    returns (st: Status, txn: Txn)
    requires p.Valid() && CtxOk(p.g, c) && arena > 0 && i < c.N == |p0| == |s0|
    requires p.log.phase != SwapmoveSwap
    requires Moving(Primary(p, c), Secondary(p, c), p0, s0, i)
    requires Resumable(p.log, Primary(p, c), Secondary(p, c), p0, s0)
    modifies p
    ensures p.Valid() && p.log.phase != SwapmoveSwap && OnlyRows(c, old(p.mem), p.mem)
    ensures Resumable(p.log, Primary(p, c), Secondary(p, c), p0, s0)
    ensures st == Ok || st == PowerCut
    ensures st == Ok ==> Moving(Primary(p, c), Secondary(p, c), p0, s0, i - 1)
    ensures if st == PowerCut then p.cuts < old(p.cuts) else p.cuts == old(p.cuts)
  {
    txn := txn0;
    Untouched(c, p.mem);
    ghost var v, w := Primary(p, c), Secondary(p, c);
    var crcSrc := PrimaryCrc(p, c, i);
    var crcDst := PrimaryCrc(p, c, i + 1);
    if crcSrc == crcDst {   // step already done (resume)
      MoveStep(v, w, p0, s0, i, v[i]);
      return Ok, txn;
    }
    txn := txn.(phase := SwapmoveMove, chunk := i);
    st := p.Append(txn);
    if st != Ok { return; }
    st := MoveUp(p, c, i, arena);
    MoveStep(v, w, p0, s0, i, Primary(p, c)[i+1]);
  }

  /** PHASE MOVE: descending, one log entry before each destructive step. */
  method MovePhase(p: Platform, c: Ctx, txn0: Txn, first: nat, arena: nat, ghost p0: Sectors, ghost s0: Sectors)
    returns (st: Status, txn: Txn, guard: nat)
    requires p.Valid() && CtxOk(p.g, c) && arena > 0 && first < c.N == |p0| == |s0|
    requires p.log.phase != SwapmoveSwap
    requires Moving(Primary(p, c), Secondary(p, c), p0, s0, first)
    requires Resumable(p.log, Primary(p, c), Secondary(p, c), p0, s0)
    modifies p
    ensures p.Valid() && Resumable(p.log, Primary(p, c), Secondary(p, c), p0, s0)
    ensures OnlyRows(c, old(p.mem), p.mem)
    ensures st == Ok || st == PowerCut || (st == FlashHw && first + 1 > SM_MAX_LOOPS)
    ensures st == Ok ==> guard == first + 1 <= SM_MAX_LOOPS && Moving(Primary(p, c), Secondary(p, c), p0, s0, -1)
    ensures if st == PowerCut then p.cuts < old(p.cuts) else p.cuts == old(p.cuts)
  {
    Untouched(c, p.mem);
    var i: int := first;
    txn, guard := txn0, 0;
    while i >= 0
      invariant -1 <= i <= first && guard == first - i <= SM_MAX_LOOPS
      invariant p.Valid() && p.cuts == old(p.cuts) && p.log.phase != SwapmoveSwap
      invariant OnlyRows(c, old(p.mem), p.mem)
      invariant Moving(Primary(p, c), Secondary(p, c), p0, s0, i)
      invariant Resumable(p.log, Primary(p, c), Secondary(p, c), p0, s0)
    {
      guard := guard + 1;
      if guard > SM_MAX_LOOPS { return FlashHw, txn, guard; }
      ghost var m := p.mem;
      st, txn := MoveIndex(p, c, txn, i, arena, p0, s0);
      OnlyRowsTrans(c, old(p.mem), m, p.mem);
      if st != Ok { return; }
      i := i - 1;
    }
    st := Ok;
  }

  /** The two sub-steps at one index. */
  method SubSteps(p: Platform, c: Ctx, i: nat, cs: Checksum, cp: Checksum, arena: nat,
                   ghost p0: Sectors, ghost s0: Sectors) returns (st: Status)
    requires p.Valid() && CtxOk(p.g, c) && arena > 0 && i < c.N == |p0| == |s0|
    requires cs == Crc(s0[i]) && cp == Crc(p0[i])
    requires Swapping(Primary(p, c), Secondary(p, c), p0, s0, i)
    modifies p`mem, p`cuts
    ensures p.Valid() && Swapping(Primary(p, c), Secondary(p, c), p0, s0, i)
    ensures OnlyRows(c, old(p.mem), p.mem)
    ensures st == Ok || st == PowerCut
    ensures st == Ok ==> SwapDone(Primary(p, c), Secondary(p, c), p0, s0, i + 1)
    ensures if st == PowerCut then p.cuts < old(p.cuts) else p.cuts == old(p.cuts)
  {
    Untouched(c, p.mem);
    ghost var v, w := Primary(p, c), Secondary(p, c);
    var crcP := PrimaryCrc(p, c, i);
    if crcP != cs {   // (a) pending
      st := MoveDown(p, c, i, arena);
      SwapStepA(v, w, p0, s0, i, Primary(p, c)[i]);
      if st != Ok { return; }
    }
    v := Primary(p, c);
    ghost var m := p.mem;
    var crcS := SecondaryCrc(p, c, i);
    if crcS != cp {   // (b) pending
      st := MoveOntoSecondary(p, c, i + 1, i, arena);
      OnlyRowsTrans(c, old(p.mem), m, p.mem);
      SwapStepB(v, w, p0, s0, i, Secondary(p, c)[i]);
      if st != Ok { return; }
    } else {
      SwapStepB(v, w, p0, s0, i, w[i]);
    }
    st := Ok;
  }

  /** One round of PHASE SWAP: the two checksums come from the log entry of this
      index or are taken now and logged. */
  method SwapIndex(p: Platform, c: Ctx, txn0: Txn, i: nat, haveCrcs: bool, arena: nat,
                   ghost p0: Sectors, ghost s0: Sectors) returns (st: Status, txn: Txn)
    requires p.Valid() && CtxOk(p.g, c) && arena > 0 && i < c.N == |p0| == |s0|
    requires haveCrcs ==> txn0 == p.log && p.log.phase == SwapmoveSwap && p.log.chunk == i
    requires !haveCrcs ==> SwapDone(Primary(p, c), Secondary(p, c), p0, s0, i)
    requires Resumable(p.log, Primary(p, c), Secondary(p, c), p0, s0)
    modifies p
    ensures p.Valid() && Resumable(p.log, Primary(p, c), Secondary(p, c), p0, s0)
    ensures OnlyRows(c, old(p.mem), p.mem)
    ensures st == Ok || st == PowerCut
    ensures st == Ok ==> SwapDone(Primary(p, c), Secondary(p, c), p0, s0, i + 1)
    ensures if st == PowerCut then p.cuts < old(p.cuts) else p.cuts == old(p.cuts)
  {
    hide Row, CtxOk, Moving;
    Untouched(c, p.mem);
    txn := txn0;
    var cs, cp;
    if haveCrcs && txn.chunk == i {
      cs, cp := txn.aux0, txn.aux1;
    } else {
      SwapNext(Primary(p, c), Secondary(p, c), p0, s0, i);
      cs := SecondaryCrc(p, c, i);
      cp := PrimaryCrc(p, c, i + 1);
      txn := txn.(phase := SwapmoveSwap, aux0 := cs, aux1 := cp, chunk := i);
      st := p.Append(txn);
      if st != Ok { return; }
    }
    st := SubSteps(p, c, i, cs, cp, arena, p0, s0);
  }

  /** PHASE SWAP: ascending, one log entry per index. */
  method SwapPhase(p: Platform, c: Ctx, txn0: Txn, first: nat, guard0: nat, resumed: bool, arena: nat,
                   ghost p0: Sectors, ghost s0: Sectors)
    returns (st: Status, txn: Txn)
    requires p.Valid() && CtxOk(p.g, c) && arena > 0
    requires |p0| == c.N == |s0| && first <= c.N && guard0 <= SM_MAX_LOOPS
    requires resumed ==> txn0 == p.log && p.log.phase == SwapmoveSwap && first == p.log.chunk
    requires !resumed ==> first == 0 && SwapDone(Primary(p, c), Secondary(p, c), p0, s0, 0)
    requires Resumable(p.log, Primary(p, c), Secondary(p, c), p0, s0)
    modifies p
    ensures p.Valid() && Resumable(p.log, Primary(p, c), Secondary(p, c), p0, s0)
    ensures OnlyRows(c, old(p.mem), p.mem)
    ensures st == Ok || st == PowerCut || (st == FlashHw && guard0 + c.N - first > SM_MAX_LOOPS)
    ensures st == Ok ==> guard0 + c.N - first <= SM_MAX_LOOPS && Exchanged(Primary(p, c), Secondary(p, c), p0, s0)
    ensures if st == PowerCut then p.cuts < old(p.cuts) else p.cuts == old(p.cuts)
  {
    Untouched(c, p.mem);
    var i, guard, haveCrcs := first, guard0, resumed;
    txn := txn0;
    while i < c.N
      invariant first <= i <= c.N && guard == guard0 + i - first <= SM_MAX_LOOPS
      invariant p.Valid() && p.cuts == old(p.cuts) && OnlyRows(c, old(p.mem), p.mem)
      invariant Resumable(p.log, Primary(p, c), Secondary(p, c), p0, s0)
      invariant haveCrcs ==> txn == p.log && p.log.phase == SwapmoveSwap && p.log.chunk == i < c.N
      invariant !haveCrcs ==> SwapDone(Primary(p, c), Secondary(p, c), p0, s0, i)
    {
      guard := guard + 1;
      if guard > SM_MAX_LOOPS { return FlashHw, txn; }
      ghost var m := p.mem;
      st, txn := SwapIndex(p, c, txn, i, haveCrcs, arena, p0, s0);
      OnlyRowsTrans(c, old(p.mem), m, p.mem);
      if st != Ok { return; }
      haveCrcs := false;
      i := i + 1;
    }
    SwapNext(Primary(p, c), Secondary(p, c), p0, s0, c.N);
    st := Ok;
  }

  function MakeCtx(g: Geometry, t: Slots): (c: Ctx)
    requires Accepts(g, t)
  {
    var sec := g.size(t.dest);
    Ctx(t.dest, t.src, sec, Count(t, sec), [Region(t.dest, t.destSize), Region(t.src, t.srcSize)])
  }

  /** The log entry that closes a finished exchange. */
  ghost predicate Closed(log: Txn, length: nat) {
    log.phase == NoPhase && log.aux0 == Cleared && log.aux1 == Cleared && log.chunk == length
  }

  /** Where an apply of the exchange stands when it returns. */
  ghost predicate Outcome(p: Platform, c: Ctx, length: nat, st: Status, recorded: bool, p0: Sectors, s0: Sectors)
    reads p`mem, p`log
    requires p.Valid() && CtxOk(p.g, c)
  {
    && (st == Ok || st == PowerCut || (st == FlashHw && 2 * c.N > SM_MAX_LOOPS))
    && (st == Ok ==> recorded) && (recorded ==> st == Ok || st == PowerCut)
    && (if recorded
        then Closed(p.log, length) && Exchanged(Primary(p, c), Secondary(p, c), p0, s0)
        else Resumable(p.log, Primary(p, c), Secondary(p, c), p0, s0))
  }

  /** The rounds that are left after the newest entry. */
  function RoundsLeft(log: Txn, n: nat): int {
    match log.phase
    case SwapmoveSwap => n - log.chunk
    case SwapmoveMove => log.chunk + 1 + n
    case _ => 2 * n
  }

  /** The body of swapmove_apply past its gates. */
  method Exchange(p: Platform, c: Ctx, length: nat, arena: nat, ghost p0: Sectors, ghost s0: Sectors)
    returns (st: Status, ghost recorded: bool)
    requires p.Valid() && CtxOk(p.g, c) && arena > 0 && 0 < c.N == |p0| == |s0|
    requires Resumable(p.log, Primary(p, c), Secondary(p, c), p0, s0)
    modifies p
    ensures p.Valid() && Outcome(p, c, length, st, recorded, p0, s0) && OnlyRows(c, old(p.mem), p.mem)
    ensures st == Ok ==> old(RoundsLeft(p.log, c.N)) <= SM_MAX_LOOPS
    ensures st == FlashHw ==> old(RoundsLeft(p.log, c.N)) > SM_MAX_LOOPS
    ensures if st == PowerCut then p.cuts < old(p.cuts) else p.cuts == old(p.cuts)
  {
    recorded := false;
    Untouched(c, p.mem);
    var txn := p.log;
    var inSwap := txn.phase == SwapmoveSwap;
    var inMove := txn.phase == SwapmoveMove;
    var guard := 0;
    if !inSwap {
      var i := if inMove then txn.chunk else c.N - 1;
      if i > c.N - 1 { i := c.N - 1; }
      st, txn, guard := MovePhase(p, c, txn, i, arena, p0, s0);
      if st != Ok { return; }
      MoveToSwap(Primary(p, c), Secondary(p, c), p0, s0);
    }
    ghost var m := p.mem;
    st, txn := SwapPhase(p, c, txn, if inSwap then txn.chunk else 0, guard, inSwap, arena, p0, s0);
    OnlyRowsTrans(c, old(p.mem), m, p.mem);
    if st != Ok { return; }
    txn := txn.(phase := NoPhase, aux0 := Cleared, aux1 := Cleared, chunk := length);
    ghost var before := p.log;
    st := p.Append(txn);
    recorded := st == Ok || (p.log == txn && p.log != before);
  }

  /** swapmove_apply, re-entered with the newest log entry.  p0 and s0 are the images
      being exchanged.  `recorded` says that the closing entry reached the log. */
  method Apply(p: Platform, t: Slots, arena: nat, ghost p0: Sectors, ghost s0: Sectors)
    returns (st: Status, ghost recorded: bool)
    requires p.Valid() && Configured(p.g, t)
    requires Accepts(p.g, t) ==>
               var c := MakeCtx(p.g, t);
               |p0| == |s0| == c.N && Resumable(p.log, Primary(p, c), Secondary(p, c), p0, s0)
    modifies p
    ensures p.Valid()
    ensures arena < 512 || t.length == 0 || !t.verified || !Accepts(p.g, t) ==>
              p.mem == old(p.mem) && p.log == old(p.log) && p.cuts == old(p.cuts) && !recorded
    ensures arena < 512 ==> st == InvalidArg
    ensures arena >= 512 && t.length == 0 ==> st == Ok
    ensures arena >= 512 && t.length > 0 && !t.verified ==> st == VerifyFailed
    ensures arena >= 512 && t.length > 0 && t.verified && !SameGeometry(p.g, t) ==> st == NotSupported
    ensures arena >= 512 && t.length > 0 && t.verified && SameGeometry(p.g, t) && !SpareFits(p.g, t) ==>
            st == FlashBounds
    ensures arena >= 512 && t.length > 0 && t.verified && Accepts(p.g, t) ==>
              && Outcome(p, MakeCtx(p.g, t), t.length, st, recorded, p0, s0)
              && OnlyRows(MakeCtx(p.g, t), old(p.mem), p.mem)
              && (st == Ok ==> old(RoundsLeft(p.log, MakeCtx(p.g, t).N)) <= SM_MAX_LOOPS)
              && (st == FlashHw ==> old(RoundsLeft(p.log, MakeCtx(p.g, t).N)) > SM_MAX_LOOPS)
              && (if st == PowerCut then p.cuts < old(p.cuts) else p.cuts == old(p.cuts))
  {
    if arena < 512 { return InvalidArg, false; }
    if t.length == 0 { return Ok, false; }
    if !t.verified { return VerifyFailed, false; }
    if !SameGeometry(p.g, t) { return NotSupported, false; }
    if !SpareFits(p.g, t) { return FlashBounds, false; }
    st, recorded := Exchange(p, MakeCtx(p.g, t), t.length, arena, p0, s0);
  }

  /** p0 and s0 are the images still to be exchanged after k completed exchanges. */
  ghost predicate Pending(k: nat, p0: Sectors, s0: Sectors, pOld: Sectors, sOld: Sectors) {
    && |p0| == |s0| == |sOld| && |pOld| == |p0| + 1
    && if k % 2 == 0 then p0 == pOld[..|p0|] && s0 == sOld else s0 == pOld[..|p0|] && p0 == sOld
  }

  /** The images after k completed exchanges, spare sector aside. */
  ghost predicate ExchangedTimes(k: nat, p: Sectors, s: Sectors, pOld: Sectors, sOld: Sectors) {
    && |p| == |pOld| == |s| + 1 == |sOld| + 1
    && (if k % 2 == 1 then p[..|s|] == sOld && s == pOld[..|s|] else p[..|s|] == pOld[..|s|] && s == sOld)
  }

  /** A run that starts from a closing entry exchanges the images back. */
  lemma Reopened(k: nat, log: Txn, length: nat, p: Sectors, s: Sectors, p0: Sectors, s0: Sectors, pOld: Sectors,
                 sOld: Sectors)
    requires Pending(k, p0, s0, pOld, sOld) && Closed(log, length) && Exchanged(p, s, p0, s0)
    ensures Pending(k + 1, s0, p0, pOld, sOld) && Resumable(log, p, s, s0, p0)
    ensures ExchangedTimes(k + 1, p, s, pOld, sOld)
  {
    forall j | 0 <= j < |s0| ensures p[j] == s0[j] { assert p[j] == p[..|p0|][j]; }
  }

  /** Call swapmove_apply again after every power cut, each time with the newest log
      entry, until a call returns.  Each closing entry that reached the log stands
      for one completed exchange: with exactly one, the primary holds the old
      secondary and the secondary the old primary.  A cut between the closing entry
      and the return makes the next call exchange the images back. */
  method RunToCompletion(p: Platform, t: Slots, arena: nat) returns (st: Status, ghost closings: nat)
    requires p.Valid() && arena >= 512 && Configured(p.g, t)
    requires t.length > 0 && t.verified && Accepts(p.g, t)
    requires p.log.phase != SwapmoveMove && p.log.phase != SwapmoveSwap
    modifies p
    ensures p.Valid() && OnlyRows(MakeCtx(p.g, t), old(p.mem), p.mem)
    ensures st == Ok || (st == FlashHw && 2 * MakeCtx(p.g, t).N > SM_MAX_LOOPS)
    ensures st == Ok ==> 0 < closings <= 1 + old(p.cuts) - p.cuts
    ensures st == Ok ==> ExchangedTimes(closings,
                           Primary(p, MakeCtx(p.g, t)), Secondary(p, MakeCtx(p.g, t)),
                           old(Primary(p, MakeCtx(p.g, t))), old(Secondary(p, MakeCtx(p.g, t))))
  {
    ghost var c := MakeCtx(p.g, t);
    ghost var pOld, sOld := Primary(p, c), Secondary(p, c);
    ghost var p0, s0 := pOld[..c.N], sOld;
    ghost var recorded;
    closings := 0;
    Untouched(c, p.mem);
    while true
      invariant p.Valid() && |s0| == c.N && Pending(closings, p0, s0, pOld, sOld)
      invariant closings <= old(p.cuts) - p.cuts && OnlyRows(c, old(p.mem), p.mem)
      invariant Resumable(p.log, Primary(p, c), Secondary(p, c), p0, s0)
      decreases p.cuts
    {
      ghost var m := p.mem;
      st, recorded := Apply(p, t, arena, p0, s0);
      OnlyRowsTrans(c, old(p.mem), m, p.mem);
      if recorded {
        Reopened(closings, p.log, t.length, Primary(p, c), Secondary(p, c), p0, s0, pOld, sOld);
        closings, p0, s0 := closings + 1, s0, p0;
      }
      if st != PowerCut { return; }
    }
  }
}
