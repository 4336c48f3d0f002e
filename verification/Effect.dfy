/** The erase/copy engine under every transport (toobloader/core/boot_effect.c
    and the tracked erase of toobloader/core/boot_swap.c). */
module EffectEngine {
  import opened FlashModel

  datatype Effect =
    | Erase(dst: nat, len: nat, post: Checksum)
    | Copy(src: nat, dst: nat, len: nat, post: Checksum)

  const MAX_ERASE_LOOPS: nat := 100000

  datatype Region = Region(base: nat, size: nat)

  predicate Within(r: Region, a: nat, n: nat) {
    r.base <= a && a + n <= r.base + r.size
  }

  predicate Allowed(wl: seq<Region>, a: nat, n: nat) {
    exists w :: 0 <= w < |wl| && Within(wl[w], a, n)
  }

  predicate InRegion(r: Region, x: int) {
    r.base <= x < r.base + r.size
  }

  ghost predicate HoldsAll(r: Region, a: nat, n: nat) {
    forall x :: a <= x < a + n ==> InRegion(r, x)
  }

  /** A place is allowed if and only if one region holds all of its bytes. */
  lemma AllowedExactly(wl: seq<Region>, a: nat, n: nat)
    requires n > 0
    ensures Allowed(wl, a, n) <==> exists w :: 0 <= w < |wl| && HoldsAll(wl[w], a, n)
  {
    forall r: Region ensures Within(r, a, n) <==> HoldsAll(r, a, n) {
      assert HoldsAll(r, a, n) ==> InRegion(r, a) && InRegion(r, a + n - 1);
    }
  }

  /** A read of n bytes into a buffer of `room`. */
  function ReadInto(m: Bytes, a: nat, n: nat, room: nat): (buf: Bytes)
    requires a + n <= |m| && n <= room
    ensures |buf| == n && forall k :: 0 <= k < n ==> buf[k] == m[a + k]
  {
    Slice(m, a, n)
  }

  /** boot_crc32_flash_stream */
  function CrcOf(m: Bytes, a: nat, n: nat): (c: Checksum)
    requires a + n <= |m|
    ensures c.Crc?
  {
    Crc(Slice(m, a, n))
  }

  /** boot_effect_compute_erased_crc */
  function ErasedCrc(n: nat): (c: Checksum)
    ensures c.Crc?
  {
    Crc(Blank(n))
  }

  lemma ErasedCrcMeans(m: Bytes, a: nat, n: nat)
    requires a + n <= |m|
    ensures CrcOf(m, a, n) == ErasedCrc(n) <==> AllErased(m, a, a + n)
  {
    if AllErased(m, a, a + n) {
      assert Slice(m, a, n) == Blank(n);
    }
    if CrcOf(m, a, n) == ErasedCrc(n) {
      forall x | 0 <= x < |m| && a <= x < a + n ensures m[x] == ERASED {
        assert m[x] == Slice(m, a, n)[x - a];
      }
    }
  }

  /** The bytes an effect may change.  An erase works on whole sectors. */
  ghost function Reach(p: Platform, e: Effect): (hi: nat) {
    if e.Erase? then EraseEnd(p.g, e.dst, e.dst + e.len) else e.dst + e.len
  }

  /** What an effect leaves behind, whether it ran or was skipped as already done. */
  ghost predicate Done(p: Platform, e: Effect, m0: Bytes, m1: Bytes) {
    && SameOutside(m0, m1, e.dst, Reach(p, e))
    && e.dst + e.len <= |m1| && CrcOf(m1, e.dst, e.len) == e.post
  }

  /** What a power cut inside an effect leaves behind. */
  ghost predicate Torn(p: Platform, e: Effect, m0: Bytes, m1: Bytes) {
    SameOutside(m0, m1, e.dst, Reach(p, e))
  }

  /** Byte a is within reach of an effect that the whitelist allows. */
  ghost predicate Licensed(p: Platform, wl: seq<Region>, e: Effect, a: int) {
    Allowed(wl, e.dst, e.len) && e.dst <= a < Reach(p, e)
  }

  /** Flash changed only within reach of allowed effects of the plan. */
  ghost predicate ByEffects(p: Platform, fx: seq<Effect>, wl: seq<Region>, m0: Bytes, m1: Bytes) {
    && |m0| == |m1|
    && forall a :: 0 <= a < |m0| && m0[a] != m1[a] ==> exists i :: 0 <= i < |fx| && Licensed(p, wl, fx[i], a)
  }

  /** A plan is a list of erase-then-copy pairs: each erase aims at the erased
      checksum, each copy lands on what the erase before it cleared, and reads
      from elsewhere. */
  ghost predicate PlanOk(p: Platform, fx: seq<Effect>) {
    forall i :: 0 <= i < |fx| ==> EffectOk(p, fx, i)
  }

  ghost predicate EffectOk(p: Platform, fx: seq<Effect>, i: int)
    requires 0 <= i < |fx|
  {
    var e := fx[i];
    && e.dst + e.len <= p.g.total && Erasable(p.g, e.dst, e.dst + e.len)
    && match e
       case Erase(_, len, post) => post == ErasedCrc(len)
       case Copy(src, dst, len, _) =>
         && 0 < i && fx[i-1] == Erase(dst, len, ErasedCrc(len))
         && src + len <= p.g.total && (src + len <= dst || dst + len <= src)
  }

  /** The memory images a run went through: one before each effect it completed,
      and one after the last. */
  ghost predicate Trace(p: Platform, fx: seq<Effect>, trace: seq<Bytes>) {
    && 1 <= |trace| <= |fx| + 1
    && (forall i :: 0 <= i < |trace| ==> |trace[i]| == p.g.total)
    && (forall i :: 0 <= i < |trace| - 1 ==> EffectOk(p, fx, i) && Done(p, fx[i], trace[i], trace[i+1]))
  }

  /** The run stopped inside effect i, which it entered on image m. */
  ghost predicate StoppedIn(p: Platform, fx: seq<Effect>, i: int, m: Bytes, m': Bytes)
    requires 0 <= i < |fx|
  {
    EffectOk(p, fx, i) && Torn(p, fx[i], m, m')
  }

  /** An erase that trips the loop guard. */
  ghost predicate TooManySectors(p: Platform, e: Effect) {
    SectorCount(p.g, e.dst, e.dst + e.len) >= MAX_ERASE_LOOPS
  }

  /** A copy whose source does not have the content the plan expects. */
  ghost predicate SourceLost(p: Platform, fx: seq<Effect>, i: int, m: Bytes)
    requires 0 <= i < |fx|
  {
    EffectOk(p, fx, i) && |m| == p.g.total && fx[i].Copy? && CrcOf(m, fx[i].src, fx[i].len) != fx[i].post
  }

  /** The scan of _boot_swap_erase_tracked, in arena-sized reads. */
  method IsErased(p: Platform, a: nat, n: nat, arena: nat) returns (erased: bool)
    requires p.Valid() && a + n <= p.g.total && arena > 0
    ensures erased <==> AllErased(p.mem, a, a + n)
  {
    var off := 0;
    erased := true;
    while off < n
      invariant 0 <= off <= n
      invariant erased <==> AllErased(p.mem, a, a + off)
    {
      var step := if n - off > arena then arena else n - off;
      var chunk := ReadInto(p.mem, a + off, step, arena);
      if chunk != Blank(step) {
        var k :| 0 <= k < step && chunk[k] != ERASED;
        assert p.mem[a + off + k] != ERASED;
        erased := false;
      } else {
        forall x | 0 <= x < |p.mem| && a + off <= x < a + off + step ensures p.mem[x] == ERASED {
          assert p.mem[x] == chunk[x - (a + off)];
        }
      }
      off := off + step;
    }
  }

  /** The sectors of [cur, end) that are not blank. */
  ghost function Dirty(g: Geometry, m: Bytes, cur: nat, end: nat): nat
    decreases end - cur
  {
    if cur >= end || g.size(cur) == 0 then 0
    else (if AllErased(m, cur, cur + g.size(cur)) then 0 else 1) + Dirty(g, m, cur + g.size(cur), end)
  }

  /** _boot_swap_erase_tracked: erase every sector that covers [a, a+n), skipping
      sectors that are already blank. */
  method EraseTracked(p: Platform, a: nat, n: nat, arena: nat) returns (st: Status, erases: nat)
    requires p.Valid() && a + n <= p.g.total && Erasable(p.g, a, a + n) && arena > 0
    modifies p`mem, p`cuts
    ensures p.Valid()
    ensures st == Ok || st == PowerCut || (st == FlashHw && SectorCount(p.g, a, a + n) >= MAX_ERASE_LOOPS)
    ensures SameOutside(old(p.mem), p.mem, a, EraseEnd(p.g, a, a + n))
    ensures st == Ok ==> AllErased(p.mem, a, a + n) && erases == Dirty(p.g, old(p.mem), a, a + n)
    ensures st == Ok ==> SectorCount(p.g, a, a + n) < MAX_ERASE_LOOPS
    ensures old(Dirty(p.g, p.mem, a, a + n)) == 0 ==> st != PowerCut && p.mem == old(p.mem)
    ensures if st == PowerCut then p.cuts < old(p.cuts) else p.cuts == old(p.cuts)
  {
    var cur, end := a, a + n;
    ghost var stop := EraseEnd(p.g, a, end);
    var guard := 0;
    erases := 0;
    while cur < end
      invariant a <= cur <= stop && 0 <= guard < MAX_ERASE_LOOPS
      invariant guard + SectorCount(p.g, cur, end) == SectorCount(p.g, a, end)
      invariant EraseEnd(p.g, cur, end) == stop && Erasable(p.g, cur, end)
      invariant p.Valid() && p.cuts == old(p.cuts)
      invariant SameOutside(old(p.mem), p.mem, a, stop) && AllErased(p.mem, a, cur)
      invariant erases + Dirty(p.g, old(p.mem), cur, end) == Dirty(p.g, old(p.mem), a, end)
      invariant SameOutside(old(p.mem), p.mem, a, cur) && (erases == 0 ==> p.mem == old(p.mem))
      decreases end - cur
    {
      guard := guard + 1;
      if guard >= MAX_ERASE_LOOPS { return FlashHw, erases; }
      var sec := p.g.size(cur);
      var blank := IsErased(p, cur, sec, arena);
      if !blank {
        ghost var m := p.mem;
        st := p.EraseSector(cur);
        assert SameOutside(old(p.mem), p.mem, a, stop) by {
          assert SameOutside(m, p.mem, a, stop);
          SameOutsideTrans(old(p.mem), m, p.mem, a, stop);
        }
        if st != Ok { return; }
        erases := erases + 1;
      }
      cur := cur + sec;
    }
    return Ok, erases;
  }

  /** stream_copy: arena-sized reads and writes in ascending order. */
  method StreamCopy(p: Platform, src: nat, dst: nat, n: nat, arena: nat) returns (st: Status)
    requires p.Valid() && src + n <= p.g.total && dst + n <= p.g.total && arena > 0
    requires src + n <= dst || dst + n <= src
    requires AllErased(p.mem, dst, dst + n)
    modifies p`mem, p`cuts
    ensures p.Valid()
    ensures st == Ok || st == PowerCut
    ensures SameOutside(old(p.mem), p.mem, dst, dst + n)
    ensures st == Ok ==> Slice(p.mem, dst, n) == Slice(old(p.mem), src, n)
    ensures if st == PowerCut then p.cuts < old(p.cuts) else p.cuts == old(p.cuts)
  {
    var off := 0;
    while off < n
      invariant 0 <= off <= n
      invariant p.Valid() && p.cuts == old(p.cuts)
      invariant SameOutside(old(p.mem), p.mem, dst, dst + off)
      invariant forall x :: dst <= x < dst + off ==> p.mem[x] == old(p.mem)[x - dst + src]
    {
      var step := if n - off > arena then arena else n - off;
      var buf := ReadInto(p.mem, src + off, step, arena);
      ghost var m := p.mem;
      st := p.Program(dst + off, buf);
      if st != Ok { return; }
      forall x | dst + off <= x < dst + off + step ensures p.mem[x] == old(p.mem)[x - dst + src] {
        assert p.mem[x] == Slice(p.mem, dst + off, step)[x - (dst + off)];
      }
      off := off + step;
    }
    return Ok;
  }

  /** One round of the loop of boot_effect_execute: whitelist, skip what is already
      in its target state, run, read back. */
  method RunEffect(p: Platform, fx: seq<Effect>, i: nat, wl: seq<Region>, arena: nat) returns (st: Status)
    requires p.Valid() && i < |fx| && EffectOk(p, fx, i) && arena > 0
    requires fx[i].Copy? ==> CrcOf(p.mem, fx[i].dst, fx[i].len) == ErasedCrc(fx[i].len)
    modifies p`mem, p`cuts
    ensures p.Valid()
    ensures if st == PowerCut then p.cuts < old(p.cuts) else p.cuts == old(p.cuts)
    ensures st == Ok || st == PowerCut || st == FlashBounds || st == FlashHw
    ensures st == Ok ==> Done(p, fx[i], old(p.mem), p.mem)
    ensures st != Ok ==> StoppedIn(p, fx, i, old(p.mem), p.mem)
    ensures st == FlashBounds <==> !Allowed(wl, fx[i].dst, fx[i].len)
    ensures st == FlashBounds ==> p.mem == old(p.mem)
    ensures st == FlashHw ==> TooManySectors(p, fx[i]) || SourceLost(p, fx, i, old(p.mem))
    ensures old(CrcOf(p.mem, fx[i].dst, fx[i].len)) == fx[i].post ==> st != PowerCut && p.mem == old(p.mem)
    ensures fx[i].Erase? && TooManySectors(p, fx[i]) && old(CrcOf(p.mem, fx[i].dst, fx[i].len)) != fx[i].post ==>
              st != Ok
  {
    var e := fx[i];
    if !Allowed(wl, e.dst, e.len) { return FlashBounds; }
    if CrcOf(p.mem, e.dst, e.len) == e.post { return Ok; }
    ErasedCrcMeans(p.mem, e.dst, e.len);
    match e {
      case Erase(dst, len, post) =>
        var n;
        st, n := EraseTracked(p, dst, len, arena);
      case Copy(src, dst, len, post) =>
        st := StreamCopy(p, src, dst, len, arena);
    }
    if st != Ok { return; }
    ErasedCrcMeans(p.mem, e.dst, e.len);
    if CrcOf(p.mem, e.dst, e.len) != e.post { return FlashHw; }
  }

  /** boot_effect_execute.  It says how far the run got and what each completed
      effect left; a run that ends in success has completed the whole plan.  An effect
      that the whitelist does not allow is refused and changes nothing. */
  method Execute(p: Platform, fx: seq<Effect>, wl: seq<Region>, arena: nat)
    returns (st: Status, ghost trace: seq<Bytes>)
    requires p.Valid() && PlanOk(p, fx) && arena > 0
    modifies p`mem, p`cuts
    ensures p.Valid() && Trace(p, fx, trace)
    ensures trace[0] == old(p.mem)
    ensures if st == PowerCut then p.cuts < old(p.cuts) else p.cuts == old(p.cuts)
    ensures st == Ok ==> |trace| == |fx| + 1 && p.mem == trace[|fx|]
    ensures st == Ok || st == PowerCut || st == FlashBounds || st == FlashHw
    ensures st != Ok ==> |trace| <= |fx| && StoppedIn(p, fx, |trace| - 1, trace[|trace|-1], p.mem)
    ensures forall i :: 0 <= i < |trace| - 1 ==> Allowed(wl, fx[i].dst, fx[i].len)
    ensures st != Ok ==> (st == FlashBounds <==> !Allowed(wl, fx[|trace|-1].dst, fx[|trace|-1].len))
    ensures st == FlashBounds ==> p.mem == trace[|trace|-1]
    ensures ByEffects(p, fx, wl, old(p.mem), p.mem)
    ensures st == FlashHw ==> TooManySectors(p, fx[|trace|-1]) || SourceLost(p, fx, |trace| - 1, trace[|trace|-1])
  {
    trace := [p.mem];
    for i := 0 to |fx|
      invariant p.Valid() && p.cuts == old(p.cuts)
      invariant Trace(p, fx, trace) && |trace| == i + 1
      invariant trace[0] == old(p.mem) && trace[i] == p.mem
      invariant forall j :: 0 <= j < i ==> Allowed(wl, fx[j].dst, fx[j].len)
      invariant ByEffects(p, fx, wl, old(p.mem), p.mem)
    {
      assert EffectOk(p, fx, i);
      if fx[i].Copy? { assert Done(p, fx[i-1], trace[i-1], trace[i]); }
      ghost var m := p.mem;
      st := RunEffect(p, fx, i, wl, arena);
      OneMoreEffect(p, fx, wl, old(p.mem), m, p.mem, i);
      if st != Ok { return; }
      trace := trace + [p.mem];
    }
    return Ok, trace;
  }

  lemma OneMoreEffect(p: Platform, fx: seq<Effect>, wl: seq<Region>, m0: Bytes, m1: Bytes, m2: Bytes, i: nat)
    requires i < |fx| && ByEffects(p, fx, wl, m0, m1) && |m1| == |m2|
    requires m1 == m2 || (SameOutside(m1, m2, fx[i].dst, Reach(p, fx[i])) && Allowed(wl, fx[i].dst, fx[i].len))
    ensures ByEffects(p, fx, wl, m0, m2)
  {
    hide Allowed, Reach;
    if m1 != m2 {
      forall a | 0 <= a < |m0| && m0[a] != m2[a] ensures exists j :: 0 <= j < |fx| && Licensed(p, wl, fx[j], a) {
        if m1[a] != m2[a] { assert Licensed(p, wl, fx[i], a); } else { assert m0[a] != m1[a]; }
      }
    }
  }

  function Pair(src: nat, dst: nat, n: nat, post: Checksum): (fx: seq<Effect>)
    ensures |fx| == 2
  {
    [Erase(dst, n, ErasedCrc(n)), Copy(src, dst, n, post)]
  }

  /** Erase [dst, dst+n) and copy [src, src+n) there: the plan of sm_move_sector and
      of the one-way block copy.  Cut anywhere and started again, it never touches
      its source, and success means the destination equals the source. */
  method EraseAndCopy(p: Platform, src: nat, dst: nat, n: nat, wl: seq<Region>, arena: nat) returns (st: Status)
    requires p.Valid() && arena > 0
    requires src + n <= p.g.total && dst + n <= p.g.total && Erasable(p.g, dst, dst + n)
    requires src + n <= dst || EraseEnd(p.g, dst, dst + n) <= src
    modifies p`mem, p`cuts
    ensures p.Valid()
    ensures SameOutside(old(p.mem), p.mem, dst, EraseEnd(p.g, dst, dst + n))
    ensures if st == PowerCut then p.cuts < old(p.cuts) else p.cuts == old(p.cuts)
    ensures st == Ok || st == PowerCut
            || (st == FlashBounds && !Allowed(wl, dst, n))
              || (st == FlashHw && SectorCount(p.g, dst, dst + n) >= MAX_ERASE_LOOPS)
    ensures st == Ok ==> Slice(p.mem, dst, n) == Slice(old(p.mem), src, n)
    ensures !Allowed(wl, dst, n) ==> st == FlashBounds && p.mem == old(p.mem)
  {
    var post := CrcOf(p.mem, src, n);
    var fx := Pair(src, dst, n, post);
    ghost var m0, trace := p.mem, [];
    ErasableMeans(p.g, dst, dst + n);
    assert EffectOk(p, fx, 0) && EffectOk(p, fx, 1);
    st, trace := Execute(p, fx, wl, arena);
    ghost var stop := EraseEnd(p.g, dst, dst + n);
    if |trace| >= 2 {
      assert Done(p, fx[0], trace[0], trace[1]);
      SliceKept(m0, trace[1], dst, stop, src, n);
    }
    if |trace| == 3 {
      assert Done(p, fx[1], trace[1], trace[2]);
    }
  }

  /** blocks_identical: compare two blocks through the two halves of the arena. */
  method BlocksIdentical(p: Platform, a: nat, b: nat, n: nat, arena: nat, half: nat) returns (same: bool)
    requires p.Valid() && a + n <= p.g.total && b + n <= p.g.total && 0 < half && 2 * half <= arena
    ensures same <==> Slice(p.mem, a, n) == Slice(p.mem, b, n)
  {
    var off := 0;
    while off < n
      invariant 0 <= off <= n
      invariant forall i :: 0 <= i < off ==> Slice(p.mem, a, n)[i] == Slice(p.mem, b, n)[i]
    {
      var step := if n - off > half then half else n - off;
      var x, y := ReadInto(p.mem, a + off, step, half), ReadInto(p.mem, b + off, step, arena - half);
      if x != y {
        var k :| 0 <= k < step && x[k] != y[k];
        assert Slice(p.mem, a, n)[off + k] != Slice(p.mem, b, n)[off + k];
        return false;
      }
      forall i | off <= i < off + step ensures Slice(p.mem, a, n)[i] == Slice(p.mem, b, n)[i] {
        assert x[i - off] == y[i - off];
      }
      off := off + step;
    }
    return true;
  }
}
