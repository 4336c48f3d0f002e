/** The OTA stream writer of the operating system library: chunks of any size through
    an alignment buffer into the staging slot (sdk/libtoob/toob_ota.c). */
module Ota {
  import opened FlashModel
  import opened Wrappers

  const TOOB_OTA_BUF_SIZE: nat := 256

  datatype State = Idle | Receiving | Complete | Failed

  class Writer {
    const p: Platform
    const base: nat            // CHIP_STAGING_SLOT_ABS_ADDR
    const slotSize: nat        // CHIP_STAGING_SLOT_SIZE
    const maxSector: nat       // CHIP_FLASH_MAX_SECTOR_SIZE
    const align: nat           // CHIP_FLASH_WRITE_ALIGNMENT
    const buf: array<Byte>     // align_buf

    var state: State
    var bufLen: nat
    var queued: nat            // bytes_queued
    var cursor: nat            // write_cursor
    var total: nat             // total_size
    var wanted: Option<Checksum>   // expected_sha256, if the transfer is verified
    var hashed: Bytes          // what sha_ctx has been fed

    ghost var payload: Bytes   // the bytes received so far
    ghost var room: nat        // how much of the slot has been erased

    /** What the build asserts: the buffer is a multiple of the alignment, and the slot
        begins on a sector and is made of whole sectors, which are too. */
    ghost predicate Built()
      reads this, p, buf
    {
      && p.Valid() && buf.Length == TOOB_OTA_BUF_SIZE && Al(TOOB_OTA_BUF_SIZE, align)
      && base + slotSize <= p.g.total && maxSector > 0 && Al(maxSector, align) && Al(slotSize, align)
      && Al(base, maxSector)
      && Tiling(p.g) && Boundary(p.g, base) && Boundary(p.g, base + slotSize)
    }

    ghost function Flushed(): int
      reads this
    {
      queued - bufLen
    }

    /** Bytes flushed plus bytes buffered are the bytes received. */
    ghost predicate Streaming()
      reads this, p, buf
    {
      && queued == |payload| <= total <= room <= slotSize && bufLen <= queued && bufLen <= TOOB_OTA_BUF_SIZE
      && cursor == base + Flushed() && PadUp(total, align) <= room
      && base + slotSize <= |p.mem| && buf.Length == TOOB_OTA_BUF_SIZE
      && Slice(p.mem, base, Flushed()) == payload[..Flushed()]
      && buf[..bufLen] == payload[Flushed()..]
      && AllErased(p.mem, cursor, base + room)
      && (forall i :: bufLen <= i < buf.Length ==> buf[i] == 0)
      && (wanted.Some? ==> hashed == payload)
    }

    ghost predicate Valid()
      reads this, p, buf
    {
      Built() && (state == Receiving || state == Complete ==>
        Streaming() && bufLen < TOOB_OTA_BUF_SIZE
        && (state == Complete ==> queued == total && (bufLen == 0 ==> OnGrid())))
    }

    /** The next write goes to an aligned place.  Only a resume can leave the grid. */
    ghost predicate OnGrid()
      reads this
    {
      Al(Flushed(), align)
    }

    /** toob_ota_ctx_init */
    constructor (p: Platform, base: nat, slotSize: nat, maxSector: nat, align: nat)
      requires p.Valid() && base + slotSize <= p.g.total && maxSector > 0
      requires Al(TOOB_OTA_BUF_SIZE, align) && Al(maxSector, align) && Al(slotSize, align) && Al(base, maxSector)
      requires Tiling(p.g) && Boundary(p.g, base) && Boundary(p.g, base + slotSize)
      ensures Valid() && state == Idle && fresh(buf) && this.p == p && this.base == base && this.align == align
      ensures this.slotSize == slotSize && this.maxSector == maxSector
      ensures forall i :: 0 <= i < buf.Length ==> buf[i] == 0
    {
      this.p, this.base, this.slotSize, this.maxSector, this.align := p, base, slotSize, maxSector, align;
      buf := new Byte[TOOB_OTA_BUF_SIZE](_ => 0);
      state, bufLen, queued, cursor, total, wanted, hashed := Idle, 0, 0, base, 0, None, [];
      payload, room := [], 0;
    }

    method ClearBuf()
      modifies buf
      ensures forall i :: 0 <= i < buf.Length ==> buf[i] == 0
    {
      for i := 0 to buf.Length
        invariant forall j :: 0 <= j < i ==> buf[j] == 0
      {
        buf[i] := 0;
      }
    }

    /** toob_os_flash_erase: every sector of [base, base + n), one after the other. */
    method Erase(n: nat) returns (st: Status)
      requires p.Valid() && Erasable(p.g, base, base + n)
      modifies p`mem, p`cuts
      ensures p.Valid() && SameOutside(old(p.mem), p.mem, base, EraseEnd(p.g, base, base + n))
      ensures st == Ok || st == PowerCut
      ensures st == Ok ==> AllErased(p.mem, base, base + n)
      ensures if st == PowerCut then p.cuts < old(p.cuts) else p.cuts == old(p.cuts)
    {
      var cur, end := base, base + n;
      ghost var stop := EraseEnd(p.g, base, end);
      while cur < end
        invariant base <= cur <= stop && EraseEnd(p.g, cur, end) == stop && Erasable(p.g, cur, end)
        invariant p.Valid() && p.cuts == old(p.cuts)
        invariant SameOutside(old(p.mem), p.mem, base, stop) && AllErased(p.mem, base, cur)
        decreases end - cur
      {
        ghost var m := p.mem;
        st := p.EraseSector(cur);
        SameOutsideTrans(old(p.mem), m, p.mem, base, stop);
        if st != Ok { return; }
        cur := cur + p.g.size(cur);
      }
      return Ok;
    }

    /** toob_ota_begin.  After a failed erase a context that was complete still says so,
        although its data is gone; every other context is still consistent. */
    method Begin(size: nat, digest: Option<Checksum>) returns (st: Status)
      requires Valid()
      modifies this, p`mem, p`cuts, buf
      ensures Built() && (st == Ok || old(state) != Complete ==> Valid())
      ensures size == 0 || size > slotSize || old(state) == Receiving ==>
              st == InvalidArg && state == old(state) && p.mem == old(p.mem)
      ensures st == Ok ==> state == Receiving && payload == [] && total == size && wanted == digest && OnGrid()
      ensures st == Ok || st == PowerCut || st == InvalidArg
      ensures st == InvalidArg ==> size == 0 || size > slotSize || old(state) == Receiving
      ensures if st == PowerCut then p.cuts < old(p.cuts) else p.cuts == old(p.cuts)
      ensures SameOutside(old(p.mem), p.mem, base, base + slotSize)
    {
      if size == 0 || size > slotSize { return InvalidArg; }
      if state == Receiving { return InvalidArg; }
      var eraseSize := PadUp(size, maxSector);
      if eraseSize > slotSize { eraseSize := slotSize; }
      EraseFits(size, eraseSize);
      hide Tiling, Boundary, PadUp, Erasable, Al;
      st := Erase(eraseSize);
      if st != Ok { return; }
      hide SameOutside, AllErased;
      Start(size, digest, eraseSize);
    }

    /** A clean context on a slot of which `erased` bytes are blank. */
    method Start(size: nat, digest: Option<Checksum>, ghost erased: nat)
      requires Built() && size <= erased <= slotSize && PadUp(size, align) <= erased
               && AllErased(p.mem, base, base + erased)
      requires size > 0
      modifies this, buf
      ensures Valid() && state == Receiving && payload == [] && total == size && wanted == digest && OnGrid()
    {
      hide Tiling, Boundary, PadUp;
      ClearBuf();
      state, bufLen, queued, cursor, total, wanted, hashed := Receiving, 0, 0, base, size, digest, [];
      payload, room := [], erased;
      AlZero(align);
    }

    lemma EraseFits(size: nat, eraseSize: nat)
      requires Built() && 0 < size <= slotSize
      requires eraseSize == if PadUp(size, maxSector) > slotSize then slotSize else PadUp(size, maxSector)
      ensures size <= eraseSize <= slotSize && PadUp(size, align) <= eraseSize
      ensures Erasable(p.g, base, base + eraseSize) && EraseEnd(p.g, base, base + eraseSize) <= base + slotSize
    {
      PadUpLeast(size, align);
      PadUpLeast(size, maxSector);
      AlMultiple(PadUp(size, maxSector), maxSector, align);
      TiledErase(p.g, base, base + eraseSize, base + slotSize);
    }

    lemma {:induction false} AlMultiple(x: nat, m: nat, a: nat)
      requires m > 0 && Al(x, m) && Al(m, a)
      ensures Al(x, a)
      decreases x
    {
      if x == 0 {
        AlZero(a);
      } else {
        if x < m { DivModUnique(x, 0, x, m); }
        AlShift(x, m, m);
        AlMultiple(x - m, m, a);
        AlShift(x, m, a);
      }
    }

    /** _flush_buffer.  A write that is not aligned is rejected. */
    method FlushBuffer(n: nat) returns (st: Status)
      requires Built() && Streaming() && bufLen <= n <= TOOB_OTA_BUF_SIZE && Al(n, align)
      requires OnGrid() ==> Flushed() + n <= room
      modifies this`cursor, p`mem, p`cuts
      ensures Built() && SameOutside(old(p.mem), p.mem, base, base + slotSize)
      ensures st == Ok || st == PowerCut || st == InvalidArg || st == FlashAlign
      ensures st == InvalidArg <==> n == 0
      ensures st == FlashAlign <==> n > 0 && !OnGrid()
      ensures st == FlashAlign ==> p.mem == old(p.mem)
      ensures st == Ok ==> cursor == old(cursor) + n && AllErased(p.mem, cursor, base + room)
      ensures st == Ok ==> Slice(p.mem, base, Flushed() + n) == payload[..Flushed()] + buf[..n]
      ensures if st == PowerCut then p.cuts < old(p.cuts) else p.cuts == old(p.cuts)
    {
      if n == 0 { return InvalidArg; }
      ghost var m := p.mem;
      AlMultiple(base, maxSector, align);
      AlShift(Flushed(), base, align);
      if !Al(cursor, align) { return FlashAlign; }
      st := p.Program(cursor, buf[..n]);
      SliceKept(m, p.mem, cursor, cursor + n, base, Flushed());
      if st != Ok { return; }
      assert Slice(p.mem, base, Flushed() + n) == Slice(p.mem, base, Flushed()) + Slice(p.mem, cursor, n);
      cursor := cursor + n;
    }

    /** One round of the copy loop of toob_ota_process_chunk: fill the buffer, and flush it
        when it is exactly full. */
    method Feed(chunk: Bytes, at: nat) returns (st: Status, next: nat)
      requires Built() && Streaming() && bufLen < TOOB_OTA_BUF_SIZE && at < |chunk| && queued + |chunk| - at <= total
      modifies this`bufLen, this`queued, this`cursor, this`payload, this`hashed, p`mem, p`cuts, buf
      ensures Built() && at < next <= |chunk|
      ensures st == Ok || st == PowerCut || (st == FlashAlign && !old(OnGrid()))
      ensures !old(OnGrid()) ==> st != PowerCut && p.mem == old(p.mem)
      ensures !old(OnGrid()) && st == Ok ==> Flushed() == old(Flushed())
      ensures st == Ok ==> Streaming() && bufLen < TOOB_OTA_BUF_SIZE && OnGrid() == old(OnGrid())
      ensures payload == old(payload) + chunk[at..next] && queued == old(queued) + (next - at)
      ensures SameOutside(old(p.mem), p.mem, base, base + slotSize)
      ensures if st == PowerCut then p.cuts < old(p.cuts) else p.cuts == old(p.cuts)
    {
      var space, remaining := TOOB_OTA_BUF_SIZE - bufLen, |chunk| - at;
      var n := if remaining < space then remaining else space;
      next := at + n;
      Take(chunk[at..next]);
      if bufLen == TOOB_OTA_BUF_SIZE {
        st := FlushFull();
        return;
      }
      st := Ok;
    }

    /** A full buffer goes to flash. */
    method FlushFull() returns (st: Status)
      requires Built() && Streaming() && bufLen == TOOB_OTA_BUF_SIZE
      modifies this`bufLen, this`cursor, p`mem, p`cuts, buf
      ensures Built() && SameOutside(old(p.mem), p.mem, base, base + slotSize)
      ensures st == Ok || st == PowerCut || st == FlashAlign
      ensures st == FlashAlign <==> !old(OnGrid())
      ensures st == FlashAlign ==> p.mem == old(p.mem)
      ensures st == Ok ==> Streaming() && bufLen == 0 && OnGrid()
      ensures if st == PowerCut then p.cuts < old(p.cuts) else p.cuts == old(p.cuts)
    {
      AlShift(Flushed(), TOOB_OTA_BUF_SIZE, align);
      ghost var was := buf[..];
      assert buf[..bufLen] == was;
      assert payload[..Flushed()] + was == payload[..queued];
      hide Al, Tiling, PadUp;
      st := FlushBuffer(TOOB_OTA_BUF_SIZE);
      if st != Ok { return; }
      bufLen := 0;
      ClearBuf();
    }

    /** Copy into the alignment buffer. */
    method Take(x: Bytes)
      requires Streaming() && bufLen + |x| <= TOOB_OTA_BUF_SIZE && queued + |x| <= total
      modifies this`bufLen, this`queued, this`payload, this`hashed, buf
      ensures Streaming() && payload == old(payload) + x && bufLen == old(bufLen) + |x| && queued == old(queued) + |x|
      ensures Flushed() == old(Flushed())
    {
      ghost var was := buf[..];
      for i := 0 to |x|
        modifies buf
        invariant forall k :: 0 <= k < buf.Length ==>
                  buf[k] == if bufLen <= k < bufLen + i then x[k - bufLen] else was[k]
      {
        buf[bufLen + i] := x[i];
      }
      ghost var f := Flushed();
      assert buf[..bufLen + |x|] == was[..bufLen] + x;
      assert (payload + x)[..f] == payload[..f] && (payload + x)[f..] == payload[f..] + x;
      bufLen, queued, payload := bufLen + |x|, queued + |x|, payload + x;
      if wanted.Some? { hashed := hashed + x; }
    }

    /** toob_ota_process_chunk */
    method ProcessChunk(chunk: Bytes) returns (st: Status)
      requires Valid()
      modifies this, p`mem, p`cuts, buf
      ensures Valid() && SameOutside(old(p.mem), p.mem, base, base + slotSize)
      ensures total == old(total) && wanted == old(wanted)
      ensures old(state) != Receiving || chunk == [] ==> st == InvalidArg && state == old(state) && p.mem == old(p.mem)
      ensures old(state) == Receiving && chunk != [] ==>
                if old(queued) + |chunk| > total then st == InvalidArg && state == Failed && p.mem == old(p.mem)
                else st == Ok || (state == Failed && (st == PowerCut || (st == FlashAlign && !old(OnGrid()))))
      ensures st == Ok ==> payload == old(payload) + chunk && state == if queued == total then Complete else Receiving
      ensures st == Ok ==> OnGrid() == old(OnGrid())
      ensures old(state) == Receiving && !old(OnGrid()) ==> st != PowerCut && p.mem == old(p.mem)
      ensures if st == PowerCut then p.cuts < old(p.cuts) else p.cuts == old(p.cuts)
    {
      hide Tiling, Al, PadUp, Slice, AllErased, Boundary, SameOutside;
      SameSelf(p.mem, base, base + slotSize);
      if state != Receiving { return InvalidArg; }
      if |chunk| == 0 { return InvalidArg; }
      if queued + |chunk| > total {
        state := Failed;
        return InvalidArg;
      }
      var at := 0;
      while at < |chunk|
        invariant 0 <= at <= |chunk| && Built() && Streaming() && bufLen < TOOB_OTA_BUF_SIZE
        invariant payload == old(payload) + chunk[..at] && queued + |chunk| - at == old(queued) + |chunk| <= total
        invariant total == old(total) && wanted == old(wanted) && state == Receiving && p.cuts == old(p.cuts)
        invariant SameOutside(old(p.mem), p.mem, base, base + slotSize)
        invariant OnGrid() == old(OnGrid()) && (!OnGrid() ==> p.mem == old(p.mem) && Flushed() == old(Flushed()))
      {
        ghost var m, was := p.mem, at;
        st, at := Feed(chunk, at);
        SameOutsideTrans(old(p.mem), m, p.mem, base, base + slotSize);
        assert chunk[..at] == chunk[..was] + chunk[was..at];
        if st != Ok {
          state := Failed;
          ClearBuf();
          return;
        }
      }
      assert chunk[..at] == chunk;
      if queued == total { state := Complete; }
      return Ok;
    }

    /** The staging slot holds the payload, and zeros up to the write alignment. */
    ghost predicate Staged(x: Bytes)
      reads this, p
    {
      var n := PadUp(|x|, align);
      base + n <= |p.mem| && Slice(p.mem, base, n) == x + Zeros(n - |x|)
    }

    /** toob_ota_finalize, up to the mailbox request. */
    method Finalize() returns (st: Status)
      requires Valid()
      modifies this, p`mem, p`cuts, buf
      ensures Valid() && SameOutside(old(p.mem), p.mem, base, base + slotSize)
      ensures old(state) != Complete ==> st == InvalidArg && p.mem == old(p.mem) && state == old(state)
      ensures old(state) == Complete ==>
                && (st == Ok || st == PowerCut || st == VerifyFailed || st == FlashAlign)
                && (st == FlashAlign <==> !old(OnGrid()))
                && (st == Ok || st == VerifyFailed ==> Staged(old(payload)))
                && (st == VerifyFailed ==> old(wanted.Some? && wanted.value != Crc(payload)))
                && (st == Ok ==> !old(wanted.Some? && wanted.value != Crc(payload)))
      ensures !old(OnGrid()) ==> p.mem == old(p.mem)
      ensures st == Ok || st == VerifyFailed ==>
                && state == Idle && bufLen == queued == total == 0 && cursor == base && wanted == None && hashed == []
                && forall i :: 0 <= i < buf.Length ==> buf[i] == 0
      ensures if st == PowerCut then p.cuts < old(p.cuts) else p.cuts == old(p.cuts)
    {
      hide Tiling, PadUp, Slice;
      if state != Complete { return InvalidArg; }
      st := FlushTail();
      if st != Ok {
        state := Failed;
        ClearBuf();
        return;
      }
      hide Streaming;
      ClearBuf();
      st := if wanted.Some? && Crc(hashed) != wanted.value then VerifyFailed else Ok;
      state, bufLen, queued, cursor, total, wanted, hashed := Idle, 0, 0, base, 0, None, [];
    }

    /** The residual bytes, padded.  The padded length never exceeds the buffer, so the
        source's guard against that is not modelled. */
    method FlushTail() returns (st: Status)
      requires Built() && Streaming() && queued == total && bufLen < TOOB_OTA_BUF_SIZE && (bufLen == 0 ==> OnGrid())
      modifies this`cursor, p`mem, p`cuts
      ensures Built() && SameOutside(old(p.mem), p.mem, base, base + slotSize)
      ensures st == Ok || st == PowerCut || st == FlashAlign
      ensures st == FlashAlign <==> !OnGrid()
      ensures st == FlashAlign ==> p.mem == old(p.mem)
      ensures st == Ok ==> Staged(payload)
      ensures if st == PowerCut then p.cuts < old(p.cuts) else p.cuts == old(p.cuts)
    {
      hide Tiling, PadUp, Streaming, Slice, Zeros, Built;
      InRoom();
      if bufLen == 0 {
        AllFlushed();
        return Ok;
      }
      var n := PadUp(bufLen, align);
      TailFits();
      st := FlushBuffer(n);
      hide Flushed;
    }

    lemma InRoom()
      requires Built() && Streaming()
      ensures p.Valid() && base + room <= base + slotSize <= p.g.total
    {
    }

    lemma AllFlushed()
      requires Streaming() && queued == total && bufLen == 0 && OnGrid()
      ensures Staged(payload)
    {
      PadUpLeast(total, align);
      assert payload[..queued] == payload && payload + Zeros(0) == payload;
    }

    lemma TailFits()
      requires Built() && Streaming() && queued == total && bufLen < TOOB_OTA_BUF_SIZE
      ensures var n := PadUp(bufLen, align);
              && bufLen <= n <= TOOB_OTA_BUF_SIZE && Al(n, align) && queued == |payload| && (bufLen > 0 ==> n > 0)
              && (OnGrid() ==> Flushed() + n == PadUp(|payload|, align) <= room)
              && payload[..Flushed()] + buf[..n] == payload + Zeros(n - bufLen)
    {
      var n := PadUp(bufLen, align);
      PadUpLeast(bufLen, align);
      if OnGrid() { PadUpShift(Flushed(), bufLen, align); }
      assert buf[..n] == buf[..bufLen] + Zeros(n - bufLen);
      assert payload == payload[..Flushed()] + payload[Flushed()..];
    }

    /** A checkpoint that a resume takes up. */
    static predicate Accepts(size: nat, digest: Option<Checksum>, saved: Option<(nat, Option<Checksum>)>) {
      saved.Some? && 0 < saved.value.0 <= size && (digest.Some? ==> saved.value.1 == digest)
    }

    /** toob_ota_resume on a context that toob_ota_ctx_init prepared, as after a reset.
        `saved` is the resume slot that survived in RAM: bytes staged and their digest. */
    method Resume(size: nat, digest: Option<Checksum>, saved: Option<(nat, Option<Checksum>)>, ghost erased: nat)
      returns (st: Status, offset: nat)
      requires Valid() && state == Idle && bufLen == 0 && forall i :: 0 <= i < buf.Length ==> buf[i] == 0
      requires saved.Some? ==> AllErased(p.mem, base + saved.value.0, base + erased)
      requires size <= erased <= slotSize && PadUp(size, align) <= erased
      modifies this
      ensures Valid() && p.mem == old(p.mem)
      ensures st == InvalidArg <==> size == 0 || size > slotSize
      ensures st == Ok <==> 0 < size <= slotSize && Accepts(size, digest, saved)
      ensures st == NotFound <==> 0 < size <= slotSize && !Accepts(size, digest, saved)
      ensures if st == Ok then offset == saved.value.0 else offset == 0 && state == Idle
      ensures st == Ok ==> state == Receiving && total == size && wanted == digest && queued == offset && bufLen == 0
      ensures st == Ok ==> base + offset <= |p.mem| && payload == Slice(p.mem, base, offset)
    {
      hide Tiling, Boundary, PadUp, Al;
      offset := 0;
      if size == 0 || size > slotSize { return InvalidArg, offset; }
      if saved == None || saved.value.0 == 0 || saved.value.0 > size { return NotFound, offset; }
      if digest.Some? && saved.value.1 != digest { return NotFound, offset; }
      offset := saved.value.0;
      cursor, queued, total, state := base + offset, offset, size, Receiving;
      wanted, hashed := digest, Slice(p.mem, base, offset);   // the staged prefix is hashed again
      payload, room := hashed, erased;
      st := Ok;
    }
  }

  /** What a resume loses.  A checkpoint counts all bytes received, but only the first f of
      them are on flash: the staged prefix is the payload if and only if the bytes that
      were only in RAM happen to be erased ones. */
  lemma LostOnResume(m: Bytes, base: nat, pay: Bytes, f: nat, room: nat)
    requires f <= |pay| <= room && base + room <= |m|
    requires Slice(m, base, f) == pay[..f] && AllErased(m, base + f, base + room)
    ensures Slice(m, base, |pay|) == pay <==> forall i :: f <= i < |pay| ==> pay[i] == ERASED
  {
    var got := Slice(m, base, |pay|);
    forall i | 0 <= i < |pay| ensures got[i] == if i < f then pay[i] else ERASED {
      assert got[i] == m[base + i];
      if i < f { assert Slice(m, base, f)[i] == pay[i]; }
    }
    if got != pay {
      assert exists i :: 0 <= i < |pay| && got[i] != pay[i];
    }
  }

  /** The chunks of a transfer that is under way, and its end. */
  method Receive(w: Writer, chunks: seq<Bytes>) returns (st: Status)
    requires w.Valid() && w.state == Receiving
    modifies w, w.p`mem, w.p`cuts, w.buf
    ensures st == Ok || st == VerifyFailed ==>
              |old(w.payload) + Flatten(chunks)| == old(w.total) && w.Staged(old(w.payload) + Flatten(chunks))
    ensures st == Ok && old(w.wanted).Some? ==> old(w.wanted).value == Crc(old(w.payload) + Flatten(chunks))
    ensures st == Ok || st == VerifyFailed ==> old(w.OnGrid())
    ensures old(!w.OnGrid()) ==> w.p.mem == old(w.p.mem)
    ensures var all := old(w.payload) + Flatten(chunks);
            old(w.p.cuts) == 0 && chunks != [] && |all| == old(w.total)
              && (forall i :: 0 <= i < |chunks| ==> chunks[i] != []) ==>
              st == if old(!w.OnGrid()) then FlashAlign
                    else if old(w.wanted).Some? && old(w.wanted).value != Crc(all) then VerifyFailed else Ok
  {
    ghost var before, total, wanted := w.payload, w.total, w.wanted;
    assert before + [] == before;
    for i := 0 to |chunks|
      invariant w.Valid() && w.payload == before + Flatten(chunks[..i]) && w.total == total && w.wanted == wanted
      invariant w.state == if i > 0 && w.queued == total then Complete else Receiving
      invariant w.queued == |w.payload| && (old(w.p.cuts) == 0 ==> w.p.cuts == 0)
      invariant w.OnGrid() == old(w.OnGrid()) && (!w.OnGrid() ==> w.p.mem == old(w.p.mem))
    {
      FlattenPrefix(chunks, i);
      assert before + Flatten(chunks[..i + 1]) == before + Flatten(chunks[..i]) + chunks[i];
      st := w.ProcessChunk(chunks[i]);
      if st != Ok { return; }
    }
    assert chunks[..|chunks|] == chunks;
    st := w.Finalize();
  }

  /** A receiving transfer with every byte staged takes no chunk, and cannot be finalized. */
  method DeadEnd(w: Writer, chunk: Bytes) returns (st1: Status, st2: Status)
    requires w.Valid() && w.state == Receiving && w.queued == w.total
    modifies w, w.p`mem, w.p`cuts, w.buf
    ensures st1 == InvalidArg && st2 == InvalidArg && w.state != Complete && w.p.mem == old(w.p.mem)
  {
    st1 := w.ProcessChunk(chunk);
    st2 := w.Finalize();
  }

  /** A transfer that is resumed after a reset.  `w` was under way when the reset came, and
      its checkpoint is what survived; `w2` is the new context.  The transfer can be
      completed if and only if bytes are still to come and the checkpoint is a multiple of
      the write alignment.  What it then stages is what was sent if and only if every byte
      that was only in the buffer of `w` happens to be an erased one.  Off the grid the
      first flush is refused and nothing is written; with nothing to come it is at a dead
      end: no chunk is taken and it cannot be finalized. */
  method ResumeTransfer(w: Writer, w2: Writer, digest: Option<Checksum>, chunks: seq<Bytes>) returns (st: Status)
    requires w.Valid() && (w.state == Receiving || w.state == Complete) && w.queued > 0
    requires w2.Valid() && w2.state == Idle && w2.bufLen == 0 && forall i :: 0 <= i < w2.buf.Length ==> w2.buf[i] == 0
    requires w2.p == w.p && w2.base == w.base && w2.slotSize == w.slotSize && w2.align == w.align
    requires w != w2 && w.buf != w2.buf && (digest.Some? ==> w.wanted == digest)
    modifies w2, w2.p`mem, w2.p`cuts, w2.buf
    ensures st == Ok || st == VerifyFailed ==> old(w.queued) < old(w.total) && old(Al(w.queued, w.align))
    ensures st == Ok ==> |old(w.payload) + Flatten(chunks)| == old(w.total)
    ensures st == Ok ==>
              (w2.Staged(old(w.payload) + Flatten(chunks)) <==>
               forall i :: old(w.Flushed()) <= i < old(w.queued) ==> old(w.payload)[i] == ERASED)
    ensures var got := Slice(old(w.p.mem), w.base, old(w.queued)) + Flatten(chunks);
            && (st == Ok ==> w2.Staged(got) && (digest.Some? ==> digest.value == Crc(got)))
            && (old(w.p.cuts) == 0 && (forall i :: 0 <= i < |chunks| ==> chunks[i] != [])
                && old(w.queued) < |got| == old(w.total) ==>
                  st == if old(!Al(w.queued, w.align)) then FlashAlign
                        else if digest.Some? && digest.value != Crc(got) then VerifyFailed else Ok)
    ensures old(!Al(w.queued, w.align)) ==> w.p.mem == old(w.p.mem)
    ensures old(w.queued) == old(w.total) ==> st == InvalidArg && w.p.mem == old(w.p.mem)
  {
    hide Tiling, Boundary;
    ghost var was, f, size := w.payload, w.Flushed(), w.total;
    var offset;
    LostOnResume(w.p.mem, w.base, was, f, w.room);
    st, offset := w2.Resume(w.total, digest, Some((w.queued, w.wanted)), w.room);
    if st != Ok { return; }
    ghost var got := w2.payload;
    if w.queued == w.total {
      var first;
      first, st := DeadEnd(w2, if chunks == [] then [] else chunks[0]);
      return;
    }
    st := Receive(w2, chunks);
    if st == Ok { StagedSame(w2, got, was, Flatten(chunks)); }
  }

  lemma StagedSame(w: Writer, got: Bytes, was: Bytes, rest: Bytes)
    requires |got| == |was| && w.Staged(got + rest)
    ensures w.Staged(was + rest) <==> got == was
  {
    var n := PadUp(|got + rest|, w.align);
    var z := Zeros(n - |got + rest|);
    if w.Staged(was + rest) {
      assert got + rest + z == was + rest + z;
      assert got == (got + rest + z)[..|got|] && was == (was + rest + z)[..|was|];
    }
  }

  lemma SameSelf(m: Bytes, lo: int, hi: int)
    ensures SameOutside(m, m, lo, hi)
  {
  }

  function Flatten(chunks: seq<Bytes>): Bytes {
    if chunks == [] then [] else Flatten(chunks[..|chunks|-1]) + chunks[|chunks|-1]
  }

  lemma {:induction false} FlattenPrefix(chunks: seq<Bytes>, i: nat)
    requires i < |chunks|
    ensures Flatten(chunks[..i + 1]) == Flatten(chunks[..i]) + chunks[i]
    ensures |Flatten(chunks[..i + 1])| <= |Flatten(chunks)|
    decreases |chunks|
  {
    assert chunks[..i + 1][..i] == chunks[..i];
    if i + 1 < |chunks| {
      var most := chunks[..|chunks|-1];
      FlattenPrefix(most, i);
      assert most[..i + 1] == chunks[..i + 1];
    } else {
      assert chunks[..i + 1] == chunks;
    }
  }

  /** A whole transfer, however the payload is split: a success leaves the payload in
      staging, padded with zeros, and if a digest was given it is the payload's.  With no
      cut, a payload of the declared size in non-empty chunks is staged. */
  method Transfer(w: Writer, size: nat, digest: Option<Checksum>, chunks: seq<Bytes>) returns (st: Status)
    requires w.Valid() && w.state == Idle
    modifies w, w.p`mem, w.p`cuts, w.buf
    ensures st == Ok ==> |Flatten(chunks)| == size && w.Staged(Flatten(chunks))
    ensures st == Ok && digest.Some? ==> digest.value == Crc(Flatten(chunks))
    ensures old(w.p.cuts) == 0 && 0 < |Flatten(chunks)| == size <= w.slotSize
            && (forall i :: 0 <= i < |chunks| ==> chunks[i] != []) ==>
              st == if digest.Some? && digest.value != Crc(Flatten(chunks)) then VerifyFailed else Ok
  {
    st := w.Begin(size, digest);
    if st != Ok { return; }
    assert [] + Flatten(chunks) == Flatten(chunks);
    st := Receive(w, chunks);
  }
}
