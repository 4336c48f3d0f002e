/** Manifest acceptance and chunk verification: the region directory and the partition
    of the chunk hashes (toobloader/core/boot_tbm1.c), and the streaming check of an
    image against its hashes (toobloader_old/core/boot_merkle.c). */
module Manifest {
  import opened FlashModel
  import opened Wrappers

  const TBM1_FIXED_LEN: nat := 512
  const TBM1_SIG_LEN: nat := 64
  const TBM1_MAX_REGIONS: nat := 8
  const TBM1_MAX_IMAGES: nat := 4
  const REGION_NONE: nat := 0
  const REGION_CHUNK_HASHES: nat := 1
  const HASH_LEN: nat := 32
  const U32: nat := 0x1_0000_0000

  type Word = x: int | 0 <= x < 0x1_0000_0000

  datatype Reject =
    | Accepted | BadTotalLen | BadRegionDup | BadRegionBounds | BadRegionOrder | BadRegionAlign
    | BadImageCount | BadKeyIndex | BadHwCompat | BadImageField | BadChunkMath | BadChunkHashLen

  datatype Region = Region(id: nat, off: Word, len: Word)

  datatype Image = Image(installedSize: Word, chunkSize: Word, numChunks: Word, dataOff: Word, storedSize: Word,
                         known: bool)

  datatype Header = Header(totalLen: Word, regions: seq<Region>, images: seq<Image>,
                           keyIndex: nat, product: nat, revMin: nat, revMax: nat)

  /** What the build fixes; product 0xFFFF leaves the hardware gate out. */
  datatype Device = Device(keySlots: nat, product: nat, rev: nat)

  // ---- The region directory ----------------------------------------------------------

  /** tbm1_signed_len */
  function SignedLen(h: Header): (n: nat) {
    if h.totalLen < TBM1_FIXED_LEN + TBM1_SIG_LEN then 0 else h.totalLen - TBM1_SIG_LEN
  }

  /** Between the fixed header and the signature, which ends the manifest. */
  predicate BeforeSignature(h: Header, r: Region) {
    512 <= r.off && r.off + r.len + 64 <= h.totalLen
  }

  predicate Present(r: Region) {
    r.id != REGION_NONE
  }

  /** A region by itself: after the fixed header, inside the signed area, aligned. */
  predicate WellPlaced(r: Region, limit: nat) {
    TBM1_FIXED_LEN <= r.off && r.off + r.len <= limit && r.off % 8 == 0
  }

  /** Two regions: apart and in order, and not two of one standard id. */
  predicate InOrder(a: Region, b: Region) {
    a.off + a.len <= b.off && (a.id < 16 ==> a.id != b.id)
  }

  /** The directories that are accepted. */
  ghost predicate Directory(rs: seq<Region>, limit: nat) {
    && (forall i :: 0 <= i < |rs| && Present(rs[i]) ==> WellPlaced(rs[i], limit))
    && (forall i, j :: 0 <= i < j < |rs| && Present(rs[i]) && Present(rs[j]) ==> InOrder(rs[i], rs[j]))
  }

  /** So no byte belongs to two regions. */
  lemma RegionsDisjoint(rs: seq<Region>, limit: nat, i: nat, j: nat, x: nat)
    requires Directory(rs, limit) && i < |rs| && j < |rs| && Present(rs[i]) && Present(rs[j])
    requires rs[i].off <= x < rs[i].off + rs[i].len && rs[j].off <= x < rs[j].off + rs[j].len
    ensures i == j && TBM1_FIXED_LEN <= x < limit
  {
    assert WellPlaced(rs[i], limit);
  }

  ghost predicate HasId(rs: seq<Region>, i: nat, x: nat) {
    exists j :: 0 <= j < i && IdAt(rs, j, x)
  }

  predicate IdAt(rs: seq<Region>, j: nat, x: nat) {
    j < |rs| && Present(rs[j]) && rs[j].id == x
  }

  lemma HasIdNext(rs: seq<Region>, i: nat)
    requires i < |rs|
    ensures forall x :: HasId(rs, i + 1, x) <==> HasId(rs, i, x) || IdAt(rs, i, x)
  {
    forall x: nat ensures HasId(rs, i + 1, x) <==> HasId(rs, i, x) || IdAt(rs, i, x) {
      if HasId(rs, i, x) {
        var j :| 0 <= j < i && IdAt(rs, j, x);
        assert 0 <= j < i + 1;
      }
    }
  }

  /** The faults that the codes name. */
  predicate SameId(rs: seq<Region>, i: int, j: int) {
    0 <= i < j < |rs| && Present(rs[i]) && Present(rs[j]) && rs[i].id == rs[j].id < 16
  }

  predicate OutOfBounds(rs: seq<Region>, i: int, limit: nat) {
    0 <= i < |rs| && Present(rs[i]) && limit < rs[i].off + rs[i].len
  }

  /** j == -1 stands for the fixed header. */
  predicate Overlaps(rs: seq<Region>, i: int, j: int) {
    && -1 <= j < i < |rs| && Present(rs[i])
    && if j == -1 then rs[i].off < TBM1_FIXED_LEN else Present(rs[j]) && rs[i].off < rs[j].off + rs[j].len
  }

  predicate Skewed(rs: seq<Region>, i: int) {
    0 <= i < |rs| && Present(rs[i]) && rs[i].off % 8 != 0
  }

  lemma HasIdAt(rs: seq<Region>, i: nat)
    requires i < |rs| && Present(rs[i]) && rs[i].id < 16 && HasId(rs, i, rs[i].id)
    ensures exists a, b :: SameId(rs, a, b)
  {
    var j :| 0 <= j < i && IdAt(rs, j, rs[i].id);
    assert SameId(rs, j, i);
  }

  lemma Overlap(rs: seq<Region>, i: nat, prevEnd: nat)
    requires i < |rs| && Present(rs[i]) && rs[i].off < prevEnd
    requires prevEnd == TBM1_FIXED_LEN || exists j :: 0 <= j < i && Present(rs[j]) && prevEnd == rs[j].off + rs[j].len
    ensures exists a, b :: Overlaps(rs, a, b)
  {
    if prevEnd == TBM1_FIXED_LEN {
      assert Overlaps(rs, i, -1);
    } else {
      var j :| 0 <= j < i && Present(rs[j]) && prevEnd == rs[j].off + rs[j].len;
      assert Overlaps(rs, i, j);
    }
  }

  /** tbm1_validate_regions */
  method ValidateRegions(h: Header) returns (rc: Reject)
    requires |h.regions| == TBM1_MAX_REGIONS
    ensures rc == Accepted <==> SignedLen(h) > 0 && Directory(h.regions, SignedLen(h))
    ensures rc == BadTotalLen <==> h.totalLen < 576   // the fixed header and the signature
    ensures rc == Accepted ==>
              forall i :: 0 <= i < |h.regions| && Present(h.regions[i]) ==> BeforeSignature(h, h.regions[i])
    ensures rc == BadRegionDup ==> exists i, j :: SameId(h.regions, i, j)
    ensures rc == BadRegionBounds ==> exists i :: OutOfBounds(h.regions, i, SignedLen(h))
    ensures rc == BadRegionOrder ==> exists i, j :: Overlaps(h.regions, i, j)
    ensures rc == BadRegionAlign ==> exists i :: Skewed(h.regions, i)
    ensures rc in {Accepted, BadTotalLen, BadRegionDup, BadRegionBounds, BadRegionOrder, BadRegionAlign}
  {
    var limit := SignedLen(h);
    if limit == 0 { return BadTotalLen; }
    hide HasId, Directory;
    var rs := h.regions;
    NoneYet(rs, limit);
    var prevEnd, seen := TBM1_FIXED_LEN, {};
    for i := 0 to |rs|
      invariant Directory(rs[..i], limit) && TBM1_FIXED_LEN <= prevEnd
      invariant forall j :: 0 <= j < i && Present(rs[j]) ==> rs[j].off + rs[j].len <= prevEnd
      invariant prevEnd == TBM1_FIXED_LEN
                || exists j :: 0 <= j < i && Present(rs[j]) && prevEnd == rs[j].off + rs[j].len
      invariant forall x :: x in seen <==> x < 16 && HasId(rs, i, x)
    {
      var r := rs[i];
      HasIdNext(rs, i);
      if r.id == REGION_NONE {
        DirectorySkip(rs, limit, i);
        continue;
      }
      if r.id < 16 {
        if r.id in seen {
          Duplicate(rs, limit, i);
          HasIdAt(rs, i);
          return BadRegionDup;
        }
        seen := seen + {r.id};
      }
      if r.off > limit || r.len > limit - r.off {
        Misplaced(rs, limit, i);
        assert OutOfBounds(rs, i, limit);
        return BadRegionBounds;
      }
      if r.off < prevEnd {
        OutOfOrder(rs, limit, i, prevEnd);
        Overlap(rs, i, prevEnd);
        return BadRegionOrder;
      }
      if r.off % 8 != 0 {
        Misplaced(rs, limit, i);
        assert Skewed(rs, i);
        return BadRegionAlign;
      }
      DirectoryNext(rs, limit, i, prevEnd);
      prevEnd := r.off + r.len;
    }
    assert rs[..|rs|] == rs;
    return Accepted;
  }

  lemma DirectorySkip(rs: seq<Region>, limit: nat, i: nat)
    requires i < |rs| && !Present(rs[i]) && Directory(rs[..i], limit)
    ensures Directory(rs[..i + 1], limit)
  {
    forall a, b | 0 <= a < b <= i && Present(rs[a]) && Present(rs[b]) ensures InOrder(rs[a], rs[b]) {
      assert InOrder(rs[..i][a], rs[..i][b]);
    }
    forall a | 0 <= a <= i && Present(rs[a]) ensures WellPlaced(rs[a], limit) {
      assert WellPlaced(rs[..i][a], limit);
    }
  }

  lemma DirectoryNext(rs: seq<Region>, limit: nat, i: nat, prevEnd: nat)
    requires i < |rs| && WellPlaced(rs[i], limit) && Directory(rs[..i], limit) && prevEnd <= rs[i].off
    requires forall j :: 0 <= j < i && Present(rs[j]) ==> rs[j].off + rs[j].len <= prevEnd
    requires rs[i].id < 16 ==> !HasId(rs, i, rs[i].id)
    ensures Directory(rs[..i + 1], limit)
  {
    forall a, b | 0 <= a < b <= i && Present(rs[a]) && Present(rs[b]) ensures InOrder(rs[a], rs[b]) {
      if b < i { assert InOrder(rs[..i][a], rs[..i][b]); } else { assert !IdAt(rs, a, rs[i].id) || rs[i].id >= 16; }
    }
    forall a | 0 <= a <= i && Present(rs[a]) ensures WellPlaced(rs[a], limit) {
      if a < i { assert WellPlaced(rs[..i][a], limit); }
    }
  }

  lemma NoneYet(rs: seq<Region>, limit: nat)
    ensures Directory(rs[..0], limit)
    ensures forall x :: !HasId(rs, 0, x)
  {
  }

  lemma Misplaced(rs: seq<Region>, limit: nat, i: nat)
    requires i < |rs| && Present(rs[i]) && !WellPlaced(rs[i], limit)
    ensures !Directory(rs, limit)
  {
  }

  lemma Duplicate(rs: seq<Region>, limit: nat, i: nat)
    requires i < |rs| && Present(rs[i]) && rs[i].id < 16 && HasId(rs, i, rs[i].id)
    ensures !Directory(rs, limit)
  {
    var j :| 0 <= j < i && IdAt(rs, j, rs[i].id);
    assert !InOrder(rs[j], rs[i]);
  }

  lemma OutOfOrder(rs: seq<Region>, limit: nat, i: nat, prevEnd: nat)
    requires i < |rs| && Present(rs[i]) && rs[i].off < prevEnd
    requires prevEnd == TBM1_FIXED_LEN || exists j :: 0 <= j < i && Present(rs[j]) && prevEnd == rs[j].off + rs[j].len
    ensures !Directory(rs, limit)
  {
    if prevEnd == TBM1_FIXED_LEN {
      assert !WellPlaced(rs[i], limit);
    } else {
      var j :| 0 <= j < i && Present(rs[j]) && prevEnd == rs[j].off + rs[j].len;
      assert !InOrder(rs[j], rs[i]);
    }
  }

  // ---- The partition of the chunk hashes --------------------------------------------------

  /** ceil_div_u32 */
  function CeilDiv(a: nat, b: nat): (n: nat)
    requires b > 0
  {
    a / b + if a % b != 0 then 1 else 0
  }

  /** The least number of chunks that cover the image. */
  lemma CeilDivMeans(a: nat, b: nat)
    requires b > 0
    ensures var n := CeilDiv(a, b);
            a <= n * b && (n > 0 ==> (n - 1) * b < a) && (n == 0 <==> a == 0) && n <= a
  {
    var q, r := a / b, a % b;
    assert a == q * b + r;
    MulMono(1, b, q);
    if r != 0 {
      assert (q + 1) * b == q * b + b;
      if q > 0 { assert q * b >= q; }
    } else if q > 0 {
      assert (q - 1) * b == q * b - b;
    }
  }

  /** How many hashes the images before i have. */
  function Before(images: seq<Image>, i: nat): nat
    requires i <= |images|
  {
    if i == 0 then 0 else Before(images, i - 1) + images[i-1].numChunks
  }

  lemma {:induction false} BeforeGrows(images: seq<Image>, i: nat, j: nat)
    requires i <= j <= |images|
    ensures Before(images, i) <= Before(images, j)
    decreases j
  {
    if i < j { BeforeGrows(images, i, j - 1); }
  }

  function FindChunks(rs: seq<Region>): (r: int)
    ensures -1 <= r < |rs| && (r >= 0 ==> rs[r].id == REGION_CHUNK_HASHES)
  {
    if rs == [] then -1
    else if rs[0].id == REGION_CHUNK_HASHES then 0
    else
      var k := FindChunks(rs[1..]);
      if k == -1 then -1 else k + 1
  }

  lemma {:induction false} FindChunksIs(rs: seq<Region>, k: nat)
    requires k <= |rs| && (forall j :: 0 <= j < k ==> rs[j].id != REGION_CHUNK_HASHES)
    requires k < |rs| ==> rs[k].id == REGION_CHUNK_HASHES
    ensures FindChunks(rs) == if k < |rs| then k else -1
    decreases k
  {
    if k > 0 { FindChunksIs(rs[1..], k - 1); }
  }

  /** An image descriptor by itself. */
  predicate ImageOk(d: Image, stagingCap: nat) {
    && d.chunkSize > 0 && d.numChunks == CeilDiv(d.installedSize, d.chunkSize) && d.known
    && d.dataOff < stagingCap && d.dataOff + d.storedSize <= stagingCap
  }

  predicate BadMath(images: seq<Image>, i: int) {
    0 <= i < |images|
      && (images[i].chunkSize == 0 || images[i].numChunks != CeilDiv(images[i].installedSize, images[i].chunkSize))
  }

  predicate BadField(images: seq<Image>, i: int, stagingCap: nat) {
    && 0 <= i < |images|
    && (!images[i].known || images[i].dataOff >= stagingCap || images[i].dataOff + images[i].storedSize > stagingCap)
  }

  ghost predicate ImagesOk(h: Header, stagingCap: nat) {
    && 1 <= |h.images| <= TBM1_MAX_IMAGES && FindChunks(h.regions) != -1
    && (forall i :: 0 <= i < |h.images| ==> ImageOk(h.images[i], stagingCap))
  }

  /** The hashes of image i lie in the chunk-hash region, right after those of the image
      before it, and the last ones end where the region ends. */
  ghost predicate Partition(images: seq<Image>, chunks: Region, off: seq<Word>) {
    && |off| == |images|
    && (forall i :: 0 <= i < |images| ==>
          off[i] == (if i == 0 then chunks.off else off[i-1] + HASH_LEN * images[i-1].numChunks))
    && (forall i :: 0 <= i < |images| ==> off[i] + HASH_LEN * images[i].numChunks <= chunks.off + chunks.len)
    && (|images| > 0 ==> off[|images|-1] + HASH_LEN * images[|images|-1].numChunks == chunks.off + chunks.len)
  }

  predicate Counted(h: Header) {
    1 <= |h.images| <= TBM1_MAX_IMAGES
  }

  predicate ForDevice(h: Header, dev: Device) {
    dev.product == 0xFFFF || (h.product == dev.product && h.revMin <= dev.rev <= h.revMax)
  }

  predicate Gates(h: Header, dev: Device) {
    Counted(h) && h.keyIndex < dev.keySlots && ForDevice(h, dev)
  }

  /** Image i is the first that can be at fault. */
  ghost predicate OkBefore(images: seq<Image>, i: int, stagingCap: nat) {
    forall j :: 0 <= j < i && j < |images| ==> ImageOk(images[j], stagingCap)
  }

  /** tbm1_validate_images: the offsets by a 64-bit sum that is cut down to 32 bits.  Once
      everything is accepted the cut was exact. */
  method ValidateImages(h: Header, dev: Device, stagingCap: nat) returns (rc: Reject, off: seq<Word>)
    requires |h.regions| == TBM1_MAX_REGIONS && Directory(h.regions, SignedLen(h))
    ensures rc == BadImageCount <==> !Counted(h)
    ensures rc == BadKeyIndex <==> Counted(h) && h.keyIndex >= dev.keySlots
    ensures rc == BadHwCompat <==> Counted(h) && h.keyIndex < dev.keySlots && !ForDevice(h, dev)
    ensures rc == BadChunkMath <==>
              Gates(h, dev) && FindChunks(h.regions) != -1
              && exists i :: BadMath(h.images, i) && OkBefore(h.images, i, stagingCap)
    ensures rc == BadImageField <==>
              Gates(h, dev) && FindChunks(h.regions) != -1
              && exists i :: BadField(h.images, i, stagingCap) && OkBefore(h.images, i, stagingCap)
                             && !BadMath(h.images, i)
    ensures rc == BadChunkHashLen <==>
              && Gates(h, dev)
              && (FindChunks(h.regions) == -1
                  || (ImagesOk(h, stagingCap)
                      && HASH_LEN * Before(h.images, |h.images|) != h.regions[FindChunks(h.regions)].len))
    ensures rc in {Accepted, BadImageCount, BadKeyIndex, BadHwCompat, BadChunkHashLen, BadChunkMath, BadImageField}
    ensures rc == Accepted <==>
              Gates(h, dev) && ImagesOk(h, stagingCap)
                 && HASH_LEN * Before(h.images, |h.images|) == h.regions[FindChunks(h.regions)].len
    ensures rc == Accepted ==> Partition(h.images, h.regions[FindChunks(h.regions)], off)
  {
    off := [];
    ChunksPlaced(h);
    hide Directory, FindChunks, CeilDiv, SignedLen, WellPlaced, Before;
    if |h.images| < 1 || |h.images| > TBM1_MAX_IMAGES { return BadImageCount, off; }
    if h.keyIndex >= dev.keySlots { return BadKeyIndex, off; }
    if dev.product != 0xFFFF && (h.product != dev.product || dev.rev < h.revMin || h.revMax < dev.rev) {
      return BadHwCompat, off;
    }
    var k := 0;
    while k < |h.regions| && h.regions[k].id != REGION_CHUNK_HASHES
      invariant 0 <= k <= |h.regions| && forall j :: 0 <= j < k ==> h.regions[j].id != REGION_CHUNK_HASHES
    {
      k := k + 1;
    }
    FindChunksIs(h.regions, k);
    if k == |h.regions| { return BadChunkHashLen, off; }
    var chunks := h.regions[k];
    var acc := 0;
    NoneBefore(h.images);
    for i := 0 to |h.images|
      invariant acc == HASH_LEN * Before(h.images, i) && |off| == i
      invariant forall j :: 0 <= j < i ==> ImageOk(h.images[j], stagingCap)
      invariant forall j :: 0 <= j < i ==> off[j] == Truncated(chunks.off, HASH_LEN * Before(h.images, j))
    {
      var d := h.images[i];
      if d.chunkSize == 0 || d.numChunks != CeilDiv(d.installedSize, d.chunkSize) {
        assert BadMath(h.images, i) && OkBefore(h.images, i, stagingCap);
        return BadChunkMath, off;
      }
      if !d.known || d.dataOff >= stagingCap || d.storedSize > stagingCap - d.dataOff {
        assert BadField(h.images, i, stagingCap) && OkBefore(h.images, i, stagingCap) && !BadMath(h.images, i);
        return BadImageField, off;
      }
      BeforeNext(h.images, i);
      off := off + [Truncated(chunks.off, acc)];
      acc := acc + d.numChunks * HASH_LEN;   // 64 bits hold the sum of four 32-bit counts
    }
    if acc != chunks.len { return BadChunkHashLen, off; }
    PartitionExact(h.images, chunks, off);
    return Accepted, off;
  }

  /** chunks->off + (uint32_t)acc */
  function Truncated(off: Word, acc: nat): Word {
    (off + acc % U32) % U32
  }

  lemma TruncatedExact(off: Word, acc: nat)
    requires off + acc < U32
    ensures Truncated(off, acc) == off + acc
  {
  }

  lemma PartitionExact(images: seq<Image>, chunks: Region, off: seq<Word>)
    requires |off| == |images| && chunks.off + chunks.len < U32
    requires HASH_LEN * Before(images, |images|) == chunks.len
    requires forall j :: 0 <= j < |images| ==> off[j] == Truncated(chunks.off, HASH_LEN * Before(images, j))
    ensures Partition(images, chunks, off)
  {
    hide Truncated, Before;
    forall i | 0 <= i < |images|
      ensures off[i] == (if i == 0 then chunks.off else off[i-1] + HASH_LEN * images[i-1].numChunks)
      ensures off[i] + HASH_LEN * images[i].numChunks <= chunks.off + chunks.len
      ensures i == |images| - 1 ==> off[i] + HASH_LEN * images[i].numChunks == chunks.off + chunks.len
    {
      OffsetExact(images, chunks, off, i);
      BeforeNext(images, i);
      BeforeGrows(images, i + 1, |images|);
      if i > 0 {
        OffsetExact(images, chunks, off, i - 1);
        BeforeNext(images, i - 1);
      }
    }
  }

  lemma NoneBefore(images: seq<Image>)
    ensures Before(images, 0) == 0
  {
  }

  lemma ChunksPlaced(h: Header)
    requires Directory(h.regions, SignedLen(h))
    ensures var k := FindChunks(h.regions); k != -1 ==> h.regions[k].off + h.regions[k].len < U32
  {
    var k := FindChunks(h.regions);
    if k != -1 { assert WellPlaced(h.regions[k], SignedLen(h)); }
  }

  lemma BeforeNext(images: seq<Image>, i: nat)
    requires i < |images|
    ensures Before(images, 0) == 0 && Before(images, i + 1) == Before(images, i) + images[i].numChunks
  {
  }

  lemma OffsetExact(images: seq<Image>, chunks: Region, off: seq<Word>, i: nat)
    requires i < |images| == |off| && chunks.off + chunks.len < U32 && HASH_LEN * Before(images, |images|) == chunks.len
    requires off[i] == Truncated(chunks.off, HASH_LEN * Before(images, i))
    ensures off[i] == chunks.off + HASH_LEN * Before(images, i)
  {
    hide Before, Truncated;
    BeforeGrows(images, i, |images|);
    TruncatedExact(chunks.off, HASH_LEN * Before(images, i));
  }

  // ---- Chunk verification -----------------------------------------------------------------

  /** Where chunk i starts. */
  function Pos(i: nat, size: nat): nat {
    i * size
  }

  lemma PosNext(i: nat, size: nat)
    ensures Pos(0, size) == 0 && Pos(i + 1, size) == Pos(i, size) + size
  {
  }

  /** Chunk i of an image. */
  function Chunk(image: Bytes, size: nat, i: nat): (c: Bytes) {
    var lo := Pos(i, size);
    if lo >= |image| then [] else if lo + size >= |image| then image[lo..] else image[lo..lo + size]
  }

  function Chunks(image: Bytes, size: nat, n: nat): Bytes {
    if n == 0 then [] else Chunks(image, size, n - 1) + Chunk(image, size, n - 1)
  }

  function Prefix(image: Bytes, p: nat): Bytes {
    if p >= |image| then image else image[..p]
  }

  lemma PrefixNone(image: Bytes)
    ensures Prefix(image, 0) == []
  {
  }

  lemma ChunkJoins(image: Bytes, size: nat, i: nat)
    ensures Prefix(image, Pos(i, size)) + Chunk(image, size, i) == Prefix(image, Pos(i, size) + size)
  {
    hide Pos;
    var lo := Pos(i, size);
    if lo >= |image| {
      assert image + [] == image;
    } else if lo + size >= |image| {
      assert image[..lo] + image[lo..] == image;
    } else {
      PrefixJoin(image, lo, lo + size);
    }
  }

  /** The chunks tile the image byte for byte. */
  lemma {:induction false} ChunksTile(image: Bytes, size: nat, n: nat)
    ensures Chunks(image, size, n) == Prefix(image, Pos(n, size))
    decreases n
  {
    hide Pos, Prefix, Chunk;
    PosNext(0, size);
    PrefixNone(image);
    if n > 0 {
      PosNext(n - 1, size);
      ChunksTile(image, size, n - 1);
      ChunkJoins(image, size, n - 1);
    }
  }

  /** The digests of an ideal hash: equal digests mean equal content. */
  ghost predicate Matches(image: Bytes, size: nat, hashes: seq<Checksum>, n: nat) {
    n <= |hashes| && forall i :: 0 <= i < n ==> hashes[i] == Crc(Chunk(image, size, i))
  }

  /** One list of hashes accepts one image: every byte is covered. */
  lemma {:induction false} HashesBind(a: Bytes, b: Bytes, size: nat, hashes: seq<Checksum>, n: nat)
    requires Matches(a, size, hashes, n) && Matches(b, size, hashes, n)
    ensures Chunks(a, size, n) == Chunks(b, size, n)
    decreases n
  {
    if n > 0 {
      HashesBind(a, b, size, hashes, n - 1);
      assert hashes[n-1] == Crc(Chunk(a, size, n - 1)) == Crc(Chunk(b, size, n - 1));
    }
  }

  lemma VerifiedImageIsUnique(a: Bytes, b: Bytes, size: nat, hashes: seq<Checksum>, n: nat)
    requires size > 0 && n == CeilDiv(|a|, size) == CeilDiv(|b|, size)
    requires Matches(a, size, hashes, n) && Matches(b, size, hashes, n)
    ensures a == b
  {
    CeilDivMeans(|a|, size);
    CeilDivMeans(|b|, size);
    assert Pos(n, size) >= |a| && Pos(n, size) >= |b|;
    ChunksTile(a, size, n);
    ChunksTile(b, size, n);
    HashesBind(a, b, size, hashes, n);
  }

  const BOOT_MERKLE_MAX_CTX_SIZE: nat := 256

  /** What boot_merkle_verify_stream finds around it: the HAL and its functions, its two
      buffers, the size of the hash context, and where in the address space the hashes are. */
  datatype Setup = Setup(hal: bool, functions: bool, buffers: bool, ctxSize: nat, hashesAt: nat, addressMax: nat)

  /** What comes before the bounds of the image: everything is given. */
  predicate Given(e: Setup, size: nat, chunkSize: nat, n: nat, hashesLen: nat, arena: nat) {
    && e.hal && e.functions && e.buffers && e.ctxSize <= BOOT_MERKLE_MAX_CTX_SIZE
    && size > 0 && chunkSize > 0 && n > 0 && arena > 0 && hashesLen > 0
  }

  /** What the argument gates of boot_merkle_verify_stream let through. */
  predicate ArgumentsOk(e: Setup, addr: nat, size: nat, chunkSize: nat, n: nat, hashesLen: nat, arena: nat,
                        maxSector: nat, align: nat) {
    && Given(e, size, chunkSize, n, hashesLen, arena) && e.hashesAt + n * HASH_LEN <= e.addressMax
    && addr + size < U32 && n <= (U32 - 1) / chunkSize && n * HASH_LEN <= hashesLen && n <= (U32 - 1) / HASH_LEN
    && chunkSize <= maxSector && Al(chunkSize, align) && chunkSize <= arena
  }

  /** boot_merkle_verify_stream.  The caller passes the `hashesLen` bytes of `hashes`. */
  method VerifyStream(e: Setup, m: Bytes, addr: nat, size: nat, chunkSize: nat, n: nat, hashes: seq<Checksum>,
                      hashesLen: nat, arena: nat, maxSector: nat, align: nat) returns (st: Status)
    requires hashesLen <= HASH_LEN * |hashes| && (addr + size < U32 ==> addr + size <= |m|)
    ensures st == Ok <==>
              && ArgumentsOk(e, addr, size, chunkSize, n, hashesLen, arena, maxSector, align)
              && n == CeilDiv(size, chunkSize) && Matches(Slice(m, addr, size), chunkSize, hashes, n)
    ensures st == VerifyFailed <==>
              && ArgumentsOk(e, addr, size, chunkSize, n, hashesLen, arena, maxSector, align)
              && (n != CeilDiv(size, chunkSize) || !Matches(Slice(m, addr, size), chunkSize, hashes, n))
    ensures st == FlashBounds <==> Given(e, size, chunkSize, n, hashesLen, arena) && addr + size >= U32
    ensures st == NotSupported <==> e.hal && !e.functions
    ensures st in {Ok, FlashBounds, VerifyFailed, InvalidArg, NotSupported}
  {
    if !e.hal { return InvalidArg; }
    if !e.functions { return NotSupported; }
    if !e.buffers { return InvalidArg; }
    if size == 0 || chunkSize == 0 || n == 0 || arena == 0 || hashesLen == 0 { return InvalidArg; }
    if e.ctxSize > BOOT_MERKLE_MAX_CTX_SIZE { return InvalidArg; }
    if U32 - 1 < addr + size { return FlashBounds; }
    if n > (U32 - 1) / chunkSize || n > (U32 - 1) / HASH_LEN || n * HASH_LEN > hashesLen { return InvalidArg; }
    if e.hashesAt + n * HASH_LEN > e.addressMax { return InvalidArg; }
    if chunkSize > maxSector || !Al(chunkSize, align) || arena < chunkSize { return InvalidArg; }
    if n != CeilDiv(size, chunkSize) { return VerifyFailed; }
    st := VerifyChunks(m, addr, size, chunkSize, n, hashes);
  }

  /** The loop over the chunks. */
  method VerifyChunks(m: Bytes, addr: nat, size: nat, chunkSize: nat, n: nat, hashes: seq<Checksum>)
    returns (st: Status)
    requires size > 0 && chunkSize > 0 && n == CeilDiv(size, chunkSize) && n <= |hashes| && addr + size <= |m|
    ensures st == Ok || st == VerifyFailed
    ensures st == Ok <==> Matches(Slice(m, addr, size), chunkSize, hashes, n)
  {
    ghost var image := Slice(m, addr, size);
    hide Pos, CeilDiv, Slice, Chunk;
    var remaining, current := size, addr;
    PosNext(0, chunkSize);
    for i := 0 to n
      invariant current == addr + size - remaining && 0 <= remaining <= size
      invariant size - remaining == Min(Pos(i, chunkSize), size)
      invariant Matches(image, chunkSize, hashes, i)
    {
      var len := Min(remaining, chunkSize);
      var chunk := Slice(m, current, len);
      NthChunk(image, m, addr, size, chunkSize, n, i);
      if Crc(chunk) != hashes[i] { return VerifyFailed; }
      remaining, current := remaining - len, current + len;
    }
    return Ok;
  }

  lemma PosInside(size: nat, chunkSize: nat, n: nat, i: nat)
    requires chunkSize > 0 && i < n == CeilDiv(size, chunkSize)
    ensures Pos(i, chunkSize) < size
  {
    CeilDivMeans(size, chunkSize);
    MulMono(i, n - 1, chunkSize);
  }

  /** Every round of the loop starts inside the image, and reads chunk i. */
  lemma NthChunk(image: Bytes, m: Bytes, addr: nat, size: nat, chunkSize: nat, n: nat, i: nat)
    requires chunkSize > 0 && addr + size <= |m| && image == Slice(m, addr, size) && i < n == CeilDiv(size, chunkSize)
    ensures Pos(i, chunkSize) < size && Pos(i + 1, chunkSize) == Pos(i, chunkSize) + chunkSize
    ensures Slice(m, addr + Pos(i, chunkSize), Min(size - Pos(i, chunkSize), chunkSize)) == Chunk(image, chunkSize, i)
  {
    PosInside(size, chunkSize, n, i);
    PosNext(i, chunkSize);
    hide Pos, CeilDiv;
    var lo := Pos(i, chunkSize);
    SubSlice(m, addr, size, lo, Min(size - lo, chunkSize));
    assert image[lo..] == image[lo..size];
  }
}
