/** Sequence ids that wrap at 32 bits: the comparison shared by the journal and the
    record store, and the scan for the newest of them (section 3.2 of RFC 1982). */
module Serial {
  import opened Wrappers

  const WRAP: int := 0x1_0000_0000
  const HALF: int := 0x8000_0000

  type Id = x: int | 0 <= x < 0x1_0000_0000

  /** is_newer_sequence */
  predicate IsNewer(newer: Id, older: Id) {
    newer != older &&
    ((newer > older && newer - older <= HALF) || (newer < older && older - newer > HALF))
  }

  /** The id that stands for the unbounded count n. */
  function Wrapped(n: nat): (id: Id) {
    n % 0x1_0000_0000
  }

  lemma WrappedFrom(base: nat, k: nat)
    requires k < WRAP
    ensures Wrapped(base + k) == if Wrapped(base) + k < WRAP then Wrapped(base) + k else Wrapped(base) + k - WRAP
  {
  }

  /** Of two different ids exactly one is newer, whatever they are. */
  lemma Trichotomy(a: Id, b: Id)
    ensures a != b ==> (IsNewer(a, b) <==> !IsNewer(b, a))
    ensures !IsNewer(a, a)
  {
  }

  /** How far ahead an id may be and still count as newer: less than 2^31, and 2^31
      itself only as long as it has not wrapped. */
  lemma NewerExactly(base: nat, k: nat)
    requires 0 < k < WRAP
    ensures IsNewer(Wrapped(base + k), Wrapped(base)) <==> k < HALF || (k == HALF && Wrapped(base) < HALF)
  {
    WrappedFrom(base, k);
  }

  /** All of a collection of counts lie in a window shorter than 2^31. */
  ghost predicate InWindow(base: nat, n: nat) {
    base <= n < base + HALF
  }

  /** Inside such a window the comparison is the order of the counts, so it is a strict
      total order. */
  lemma NewerIsGreater(base: nat, x: nat, y: nat)
    requires InWindow(base, x) && InWindow(base, y)
    ensures IsNewer(Wrapped(x), Wrapped(y)) <==> x > y
    ensures Wrapped(x) == Wrapped(y) <==> x == y
  {
    WrappedFrom(base, x - base);
    WrappedFrom(base, y - base);
  }

  lemma NewerTransitive(base: nat, x: nat, y: nat, z: nat)
    requires InWindow(base, x) && InWindow(base, y) && InWindow(base, z)
    requires IsNewer(Wrapped(x), Wrapped(y)) && IsNewer(Wrapped(y), Wrapped(z))
    ensures IsNewer(Wrapped(x), Wrapped(z))
  {
    NewerIsGreater(base, x, y);
    NewerIsGreater(base, y, z);
    NewerIsGreater(base, x, z);
  }

  /** Outside it, it need not even be an order. */
  lemma NotTransitive()
    ensures IsNewer(0x5555_5555, 0) && IsNewer(0xAAAA_AAAA, 0x5555_5555) && IsNewer(0, 0xAAAA_AAAA)
  {
  }

  /** The protection test of the wear levelling, highest - id < window in 32-bit
      arithmetic, measures the true distance. */
  lemma ProtectedExactly(h: nat, q: nat, window: nat)
    requires q <= h < q + WRAP && window < WRAP
    ensures (Wrapped(h) - Wrapped(q)) % WRAP < window <==> h - q < window
  {
    WrappedFrom(q, h - q);
  }

  /** The slots of a scan: the counts behind the ids of the valid ones. */
  ghost predicate Behind(ids: seq<Option<Id>>, counts: seq<Option<nat>>, base: nat) {
    && |ids| == |counts|
    && forall i :: 0 <= i < |ids| ==> SlotBehind(ids[i], counts[i], base)
  }

  ghost predicate SlotBehind(id: Option<Id>, count: Option<nat>, base: nat) {
    if id.None? then count.None? else count.Some? && InWindow(base, count.value) && id.value == Wrapped(count.value)
  }

  /** The header scans of boot_journal_init and boot_rstore_read: in whatever order the
      slots come, the scan ends at the true newest. */
  method ScanNewest(ids: seq<Option<Id>>, ghost counts: seq<Option<nat>>, ghost base: nat)
    returns (found: bool, best: nat)
    requires Behind(ids, counts, base)
    ensures !found ==> forall i :: 0 <= i < |ids| ==> ids[i].None?
    ensures found ==> best < |ids| && counts[best].Some?
    ensures found ==> forall i :: 0 <= i < |ids| && counts[i].Some? ==> counts[i].value <= counts[best].value
    ensures found ==> forall i :: 0 <= i < best && counts[i].Some? ==> counts[i].value < counts[best].value
  {
    var highest: Id := 0;
    found, best := false, 0;
    for i := 0 to |ids|
      invariant !found ==> forall j :: 0 <= j < i ==> ids[j].None?
      invariant found ==> best < i && counts[best].Some? && ids[best] == Some(highest)
      invariant found ==> forall j :: 0 <= j < i && counts[j].Some? ==> counts[j].value <= counts[best].value
      invariant found ==> forall j :: 0 <= j < best && counts[j].Some? ==> counts[j].value < counts[best].value
    {
      assert SlotBehind(ids[i], counts[i], base);
      if ids[i].Some? {
        if found {
          assert SlotBehind(ids[best], counts[best], base);
          NewerIsGreater(base, counts[i].value, counts[best].value);
        }
        if !found || IsNewer(ids[i].value, highest) {
          highest, best, found := ids[i].value, i, true;
        }
      }
    }
  }
}
