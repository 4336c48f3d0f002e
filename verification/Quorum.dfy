/** The redundant record store: whole-record vote, bounded healing, and quorum writes
    (toobloader/core/boot_rstore.c). */
module Quorum {
  import opened FlashModel
  import opened Wrappers

  const RSTORE_MAX_SLOTS: nat := 8

  /** A record, compared as a whole. */
  type Record = seq<nat>

  /** A slot: erased, failing its checksum, or holding a record.  Sequence ids do not
      wrap here; Serial.dfy is about the wrapped comparison. */
  datatype Slot = Empty | Garbled | Held(id: nat, erase: nat, rec: Record)

  type Slots = seq<Slot>

  predicate HeldAt(S: Slots, i: int, v: Record) {
    0 <= i < |S| && S[i].Held? && S[i].rec == v
  }

  /** The slot with the newest record: the first one with the highest id. */
  predicate Newest(S: Slots, i: int) {
    && 0 <= i < |S| && S[i].Held?
    && (forall j :: 0 <= j < |S| && S[j].Held? ==> S[j].id <= S[i].id)
    && (forall j :: 0 <= j < i && S[j].Held? ==> S[j].id < S[i].id)
  }

  /** Two slots that agree on v. */
  predicate Pair(S: Slots, i: int, j: int, v: Record) {
    i < j && HeldAt(S, i, v) && HeldAt(S, j, v)
  }

  ghost predicate Twice(S: Slots, v: Record) {
    exists i, j :: Pair(S, i, j, v)
  }

  /** No record other than v is held twice. */
  ghost predicate NoRivals(S: Slots, v: Record) {
    forall i, j, u :: Pair(S, i, j, u) ==> u == v
  }

  ghost predicate IsNewest(S: Slots, v: Record) {
    exists i :: Newest(S, i) && S[i].rec == v
  }

  /** States that read as v, and keep reading as v while they are healed. */
  ghost predicate Reads(S: Slots, v: Record) {
    (IsNewest(S, v) && (Twice(S, v) || NoRivals(S, v))) || (Twice(S, v) && NoRivals(S, v))
  }

  /** States a write may start from: they read as v, also without slot 0, and nothing
      else is held twice. */
  ghost predicate Ready(S: Slots, v: Record) {
    |S| >= 3 && NoRivals(S, v) && Reads(S, v) && Reads(S[0 := Garbled], v)
  }

  predicate Deviates(S: Slots, i: int, v: Record) {
    0 <= i < |S| && !HeldAt(S, i, v)
  }

  /** The slot the next read heals. */
  predicate FirstDeviant(S: Slots, i: int, v: Record) {
    Deviates(S, i, v) && forall j :: 0 <= j < i ==> HeldAt(S, j, v)
  }

  /** Slot i lost what it held, or kept it. */
  predicate Torn(S: Slots, S': Slots, i: nat) {
    |S'| == |S| && i < |S| && (S'[i] == S[i] || !S'[i].Held?) && forall j :: 0 <= j < |S| && j != i ==> S'[j] == S[j]
  }

  /** The erase count that a slot has on record. */
  function Wear(s: Slot): nat {
    if s.Held? then s.erase else 0
  }

  /** The highest id of all, 0 if nothing is held. */
  ghost predicate TopIs(S: Slots, top: nat) {
    if forall i :: 0 <= i < |S| ==> !S[i].Held? then top == 0 else exists i :: Newest(S, i) && S[i].id == top
  }

  lemma TopIsOne(S: Slots, top: nat, top': nat)
    requires TopIs(S, top) && TopIs(S, top')
    ensures top == top'
  {
  }

  /** A record with the id n past the one after `top`, and one erase more on record than before. */
  predicate Stamped(S: Slots, S': Slots, i: int, top: nat, n: int) {
    0 <= i < |S| == |S'| && S'[i].Held? && S'[i].id == top + 1 + n && S'[i].erase == Wear(S[i]) + 1
  }

  /** The first k slots, with rising ids. */
  ghost predicate Numbered(S: Slots, S': Slots, k: nat, top: nat) {
    forall i :: 0 <= i < k ==> Stamped(S, S', i, top, i)
  }

  lemma NothingWritten(S: Slots, top: nat, u: Record)
    ensures Numbered(S, S, 0, top) && Partial(S, S, 0, u)
  {
  }

  lemma NumberedNext(S: Slots, S1: Slots, S2: Slots, k: nat, top: nat, took: bool)
    requires Numbered(S, S1, k, top) && k < |S| == |S1| == |S2| && forall j :: 0 <= j < k ==> S2[j] == S1[j]
    requires took ==> Stamped(S, S2, k, top, k)
    ensures Numbered(S, S2, if took then k + 1 else k, top)
  {
    forall i | 0 <= i < if took then k + 1 else k ensures Stamped(S, S2, i, top, i) {
      assert i < k ==> Stamped(S, S1, i, top, i);
    }
  }

  ghost predicate Above(S: Slots, top: nat) {
    forall i :: 0 <= i < |S| && S[i].Held? ==> S[i].id < top
  }

  /** Losing a slot that does not hold v does no harm. */
  lemma TornHealing(S: Slots, S': Slots, i: nat, v: Record)
    requires Reads(S, v) && Deviates(S, i, v) && Torn(S, S', i)
    ensures Reads(S', v)
  {
    forall a, b, u | Pair(S', a, b, u) ensures Pair(S, a, b, u) {}
    forall a, b | Pair(S, a, b, v) ensures Pair(S', a, b, v) {}
    if IsNewest(S, v) {
      var n :| Newest(S, n) && S[n].rec == v;
      assert Newest(S', n) && S'[n].rec == v;
    }
  }

  /** A completed healing still reads as v; and with at most four slots it makes the
      store ready for a write. */
  lemma Healed(S: Slots, i: nat, v: Record, top: nat, erase: nat)
    requires Reads(S, v) && FirstDeviant(S, i, v) && Above(S, top)
    ensures var S' := S[i := Held(top, erase, v)];
            Reads(S', v) && (3 <= |S| <= 4 ==> Ready(S', v))
  {
    var S' := S[i := Held(top, erase, v)];
    assert Newest(S', i);
    assert HeldAt(S', i, v);
    var k := SomeHolder(S, v);
    assert HeldAt(S', k, v);
    assert Pair(S', i, k, v) || Pair(S', k, i, v);
    forall a, b, u | Pair(S', a, b, u) && u != v ensures Pair(S, a, b, u) {}
    if 3 <= |S| <= 4 { AfterHealing(S, i, v, top, erase); }
  }

  lemma SomeHolder(S: Slots, v: Record) returns (k: nat)
    requires Reads(S, v)
    ensures HeldAt(S, k, v)
  {
    if IsNewest(S, v) {
      k :| Newest(S, k) && S[k].rec == v;
    } else {
      var a, b :| Pair(S, a, b, v);
      k := a;
    }
  }

  lemma AfterHealing(S: Slots, i: nat, v: Record, top: nat, erase: nat)
    requires Reads(S, v) && FirstDeviant(S, i, v) && Above(S, top) && 3 <= |S| <= 4
    ensures var S' := S[i := Held(top, erase, v)]; Reads(S', v) ==> Ready(S', v)
  {
    var S' := S[i := Held(top, erase, v)];
    if NoRivals(S, v) {
      forall a, b, u | Pair(S', a, b, u) && u != v ensures Pair(S, a, b, u) {}
    } else {
      var x, y :| Pair(S, x, y, v);
      forall a, b, u | Pair(S', a, b, u) ensures u == v {}
    }
    var T := S'[0 := Garbled];
    forall a, b, u | Pair(T, a, b, u) ensures Pair(S', a, b, u) {}
    if i == 0 {
      assert Torn(S, T, 0);
      TornHealing(S, T, 0, v);
    } else {
      assert Newest(T, i);
    }
  }

  /** A store in which every slot holds v is ready. */
  lemma AllAgree(S: Slots, v: Record)
    requires |S| >= 3 && forall i :: 0 <= i < |S| ==> HeldAt(S, i, v)
    ensures Ready(S, v)
  {
    forall a, b, u | Pair(S, a, b, u) ensures u == v { assert HeldAt(S, a, v); }
    assert HeldAt(S, 1, v) && HeldAt(S, 2, v);
    var T := S[0 := Garbled];
    assert Pair(S, 1, 2, v) && Pair(T, 1, 2, v);
    forall a, b, u | Pair(T, a, b, u) ensures Pair(S, a, b, u) {}
  }

  /** A write of u that stopped after k slots, with slot k torn or not begun. */
  ghost predicate Partial(S: Slots, S': Slots, k: nat, u: Record) {
    && |S'| == |S| && k <= |S|
    && (forall i :: 0 <= i < k ==> HeldAt(S', i, u))
    && (k < |S| ==> S'[k] == S[k] || !S'[k].Held?)
    && (forall i :: k < i < |S| ==> S'[i] == S[i])
    && (k > 0 ==> Newest(S', k - 1))
  }

  /** The next slot is written, or torn. */
  lemma PartialNext(S0: Slots, S: Slots, S': Slots, i: nat, id: nat, erase: nat, u: Record, took: bool)
    requires Partial(S0, S, i, u) && i < |S| && S[i] == S0[i] && Above(S, id)
    requires if took then S' == S[i := Held(id, erase, u)] else Torn(S, S', i)
    ensures Partial(S0, S', if took then i + 1 else i, u) && (took ==> Above(S', id + 1))
    ensures |S'| == |S| && forall j :: 0 <= j < |S| && j != i ==> S'[j] == S[j]
  {
    forall j | 0 <= j < i ensures HeldAt(S', j, u) { assert HeldAt(S, j, u); }
    if took {
      assert Newest(S', i);
    } else if i > 0 {
      assert Newest(S, i - 1);
    }
  }

  /** Only what is held counts. */
  lemma SameHeld(S: Slots, S': Slots, v: Record)
    requires |S| == |S'| && Reads(S, v)
    requires forall i :: 0 <= i < |S| ==> S'[i] == S[i] || (!S[i].Held? && !S'[i].Held?)
    ensures Reads(S', v)
  {
    forall a, b, x ensures Pair(S', a, b, x) <==> Pair(S, a, b, x) {}
    if IsNewest(S, v) {
      var n :| Newest(S, n) && S[n].rec == v;
      assert Newest(S', n) && S'[n].rec == v;
    }
  }

  lemma PartialNone(S: Slots, S': Slots, v: Record, u: Record)
    requires Ready(S, v) && Partial(S, S', 0, u)
    ensures Reads(S', v)
  {
    var T := S[0 := Garbled];
    if S'[0].Held? {
      assert S' == S;
    } else {
      SameHeld(T, S', v);
    }
  }

  lemma PartialOne(S: Slots, S': Slots, v: Record, u: Record)
    requires Ready(S, v) && Partial(S, S', 1, u)
    ensures Reads(S', v) || Reads(S', u)
  {
    assert HeldAt(S', 0, u) && Newest(S', 0);
    forall a, b, x | Pair(S', a, b, x) && a > 0 ensures x == v { assert Pair(S, a, b, x); }
    if !Twice(S', u) {
      forall a, b, x | Pair(S', a, b, x) ensures x == v {
        assert a == 0 ==> x == u;
      }
    }
  }

  /** Whatever the cut left reads as the old or as the new record. */
  lemma PartialReads(S: Slots, S': Slots, k: nat, v: Record, u: Record)
    requires Ready(S, v) && Partial(S, S', k, u)
    ensures Reads(S', v) || Reads(S', u)
  {
    if k == 0 {
      PartialNone(S, S', v, u);
    } else if k == 1 {
      PartialOne(S, S', v, u);
    } else {
      assert HeldAt(S', 0, u) && HeldAt(S', 1, u) && HeldAt(S', k - 1, u);
      assert Pair(S', 0, 1, u);
      assert Newest(S', k - 1) && S'[k-1].rec == u;
    }
  }

  // ---- The store -------------------------------------------------------------------

  class Store {
    var S: Slots
    var cuts: nat

    /** boot_rstore_read rejects other slot counts. */
    predicate Sized()
      reads this`S
    {
      3 <= |S| <= RSTORE_MAX_SLOTS
    }

    /** Smart erase and rstore_write_slot on slot i; `took` says the record is there. */
    method Rewrite(i: nat, id: nat, erase: nat, v: Record) returns (st: Status, ghost took: bool)
      requires i < |S|
      modifies this
      ensures st == Ok || st == PowerCut
      ensures if st == PowerCut then cuts < old(cuts) else cuts == old(cuts)
      ensures if took then S == old(S)[i := Held(id, erase, v)] else st == PowerCut && Torn(old(S), S, i)
    {
      var cut: bool, stage: nat := *, *;
      if !cut || cuts == 0 {
        S := S[i := Held(id, erase, v)];
        return Ok, true;
      }
      cuts := cuts - 1;
      took := stage >= 3;
      if stage == 1 { S := S[i := Empty]; }
      if stage == 2 { S := S[i := Garbled]; }
      if stage >= 3 { S := S[i := Held(id, erase, v)]; }
      return PowerCut, took;
    }

    /** The scan for the newest valid slot. */
    method FindNewest() returns (found: bool, n: nat)
      ensures found ==> Newest(S, n)
      ensures !found ==> forall i :: 0 <= i < |S| ==> !S[i].Held?
    {
      found, n := false, 0;
      for i := 0 to |S|
        invariant !found ==> forall j :: 0 <= j < i ==> !S[j].Held?
        invariant found ==> n < i && S[n].Held?
        invariant found ==> forall j :: 0 <= j < i && S[j].Held? ==> S[j].id <= S[n].id
        invariant found ==> forall j :: 0 <= j < n && S[j].Held? ==> S[j].id < S[n].id
      {
        if S[i].Held? && (!found || S[i].id > S[n].id) { found, n := true, i; }
      }
    }

    /** How many valid slots after `from`, other than n, hold what slot i holds. */
    method CountAgreeing(i: nat, from: nat, n: nat) returns (count: nat)
      requires i < |S| && S[i].Held? && from <= |S|
      ensures count > 0 <==> exists j :: from <= j < |S| && j != n && HeldAt(S, j, S[i].rec)
    {
      count := 0;
      for j := from to |S|
        invariant count > 0 <==> exists k :: from <= k < j && k != n && HeldAt(S, k, S[i].rec)
      {
        if j != n && S[j].Held? && S[j].rec == S[i].rec {
          assert HeldAt(S, j, S[i].rec);
          count := count + 1;
        }
      }
    }

    /** The whole-record vote: the newest record if it has company, else the first pair
        among the others, else the newest. */
    method Vote(n: nat) returns (v: Record)
      requires Newest(S, n)
      ensures forall u :: Reads(S, u) ==> v == u
      ensures exists i :: HeldAt(S, i, v)
    {
      assert HeldAt(S, n, S[n].rec);
      var agree := CountAgreeing(n, 0, n);
      CompanyIsTwice(n);
      if agree > 0 { VotedNewest(n); return S[n].rec; }
      for i := 0 to |S|
        invariant forall a, b, u :: a < i && Pair(S, a, b, u) ==> u == S[n].rec
      {
        if S[i].Held? && i != n {
          var pairs := CountAgreeing(i, i + 1, n);
          if pairs > 0 {
            ghost var j :| i + 1 <= j < |S| && j != n && HeldAt(S, j, S[i].rec);
            assert HeldAt(S, i, S[i].rec) && Pair(S, i, j, S[i].rec);
            VotedPair(n, i, j);
            return S[i].rec;
          }
          forall b, u | Pair(S, i, b, u) ensures u == S[n].rec {
            assert HeldAt(S, b, u) && HeldAt(S, b, S[i].rec);
          }
        }
        forall b, u | Pair(S, i, b, u) ensures u == S[n].rec {}
      }
      VotedNewest(n);
      return S[n].rec;
    }

    lemma CompanyIsTwice(n: nat)
      requires Newest(S, n)
      ensures Twice(S, S[n].rec) <==> exists j :: 0 <= j < |S| && j != n && HeldAt(S, j, S[n].rec)
    {
      assert HeldAt(S, n, S[n].rec);
      if Twice(S, S[n].rec) {
        var a, b :| Pair(S, a, b, S[n].rec);
        assert HeldAt(S, a, S[n].rec) && HeldAt(S, b, S[n].rec);
      }
      if j :| 0 <= j < |S| && j != n && HeldAt(S, j, S[n].rec) {
        assert Pair(S, j, n, S[n].rec) || Pair(S, n, j, S[n].rec);
      }
    }

    lemma VotedNewest(n: nat)
      requires Newest(S, n)
      requires Twice(S, S[n].rec) || forall a, b, u :: Pair(S, a, b, u) ==> u == S[n].rec
      ensures forall u :: Reads(S, u) ==> u == S[n].rec
    {
      forall u | Reads(S, u) ensures u == S[n].rec {
        if IsNewest(S, u) {
          var m :| Newest(S, m) && S[m].rec == u;
          assert m == n;
        }
      }
    }

    lemma VotedPair(n: nat, i: nat, j: nat)
      requires Newest(S, n) && i < |S| && S[i].Held? && Pair(S, i, j, S[i].rec) && !Twice(S, S[n].rec)
      ensures forall u :: Reads(S, u) ==> u == S[i].rec
    {
      forall u | Reads(S, u) ensures u == S[i].rec {}
    }

    /** boot_rstore_read: the vote, and the healing of at most one slot. */
    method Read() returns (st: Status, v: Record)
      modifies this
      ensures |S| == |old(S)|
      ensures !old(Sized()) ==> st == InvalidArg && S == old(S)
      ensures old(Sized()) ==>
              st == Ok || st == PowerCut || (st == NotFound && S == old(S) && forall i :: 0 <= i < |S| ==> !S[i].Held?)
      ensures st == Ok || st == PowerCut ==>
              (forall u :: Reads(old(S), u) ==> u == v) && exists i :: HeldAt(old(S), i, v)
      ensures st == Ok ==> Mended(old(S), S, v)
      ensures st == Ok ==>
                forall i, top: nat :: FirstDeviant(old(S), i, v) && TopIs(old(S), top) ==> Stamped(old(S), S, i, top, 0)
      ensures st == PowerCut ==>
              exists i :: FirstDeviant(old(S), i, v) && (Torn(old(S), S, i) || MendedAt(old(S), S, i, v))
      ensures if st == PowerCut then cuts < old(cuts) else cuts == old(cuts)
    {
      v := [];
      if |S| < 3 || |S| > RSTORE_MAX_SLOTS { return InvalidArg, v; }
      var found, n := FindNewest();
      if !found { return NotFound, v; }
      v := Vote(n);
      var top := S[n].id + 1;
      for i := 0 to |S|
        invariant S == old(S) && cuts == old(cuts) && forall j :: 0 <= j < i ==> HeldAt(S, j, v)
      {
        if !(S[i].Held? && S[i].rec == v) {
          assert FirstDeviant(old(S), i, v);
          var erase := if S[i].Held? then S[i].erase else 0;
          ghost var took;
          st, took := Rewrite(i, top, erase + 1, v);
          assert took ==> MendedAt(old(S), S, i, v);
          return;
        }
      }
      st := Ok;
    }

    /** boot_rstore_write: every slot in turn, each with a higher id than all before.
        `k` is how many were complete when it ended. */
    method Write(u: Record) returns (st: Status, ghost k: nat)
      modifies this
      ensures |S| == |old(S)|
      ensures !old(Sized()) ==> st == InvalidArg && S == old(S)
      ensures old(Sized()) ==> (st == Ok || st == PowerCut) && Partial(old(S), S, k, u)
      ensures st == Ok ==> k == |S|
      ensures old(Sized()) ==> forall top: nat :: TopIs(old(S), top) ==> Numbered(old(S), S, k, top)
      ensures if st == PowerCut then cuts < old(cuts) else cuts == old(cuts)
    {
      k := 0;
      if |S| < 3 || |S| > RSTORE_MAX_SLOTS { return InvalidArg, k; }
      var found, n := FindNewest();
      var id: nat := if found then S[n].id else 0;
      ghost var top := id;
      assert TopIs(S, top);
      forall t: nat | TopIs(S, t) ensures t == top { TopIsOne(S, t, top); }
      NothingWritten(S, top, u);
      hide TopIs, Numbered, Partial, Torn, Newest;
      for i := 0 to |S|
        invariant |S| == |old(S)| && Partial(old(S), S, i, u) && Above(S, id + 1) && cuts == old(cuts)
        invariant i < |S| ==> S[i] == old(S[i])
        invariant id == top + i && Numbered(old(S), S, i, top)
      {
        k := i;
        id := id + 1;
        var erase := if S[i].Held? then S[i].erase else 0;
        ghost var took;
        ghost var before := S;
        st, took := Rewrite(i, id, erase + 1, u);
        NumberedNext(old(S), before, S, i, top, took);
        PartialNext(old(S), before, S, i, id, erase + 1, u, took);
        k := if took then i + 1 else i;
        if st != Ok { return; }
      }
      return Ok, |S|;
    }

    /** Read until a read completes.  With at most four slots the store is then ready
        for a write; the value never changes. */
    method CompleteRead(ghost v: Record) returns (r: Record)
      requires Sized() && Reads(S, v)
      modifies this
      ensures r == v && Reads(S, v) && |S| == |old(S)| && cuts <= old(cuts)
      ensures |S| <= 4 ==> Ready(S, v)
    {
      while true
        invariant Sized() && |S| == |old(S)| && Reads(S, v) && cuts <= old(cuts)
        decreases cuts
      {
        var st;
        ghost var before := S;
        ghost var k := SomeHolder(S, v);
        st, r := Read();
        if st == Ok {
          MendedReads(before, S, v);
          return;
        }
        CutReads(before, S, v);
      }
    }

    lemma VoterExists(v: Record)
      requires Reads(S, v)
      ensures exists i :: 0 <= i < |S| && S[i].Held?
    {
      var k := SomeHolder(S, v);
    }

    /** As many uninterrupted reads as there are slots make all slots agree, and the value
        stays what it was. */
    method Converge(ghost v: Record) returns (all: bool, r: Record)
      requires Sized() && Reads(S, v)
      modifies this
      ensures Reads(S, v) && |S| == |old(S)|
      ensures all ==> r == v && forall i :: 0 <= i < |S| ==> HeldAt(S, i, v)
      ensures !all ==> cuts < old(cuts)
    {
      var n := |S|;
      r := [];
      for i := 0 to n
        invariant |S| == n && Sized() && Reads(S, v) && cuts == old(cuts)
        invariant (i > 0 ==> r == v) && forall j :: 0 <= j < i ==> HeldAt(S, j, v)
      {
        hide Reads, Mended;
        ghost var before := S;
        VoterExists(v);
        var st;
        st, r := Read();
        if st != Ok {
          CutReads(before, S, v);
          return false, r;
        }
        MendedReads(before, S, v);
        MendedPrefix(before, S, v, i);
      }
      return true, r;
    }

    /** One read, complete or cut. */
    method ReadOnce(ghost v: Record) returns (r: Option<Record>)
      requires 3 <= |S| <= 4 && Reads(S, v)
      modifies this
      ensures Reads(S, v) && |S| == |old(S)|
      ensures r.Some? ==> r.value == v && Ready(S, v)
      ensures if r.None? then cuts < old(cuts) else cuts == old(cuts)
    {
      hide Reads, Ready, Mended;
      ghost var before := S;
      VoterExists(v);
      var st, x := Read();
      if st != Ok {
        CutReads(before, S, v);
        return None;
      }
      MendedReads(before, S, v);
      return Some(x);
    }

    /** One write to a store that is ready for it. */
    method WriteOnce(u: Record, ghost v: Record) returns (done: bool, ghost took: bool)
      requires 3 <= |S| <= 4 && Ready(S, v)
      modifies this
      ensures |S| == |old(S)| && Reads(S, if took then u else v)
      ensures done ==> took && Ready(S, u)
      ensures if done then cuts == old(cuts) else cuts < old(cuts)
    {
      ghost var before := S;
      var st;
      ghost var k;
      st, k := Write(u);
      hide Reads, Ready;
      PartialReads(before, S, k, v, u);
      if st == Ok { AllAgree(S, u); }
      done, took := st == Ok, st == Ok || !Reads(S, v);
    }

    /** Any history of reads and writes with cuts anywhere, on a store of three or four
        slots.  A write needs a read that has completed in the same power cycle: if there
        is none, it is made first.  The store then behaves like one atomic record: `done`
        says which operations completed and `took` which writes had an effect, and every
        read that completes returns the last record that had one. */
    method History(ops: seq<Op>, ghost v0: Record)
      returns (done: seq<bool>, got: seq<Option<Record>>, ghost took: seq<bool>)
      requires 3 <= |S| <= 4 && Reads(S, v0)
      modifies this
      ensures |done| == |got| == |took| == |ops| && Reads(S, Last(v0, ops, took))
      ensures forall i :: 0 <= i < |ops| && ops[i].Put? && done[i] ==> took[i]
      ensures forall i :: 0 <= i < |ops| && got[i].Some? ==> got[i].value == Last(v0, ops[..i], took[..i])
      ensures old(cuts) == 0 ==> forall i :: 0 <= i < |ops| ==> done[i] && (ops[i].Get? ==> got[i].Some?)
    {
      hide Reads, Ready;
      done, got, took := [], [], [];
      var ready := false;
      ghost var v := v0;
      for i := 0 to |ops|
        invariant 3 <= |S| <= 4 && |done| == |got| == |took| == i && v == Last(v0, ops[..i], took) && Reads(S, v)
        invariant ready ==> Ready(S, v)
        invariant forall j :: 0 <= j < i && ops[j].Put? && done[j] ==> took[j]
        invariant forall j :: 0 <= j < i && got[j].Some? ==> got[j].value == Last(v0, ops[..j], took[..j])
        invariant cuts <= old(cuts)
        invariant old(cuts) == 0 ==> forall j :: 0 <= j < i ==> done[j] && (ops[j].Get? ==> got[j].Some?)
      {
        ghost var effect := false;
        var r: Option<Record> := None;
        match ops[i] {
          case Get =>
            r := ReadOnce(v);
            ready := r.Some?;
          case Put(u) =>
            if !ready { var x := CompleteRead(v); }
            ready, effect := WriteOnce(u, v);
        }
        LastStep(v0, ops, i, took, effect);
        assert forall j :: 0 <= j < i ==> (took + [effect])[..j] == took[..j];
        assert (took + [effect])[..i] == took;
        v := if effect then ops[i].rec else v;
        done, got, took := done + [ready], got + [r], took + [effect];
      }
      assert ops[..|ops|] == ops;
    }
  }

  datatype Op = Get | Put(rec: Record)

  /** The last of the records that had an effect. */
  function Last(v0: Record, ops: seq<Op>, took: seq<bool>): Record
    requires |ops| == |took|
  {
    if ops == [] then v0
    else if took[|took|-1] && ops[|ops|-1].Put? then ops[|ops|-1].rec
    else Last(v0, ops[..|ops|-1], took[..|took|-1])
  }

  lemma LastStep(v0: Record, ops: seq<Op>, i: nat, took: seq<bool>, effect: bool)
    requires i < |ops| && |took| == i
    ensures Last(v0, ops[..i + 1], took + [effect]) ==
              if effect && ops[i].Put? then ops[i].rec else Last(v0, ops[..i], took)
  {
    var xs, ts := ops[..i + 1], took + [effect];
    assert xs[..|xs| - 1] == ops[..i] && ts[..|ts| - 1] == took;
  }

  lemma MendedReads(S: Slots, S': Slots, v: Record)
    requires Reads(S, v) && Mended(S, S', v) && |S| >= 3
    ensures Reads(S', v) && (|S| <= 4 ==> Ready(S', v))
  {
    if forall i :: 0 <= i < |S| ==> HeldAt(S, i, v) {
      AllAgree(S, v);
    } else {
      var i :| FirstDeviant(S, i, v) && MendedAt(S, S', i, v);
      assert S' == S[i := Held(S'[i].id, S'[i].erase, v)];
      Healed(S, i, v, S'[i].id, S'[i].erase);
    }
  }

  /** Each completed read lengthens the prefix of slots that agree. */
  lemma MendedPrefix(S: Slots, S': Slots, v: Record, i: nat)
    requires Mended(S, S', v) && i < |S| == |S'| && forall j :: 0 <= j < i ==> HeldAt(S, j, v)
    ensures forall j :: 0 <= j <= i ==> HeldAt(S', j, v)
  {
    if !(forall j :: 0 <= j < |S| ==> HeldAt(S, j, v)) {
      var k :| FirstDeviant(S, k, v) && MendedAt(S, S', k, v);
      forall j | 0 <= j <= i ensures HeldAt(S', j, v) {
        if j != k { assert HeldAt(S, j, v); }
      }
    }
  }

  lemma CutReads(S: Slots, S': Slots, v: Record)
    requires Reads(S, v) && |S| >= 3
    requires exists i :: FirstDeviant(S, i, v) && (Torn(S, S', i) || MendedAt(S, S', i, v))
    ensures Reads(S', v)
  {
    var i :| FirstDeviant(S, i, v) && (Torn(S, S', i) || MendedAt(S, S', i, v));
    if Torn(S, S', i) {
      TornHealing(S, S', i, v);
    } else {
      assert S' == S[i := Held(S'[i].id, S'[i].erase, v)];
      Healed(S, i, v, S'[i].id, S'[i].erase);
    }
  }

  predicate MendedAt(S: Slots, S': Slots, i: int, v: Record) {
    && 0 <= i < |S| == |S'| && HeldAt(S', i, v)
    && (forall j :: 0 <= j < |S| && S[j].Held? ==> S[j].id < S'[i].id)
    && forall j :: 0 <= j < |S| && j != i ==> S'[j] == S[j]
  }

  /** A completed read repaired the first slot that does not hold v, if there is one. */
  ghost predicate Mended(S: Slots, S': Slots, v: Record) {
    if forall i :: 0 <= i < |S| ==> HeldAt(S, i, v) then S' == S
    else exists i :: FirstDeviant(S, i, v) && MendedAt(S, S', i, v)
  }

  // ---- Why the limits are needed --------------------------------------------------------

  /** n slots: the first ones as listed, the rest as a first write of x left them. */
  function Mixed(first: Slots, n: nat, x: Record): (S: Slots)
    requires |first| <= n
    ensures |S| == n
  {
    first + seq(n - |first|, k requires 0 <= k => Held(|first| + k + 1, 1, x))
  }

  lemma MixedTail(first: Slots, n: nat, x: Record)
    requires |first| <= n
    ensures forall i :: |first| <= i < n ==> Mixed(first, n, x)[i] == Held(i + 1, 1, x)
    ensures forall i :: 0 <= i < |first| ==> Mixed(first, n, x)[i] == first[i]
  {
  }

  function CutWrite(n: nat, x: Record, u: Record): Slots
    requires n >= 5
  {
    Mixed([Held(n + 1, 2, u), Held(n + 2, 2, u), Garbled], n, x)
  }

  function HealedOnce(n: nat, x: Record, u: Record): Slots
    requires n >= 5
  {
    Mixed([Held(n + 1, 2, u), Held(n + 2, 2, u), Held(n + 3, 1, u)], n, x)
  }

  function CutAgain(n: nat, x: Record, u: Record, w: Record): Slots
    requires n >= 5
  {
    Mixed([Held(n + 4, 3, w), Garbled, Held(n + 3, 1, u)], n, x)
  }

  /** With five slots or more a completed read before each write is not enough.  All
      slots hold x; a write of u is cut in its third slot and reads as u; one read
      completes and heals that slot; then a write of w is cut in its second slot, and the
      store reads as x, which is neither the old nor the new record. */
  lemma FiveSlotsUnsafe(n: nat, x: Record, u: Record, w: Record)
    requires n >= 5 && x != u && x != w && u != w
    ensures var S0, S1, S2, S3 := Mixed([], n, x), CutWrite(n, x, u), HealedOnce(n, x, u), CutAgain(n, x, u, w);
            && Ready(S0, x) && Partial(S0, S1, 2, u)
            && Reads(S1, u) && Mended(S1, S2, u) && Reads(S2, u)
            && Partial(S2, S3, 1, w) && Reads(S3, x)
  {
    hide Reads, Ready, Mended, Newest;
    StaleReady(n, x);
    StaleCut(n, x, u);
    StaleRead(n, x, u);
    StaleWins(n, x, u, w);
  }

  lemma StaleReady(n: nat, x: Record)
    requires n >= 5
    ensures Ready(Mixed([], n, x), x)
  {
    var S0 := Mixed([], n, x);
    MixedTail([], n, x);
    hide Mixed, Ready;
    forall i | 0 <= i < n ensures HeldAt(S0, i, x) {}
    AllAgree(S0, x);
  }

  lemma StaleCut(n: nat, x: Record, u: Record)
    requires n >= 5
    ensures Partial(Mixed([], n, x), CutWrite(n, x, u), 2, u)
  {
    MixedTail([], n, x);
    MixedTail([Held(n + 1, 2, u), Held(n + 2, 2, u), Garbled], n, x);
    hide Mixed;
    assert Newest(CutWrite(n, x, u), 1);
  }

  lemma StaleRead(n: nat, x: Record, u: Record)
    requires n >= 5 && x != u
    ensures var S1, S2 := CutWrite(n, x, u), HealedOnce(n, x, u); Reads(S1, u) && Mended(S1, S2, u) && Reads(S2, u)
  {
    var S1, S2 := CutWrite(n, x, u), HealedOnce(n, x, u);
    MixedTail([Held(n + 1, 2, u), Held(n + 2, 2, u), Garbled], n, x);
    MixedTail([Held(n + 1, 2, u), Held(n + 2, 2, u), Held(n + 3, 1, u)], n, x);
    hide Mixed;
    assert HeldAt(S1, 0, u) && HeldAt(S1, 1, u) && !HeldAt(S1, 2, u);
    assert Pair(S1, 0, 1, u) && Newest(S1, 1);
    assert FirstDeviant(S1, 2, u) && MendedAt(S1, S2, 2, u);
    assert Pair(S2, 0, 1, u) && Newest(S2, 2);
  }

  lemma StaleWins(n: nat, x: Record, u: Record, w: Record)
    requires n >= 5 && x != u && x != w && u != w
    ensures var S2, S3 := HealedOnce(n, x, u), CutAgain(n, x, u, w); Partial(S2, S3, 1, w) && Reads(S3, x)
  {
    var S2, S3 := HealedOnce(n, x, u), CutAgain(n, x, u, w);
    MixedTail([Held(n + 1, 2, u), Held(n + 2, 2, u), Held(n + 3, 1, u)], n, x);
    MixedTail([Held(n + 4, 3, w), Garbled, Held(n + 3, 1, u)], n, x);
    hide Mixed;
    assert HeldAt(S3, 0, w) && Newest(S3, 0);
    assert Pair(S3, 3, 4, x);
    forall a, b, r | Pair(S3, a, b, r) ensures r == x {
      assert b >= 3;
    }
  }

  /** Nor may the read be left out, even with three slots: here a write of u was cut in its
      second slot and reads as u, and the next write, cut in its first slot, brings back x. */
  lemma UnreadWriteUnsafe(x: Record, u: Record)
    requires x != u
    ensures var S1, S2 := [Held(4, 2, u), Garbled, Held(3, 1, x)], [Garbled, Garbled, Held(3, 1, x)];
            && Reads(S1, u) && (forall w :: Partial(S1, S2, 0, w)) && Reads(S2, x)
  {
    var S1, S2 := [Held(4, 2, u), Garbled, Held(3, 1, x)], [Garbled, Garbled, Held(3, 1, x)];
    assert Newest(S1, 0) && S1[0].rec == u;
    assert Newest(S2, 2) && S2[2].rec == x;
    forall a, b, r | Pair(S1, a, b, r) ensures r == u {}
  }
}
