/** The write-ahead log: sector rotation with wear levelling, the majority register in
    the sector headers, and the reconstruction of the open transaction
    (toobloader/core/boot_journal.c), at the level of headers and entries. */
module Journal {
  import opened FlashModel
  import opened Wrappers

  /** toobloader/core/include/boot_journal.h:158 */
  const WAL_PROTECT_WINDOW: nat := 4

  /** wal_tmr_payload_t as the list of its fields.  The journal compares it as a whole. */
  type Tmr = seq<nat>
  const FACTORY_TMR: Tmr := []

  /** A sector header: erased, failing its checksum, or intact.  Sequence ids do not
      wrap here; Serial.dfy is about the wrapped comparison. */
  datatype Header = Blank | Garbled | Valid(seq_id: nat, erase: nat, tmr: Tmr)

  datatype Intent =
    | NetSearchAccum | DownloadCheckpoint | SleepBackoff | DeprecatedNonce | TxnRollbackPending
    | Main(code: nat)

  datatype Entry = Entry(intent: Intent, payload: seq<nat>)

  datatype Slot = Free | Torn | Holds(entry: Entry)

  datatype Sector = Sector(header: Header, slots: seq<Slot>)

  type Sectors = seq<Sector>

  // ---- Sequence ids ------------------------------------------------------------------

  predicate SeqAt(S: Sectors, i: int, q: nat) {
    0 <= i < |S| && S[i].header.Valid? && S[i].header.seq_id == q
  }

  ghost predicate Has(S: Sectors, q: nat) {
    exists i :: SeqAt(S, i, q)
  }

  /** Every sequence id names one sector, and none is above h. */
  ghost predicate Distinct(S: Sectors, h: nat) {
    && (forall i, q: nat :: SeqAt(S, i, q) ==> 1 <= q <= h)
    && (forall i, j, q: nat :: SeqAt(S, i, q) && SeqAt(S, j, q) ==> i == j)
  }

  /** The newest sectors, as many as are protected, are all there. */
  ghost predicate Chain(S: Sectors, h: nat) {
    h >= 1 && forall q: nat :: 1 <= q <= h && h < q + WAL_PROTECT_WINDOW ==> Has(S, q)
  }

  ghost function Where(S: Sectors, q: nat): (i: nat)
    requires Has(S, q)
    ensures SeqAt(S, i, q)
  {
    var i :| SeqAt(S, i, q); i
  }

  ghost function TmrAt(S: Sectors, q: nat): Tmr
    requires Has(S, q)
  {
    S[Where(S, q)].header.tmr
  }

  /** A sector whose loss no reader will notice. */
  predicate Reusable(S: Sectors, h: nat, i: int) {
    0 <= i < |S| && (S[i].header.Valid? ==> S[i].header.seq_id + WAL_PROTECT_WINDOW <= h)
  }

  /** With more sectors than are protected, one is always reusable. */
  lemma SomeReusable(S: Sectors, h: nat)
    requires Distinct(S, h) && |S| > WAL_PROTECT_WINDOW
    ensures exists i :: Reusable(S, h, i)
  {
    if forall i :: !Reusable(S, h, i) {
      forall i | 0 <= i < 5 ensures SeqAt(S, i, SeqOf(S, i)) && SeqOf(S, i) <= h < SeqOf(S, i) + 4 {
        assert !Reusable(S, h, i);
        assert SeqAt(S, i, SeqOf(S, i));
      }
      FourIds(SeqOf(S, 0), SeqOf(S, 1), SeqOf(S, 2), SeqOf(S, 3), SeqOf(S, 4), h);
    }
  }

  function SeqOf(S: Sectors, i: nat): nat {
    if i < |S| && S[i].header.Valid? then S[i].header.seq_id else 0
  }

  /** Five ids in a window of four are not all different. */
  lemma FourIds(a: nat, b: nat, c: nat, d: nat, e: nat, h: nat)
    requires a <= h < a + 4 && b <= h < b + 4 && c <= h < c + 4 && d <= h < d + 4 && e <= h < e + 4
    ensures a == b || a == c || a == d || a == e || b == c || b == d || b == e || c == d || c == e || d == e
  {
  }

  // ---- The majority register ---------------------------------------------------------

  /** tmr_majority_vote_idx on the collected candidates, newest first. */
  function Vote(c: seq<Tmr>): (t: Tmr)
    requires 1 <= |c| <= 3
  {
    if |c| >= 2 && c[0] == c[1] then c[0]
    else if |c| == 3 && c[0] == c[2] then c[0]
    else if |c| == 3 && c[1] == c[2] then c[1]
    else c[0]
  }

  /** Two equal candidates win; without them the newest one does. */
  lemma VoteIsMajority(c: seq<Tmr>)
    requires 1 <= |c| <= 3
    ensures forall i, j :: 0 <= i < j < |c| && c[i] == c[j] ==> Vote(c) == c[i]
    ensures (forall i, j :: 0 <= i < j < |c| ==> c[i] != c[j]) ==> Vote(c) == c[0]
  {
    assert |c| == 3 && c[1] == c[2] ==> Vote(c) == c[1];
  }

  /** The candidates: the headers of the newest three sequence ids. */
  ghost function Candidates(S: Sectors, h: nat): (c: seq<Tmr>)
    requires Chain(S, h)
    ensures |c| == if h >= 3 then 3 else h
  {
    [TmrAt(S, h)] + (if h >= 2 then [TmrAt(S, h - 1)] else []) + (if h >= 3 then [TmrAt(S, h - 2)] else [])
  }

  ghost function Register(S: Sectors, h: nat): Tmr
    requires Chain(S, h)
  {
    Vote(Candidates(S, h))
  }

  /** The two newest headers hold the same value. */
  ghost predicate Agreed(S: Sectors, h: nat) {
    h >= 2 && Has(S, h) && Has(S, h - 1) && TmrAt(S, h) == TmrAt(S, h - 1)
  }

  // ---- What operations do to the sectors ----------------------------------------------

  /** Sector v lost what it held, or kept some of it, but holds nothing new. */
  predicate Worn(old0: Sector, new0: Sector) {
    && (new0.header == Blank || new0.header == Garbled || new0.header == old0.header)
    && |new0.slots| == |old0.slots|
    && forall k :: 0 <= k < |new0.slots| ==>
       new0.slots[k] == Free || new0.slots[k] == Torn || new0.slots[k] == old0.slots[k]
  }

  /** Wearing a reusable sector leaves every protected header in place. */
  lemma WornKeeps(S: Sectors, h: nat, v: nat, x: Sector)
    requires Distinct(S, h) && Chain(S, h) && Reusable(S, h, v) && Worn(S[v], x)
    ensures var S' := S[v := x];
            && Distinct(S', h) && Chain(S', h) && Register(S', h) == Register(S, h)
            && forall q: nat :: h < q + WAL_PROTECT_WINDOW && 1 <= q <= h ==>
               Has(S', q) && Where(S', q) == Where(S, q) != v
  {
    var S' := S[v := x];
    forall i, q: nat | SeqAt(S', i, q) ensures SeqAt(S, i, q) {}
    forall q: nat | h < q + WAL_PROTECT_WINDOW && 1 <= q <= h ensures Has(S', q) && Where(S', q) == Where(S, q) != v {
      var i := Where(S, q);
      assert i != v;
      assert SeqAt(S', i, q);
      assert SeqAt(S', Where(S', q), q);
    }
  }

  /** A new header in a reusable sector extends the chain. */
  lemma HeaderExtends(S: Sectors, h: nat, v: nat, x: Sector)
    requires Distinct(S, h) && Chain(S, h) && Reusable(S, h, v)
    requires x.header.Valid? && x.header.seq_id == h + 1
    ensures var S' := S[v := x];
            && Distinct(S', h + 1) && Chain(S', h + 1) && Where(S', h + 1) == v
            && Candidates(S', h + 1) == ([x.header.tmr] + Candidates(S, h))[..if h >= 2 then 3 else h + 1]
            && forall q: nat :: h < q + WAL_PROTECT_WINDOW && 1 <= q <= h ==>
               Has(S', q) && Where(S', q) == Where(S, q) != v
  {
    var S' := S[v := x];
    assert SeqAt(S', v, h + 1);
    forall i, q: nat | SeqAt(S', i, q) ensures if i == v then q == h + 1 else SeqAt(S, i, q) {}
    forall q: nat | h < q + WAL_PROTECT_WINDOW && 1 <= q <= h ensures Has(S', q) && Where(S', q) == Where(S, q) != v {
      var i := Where(S, q);
      assert i != v;
      assert SeqAt(S', i, q);
      assert SeqAt(S', Where(S', q), q);
    }
  }

  /** A rotation that copies the register keeps it; one that writes a new value gives
      the old or the new value, and the new one from the second on. */
  lemma VoteAfter(t: Tmr, c: seq<Tmr>)
    requires 1 <= |c| <= 3
    ensures var c' := ([t] + c)[..if |c| >= 2 then 3 else |c| + 1];
            && (Vote(c') == t || Vote(c') == Vote(c))
            && (t == Vote(c) || t == c[0] ==> Vote(c') == t)
            && (|c| >= 2 && c[0] == c[1] ==> Vote(c') == c[0] == Vote(c))
  {
    var c' := ([t] + c)[..if |c| >= 2 then 3 else |c| + 1];
    assert c'[0] == t && c'[1] == c[0];
    if |c| >= 2 { assert c'[2] == c[1]; }
  }

  // ---- Entries -----------------------------------------------------------------------

  datatype Kind = MainKind | AccumKind | ResumeKind | SideKind

  /** What each result of the reconstruction is about. */
  predicate Of(i: Intent, kind: Kind) {
    match kind
    case MainKind => i.Main?
    case AccumKind => i == NetSearchAccum
    case ResumeKind => i == DownloadCheckpoint
    case SideKind => i == SleepBackoff || i == DeprecatedNonce || i == TxnRollbackPending
  }

  /** The intent isolation of boot_journal_reconstruct_txn. */
  function KindOf(i: Intent): (k: Kind)
    ensures forall kind :: Of(i, kind) <==> k == kind
  {
    match i
    case NetSearchAccum => AccumKind
    case DownloadCheckpoint => ResumeKind
    case SleepBackoff => SideKind
    case DeprecatedNonce => SideKind
    case TxnRollbackPending => SideKind
    case Main(_) => MainKind
  }

  /** The entries before the first slot that is free or torn. */
  function Entries(slots: seq<Slot>): (es: seq<Entry>)
    ensures |es| <= |slots|
    ensures forall k :: 0 <= k < |es| ==> slots[k] == Holds(es[k])
    ensures |es| < |slots| ==> !slots[|es|].Holds?
  {
    if slots == [] || !slots[0].Holds? then [] else [slots[0].entry] + Entries(slots[1..])
  }

  lemma EntriesAre(slots: seq<Slot>, es: seq<Entry>)
    requires |es| <= |slots| && (forall k :: 0 <= k < |es| ==> slots[k] == Holds(es[k]))
    requires |es| < |slots| ==> !slots[|es|].Holds?
    ensures Entries(slots) == es
  {
    var fs := Entries(slots);
    assert |fs| == |es|;
    assert fs == es;
  }

  /** Writing the first free slot appends an entry; tearing it appends nothing. */
  lemma SlotWritten(slots: seq<Slot>, x: Slot)
    requires |Entries(slots)| < |slots| && slots[|Entries(slots)|] == Free
    ensures var w := |Entries(slots)|;
            && (!x.Holds? ==> Entries(slots[w := x]) == Entries(slots))
            && (x.Holds? && (w + 1 < |slots| ==> !slots[w + 1].Holds?) ==>
               Entries(slots[w := x]) == Entries(slots) + [x.entry])
  {
    var es := Entries(slots);
    var w := |es|;
    if !x.Holds? {
      EntriesAre(slots[w := x], es);
    } else if w + 1 < |slots| ==> !slots[w + 1].Holds? {
      EntriesAre(slots[w := x], es + [x.entry]);
    }
  }

  /** The newest entry of a kind. */
  function LastOf(es: seq<Entry>, kind: Kind): (r: Option<Entry>) {
    if es == [] then None
    else if Of(es[|es|-1].intent, kind) then Some(es[|es|-1])
    else LastOf(es[..|es|-1], kind)
  }

  lemma LastOfAppend(es: seq<Entry>, e: Entry, kind: Kind)
    ensures LastOf(es + [e], kind) == if Of(e.intent, kind) then Some(e) else LastOf(es, kind)
  {
    assert (es + [e])[..|es|] == es;
  }

  ghost function EntriesAt(S: Sectors, q: nat): seq<Entry>
    requires Has(S, q)
  {
    Entries(S[Where(S, q)].slots)
  }

  /** The newest entry of a kind in the sectors q, q-1, ... (`steps` of them). */
  ghost function Newest(S: Sectors, q: int, steps: nat, kind: Kind): Option<Entry>
    decreases steps
  {
    if steps == 0 || q < 1 then None
    else if Has(S, q) && LastOf(EntriesAt(S, q), kind).Some? then LastOf(EntriesAt(S, q), kind)
    else Newest(S, q - 1, steps - 1, kind)
  }

  /** The open transaction: the last main entry and the sequence id it was logged under.
      It is Lost once an erase of its sector has begun. */
  datatype Open = Nothing | Logged(entry: Entry, q: nat) | Lost(entry: Entry, q: nat)

  ghost predicate Quiet(S: Sectors, q: nat) {
    Has(S, q) ==> LastOf(EntriesAt(S, q), MainKind) == None
  }

  ghost predicate QuietAfter(S: Sectors, q: nat) {
    forall q': nat :: q < q' ==> Quiet(S, q')
  }

  /** The last main entry is where it was logged, unless its sector has left the window
      of protected sectors and was recycled, and nothing newer hides it. */
  ghost predicate Kept(S: Sectors, h: nat, open: Open) {
    match open
    case Nothing => QuietAfter(S, 0)
    case Logged(e, q) => 1 <= q <= h && Has(S, q) && LastOf(EntriesAt(S, q), MainKind) == Some(e) && QuietAfter(S, q)
    case Lost(_, q) => 1 <= q && q + WAL_PROTECT_WINDOW <= h
  }

  /** So the scan of the reconstruction finds it, if it gets that far. */
  lemma {:induction false} NewestIsOpen(S: Sectors, h: nat, open: Open, q: nat, steps: nat)
    requires Kept(S, h, open) && open.Logged?
    requires open.q <= q <= h && q - open.q < steps
    ensures Newest(S, q, steps, MainKind) == Some(open.entry)
    decreases q
  {
    if q > open.q {
      assert Quiet(S, q);
      NewestIsOpen(S, h, open, q - 1, steps - 1);
    }
  }

  /** And where there is none, it finds none. */
  lemma {:induction false} NewestIsNothing(S: Sectors, q: int, steps: nat)
    requires QuietAfter(S, 0)
    ensures Newest(S, q, steps, MainKind) == None
    decreases steps
  {
    if steps > 0 && q >= 1 {
      assert Quiet(S, q);
      NewestIsNothing(S, q - 1, steps - 1);
    }
  }

  // ---- What is on flash between two operations ------------------------------------------

  /** Sector h is the active one: past its entries there is nothing but free slots, and
      perhaps one torn entry. */
  ghost predicate CleanTail(S: Sectors, h: nat)
    requires Has(S, h)
  {
    var slots := S[Where(S, h)].slots;
    forall k :: |Entries(slots)| < k < |slots| ==> slots[k] == Free
  }

  ghost predicate Stable(S: Sectors, cap: nat, h: nat, t: Tmr, open: Open) {
    && |S| > WAL_PROTECT_WINDOW && cap > 0 && (forall i :: 0 <= i < |S| ==> |S[i].slots| == cap)
    && Distinct(S, h) && Chain(S, h) && Register(S, h) == t
    && Has(S, h) && CleanTail(S, h) && Kept(S, h, open)
  }

  /** The open transaction once an erase of sector v has begun. */
  ghost function Faded(S: Sectors, v: nat, open: Open): Open {
    if open.Logged? && SeqAt(S, v, open.q) then Lost(open.entry, open.q) else open
  }

  /** What wear leaves of a list of entries is a front part of it. */
  lemma {:induction false} WornEntries(slots: seq<Slot>, slots': seq<Slot>)
    requires |slots'| == |slots|
    requires forall k :: 0 <= k < |slots| ==> slots'[k] == Free || slots'[k] == Torn || slots'[k] == slots[k]
    ensures Entries(slots') <= Entries(slots)
  {
    if slots != [] && slots'[0].Holds? { WornEntries(slots[1..], slots'[1..]); }
  }

  lemma {:induction false} NoneInFront(es: seq<Entry>, n: nat, kind: Kind)
    requires n <= |es| && LastOf(es, kind) == None
    ensures LastOf(es[..n], kind) == None
    decreases |es|
  {
    if n < |es| {
      NoneInFront(es[..|es|-1], n, kind);
      assert es[..|es|-1][..n] == es[..n];
    } else {
      assert es[..n] == es;
    }
  }

  /** Sector v gets content x, which holds no main entry that counts. */
  ghost predicate Harmless(old0: Sector, new0: Sector) {
    Worn(old0, new0) || LastOf(Entries(new0.slots), MainKind) == None
  }

  lemma QuietStays(S: Sectors, h: nat, v: nat, x: Sector, q: nat)
    requires v < |S| && Distinct(S, h) && Harmless(S[v], x) && QuietAfter(S, q)
    requires forall i, q': nat :: SeqAt(S[v := x], i, q') ==> SeqAt(S, i, q') || (i == v && !Worn(S[v], x))
    ensures QuietAfter(S[v := x], q)
  {
    hide Distinct, Worn, Entries, LastOf, Harmless;
    var S' := S[v := x];
    forall q': nat | q < q' ensures Quiet(S', q') {
      if Has(S', q') {
        var i := Where(S', q');
        if SeqAt(S, i, q') {
          assert Quiet(S, q');
          SameWhere(S, h, i, q');
        }
        if i == v { HarmlessIsQuiet(S[v], x); }
      }
    }
  }

  lemma SameWhere(S: Sectors, h: nat, i: nat, q: nat)
    requires Distinct(S, h) && SeqAt(S, i, q)
    ensures Has(S, q) && Where(S, q) == i
  {
  }

  lemma HarmlessIsQuiet(old0: Sector, new0: Sector)
    requires Harmless(old0, new0)
    ensures LastOf(Entries(new0.slots), MainKind) == None
            || (Worn(old0, new0) && LastOf(Entries(old0.slots), MainKind) != None)
  {
    hide Worn, Entries, LastOf;
    var es, es' := Entries(old0.slots), Entries(new0.slots);
    if Worn(old0, new0) && LastOf(es, MainKind) == None {
      WornFront(old0, new0);
      NoneInFront(es, |es'|, MainKind);
      assert es[..|es'|] == es';
    }
  }

  lemma WornFront(old0: Sector, new0: Sector)
    requires Worn(old0, new0)
    ensures Entries(new0.slots) <= Entries(old0.slots)
  {
    WornEntries(old0.slots, new0.slots);
  }

  /** The open transaction stays as long as its own sector is not touched. */
  lemma KeptElsewhere(S: Sectors, h: nat, h': nat, v: nat, x: Sector, open: Open)
    requires Reusable(S, h, v) && Harmless(S[v], x) && h <= h' && Kept(S, h, open)
    requires Distinct(S, h) && Distinct(S[v := x], h')
    requires !Worn(S[v], x) ==> LastOf(Entries(x.slots), MainKind) == None
    ensures Kept(S[v := x], h', Faded(S, v, open))
  {
    hide Distinct, Worn, Entries, LastOf, Harmless;
    var S' := S[v := x];
    if Worn(S[v], x) { WornHeader(S[v], x); }
    match open {
      case Nothing => QuietStays(S, h, v, x, 0);
      case Lost(_, _) =>
      case Logged(e, q) =>
        if !SeqAt(S, v, q) {
          var i := Where(S, q);
          assert SeqAt(S', i, q);
          SameWhere(S', h', i, q);
          QuietStays(S, h, v, x, q);
        }
    }
  }

  lemma WornHeader(old0: Sector, new0: Sector)
    requires Worn(old0, new0)
    ensures new0.header.Valid? ==> new0.header == old0.header
  {
  }

  /** Wear on a reusable sector changes nothing that matters. */
  lemma StableWorn(S: Sectors, cap: nat, h: nat, t: Tmr, open: Open, v: nat, x: Sector)
    requires Stable(S, cap, h, t, open) && Reusable(S, h, v) && Worn(S[v], x)
    ensures Stable(S[v := x], cap, h, t, Faded(S, v, open)) && Fill(S[v := x], h) == Fill(S, h)
    ensures Has(S, h) && Has(S[v := x], h) && EntriesAt(S[v := x], h) == EntriesAt(S, h)
    ensures Agreed(S, h) ==> Agreed(S[v := x], h)
  {
    hide Entries, LastOf, Worn;
    WornKeeps(S, h, v, x);
    WornSize(S[v], x);
    KeptElsewhere(S, h, h, v, x, open);
  }

  lemma WornSize(old0: Sector, new0: Sector)
    requires Worn(old0, new0)
    ensures |new0.slots| == |old0.slots|
  {
  }

  /** How full the active sector is; a torn entry uses it up. */
  ghost function Fill(S: Sectors, h: nat): (n: nat)
    requires Has(S, h)
    ensures |EntriesAt(S, h)| <= n <= |S[Where(S, h)].slots|
  {
    var slots := S[Where(S, h)].slots;
    var e := |Entries(slots)|;
    if e < |slots| && slots[e] != Free then |slots| else e
  }

  /** What becomes of the open transaction in a rotation that starts below id h + 1: it
      stays, or it is recycled once its sector is outside the window. */
  predicate Fades(o: Open, o': Open, h: nat) {
    o' == o || (o.Logged? && o' == Lost(o.entry, o.q) && o.q + WAL_PROTECT_WINDOW <= h)
  }

  function FreshSector(q: nat, erase: nat, t: Tmr, cap: nat): Sector {
    Sector(Valid(q, erase, t), seq(cap, _ => Free))
  }

  lemma FreshIsEmpty(q: nat, erase: nat, t: Tmr, cap: nat)
    ensures Entries(FreshSector(q, erase, t, cap).slots) == []
  {
    EntriesAre(FreshSector(q, erase, t, cap).slots, []);
  }

  /** A rotation into a reusable sector. */
  lemma StableRotated(S: Sectors, cap: nat, h: nat, t: Tmr, open: Open, v: nat, erase: nat, t': Tmr)
    requires Stable(S, cap, h, t, open) && Reusable(S, h, v)
    ensures var S' := S[v := FreshSector(h + 1, erase, t', cap)];
            && Chain(S', h + 1) && Where(S', h + 1) == v && TmrAt(S', h + 1) == t' && Fill(S', h + 1) == 0
            && var r := Register(S', h + 1);
               && Stable(S', cap, h + 1, r, Faded(S, v, open))
               && (r == t || r == t') && (t' == TmrAt(S, h) || t' == t ==> r == t')
               && (Agreed(S, h) ==> r == t) && (t' == TmrAt(S, h) ==> Agreed(S', h + 1))
  {
    var x := FreshSector(h + 1, erase, t', cap);
    HeaderExtends(S, h, v, x);
    VoteAfter(t', Candidates(S, h));
    FreshIsEmpty(h + 1, erase, t', cap);
    hide Vote, Entries, Register;
    KeptElsewhere(S, h, h + 1, v, x, open);
  }

  function After(open: Open, e: Entry, q: nat): Open {
    if e.intent.Main? then Logged(e, q) else open
  }

  /** An entry in the first free slot of the active sector, or a torn attempt at one. */
  lemma StableAppended(S: Sectors, cap: nat, h: nat, t: Tmr, open: Open, x: Slot)
    requires Stable(S, cap, h, t, open)
    requires var es := EntriesAt(S, h); |es| < cap && S[Where(S, h)].slots[|es|] == Free
    ensures var v, w := Where(S, h), |EntriesAt(S, h)|;
            var S' := S[v := S[v].(slots := S[v].slots[w := x])];
            && IsAt(S', h, v) && Fill(S, h) == w
            && (if x.Holds?
                then Stable(S', cap, h, t, After(open, x.entry, h)) && EntriesAt(S', h) == EntriesAt(S, h) + [x.entry]
                     && Fill(S', h) == w + 1
                else Stable(S', cap, h, t, open) && EntriesAt(S', h) == EntriesAt(S, h))
  {
    hide Entries, LastOf, Register, Distinct, Chain;
    var v, w := Where(S, h), |EntriesAt(S, h)|;
    var S' := S[v := S[v].(slots := S[v].slots[w := x])];
    SlotWritten(S[v].slots, x);
    if x.Holds? { LastOfAppend(EntriesAt(S, h), x.entry, MainKind); }
    SameHeaders(S, v, S[v].slots[w := x], h);
    KeptAppended(S, h, open, v, S[v].slots[w := x], x);
  }

  lemma KeptAppended(S: Sectors, h: nat, open: Open, v: nat, slots: seq<Slot>, x: Slot)
    requires Has(S, h) && Where(S, h) == v && Distinct(S, h) && Chain(S, h) && Kept(S, h, open)
    requires x.Holds? ==> LastOf(Entries(slots), MainKind) ==
                            if x.entry.intent.Main? then Some(x.entry)
                              else LastOf(EntriesAt(S, h), MainKind)
    requires !x.Holds? ==> Entries(slots) == EntriesAt(S, h)
    ensures Kept(S[v := S[v].(slots := slots)], h, if x.Holds? then After(open, x.entry, h) else open)
  {
    hide Entries, LastOf, Register, Chain;
    var S' := S[v := S[v].(slots := slots)];
    SameHeaders(S, v, slots, h);
    var open' := if x.Holds? then After(open, x.entry, h) else open;
    if open' != open {
      forall q: nat | h < q ensures Quiet(S', q) { AboveTop(S, h, q); }
    } else {
      forall q: nat | Quiet(S, q) ensures Quiet(S', q) {
        if Has(S, q) && Where(S, q) == v { assert SeqAt(S, v, q) && SeqAt(S, v, h); }
      }
    }
  }

  lemma AboveTop(S: Sectors, h: nat, q: nat)
    requires Distinct(S, h) && h < q
    ensures !Has(S, q)
  {
  }

  /** Writing slots leaves every header where it is. */
  lemma SameHeaders(S: Sectors, v: nat, slots: seq<Slot>, h: nat)
    requires v < |S| && Distinct(S, h) && Chain(S, h)
    ensures var S' := S[v := S[v].(slots := slots)];
            && Distinct(S', h) && Chain(S', h) && Register(S', h) == Register(S, h)
            && (forall q: nat :: Has(S, q) <==> Has(S', q))
            && forall q: nat :: Has(S, q) ==> Where(S', q) == Where(S, q)
  {
    var S' := S[v := S[v].(slots := slots)];
    forall i, q: nat ensures SeqAt(S', i, q) <==> SeqAt(S, i, q) {}
    forall q: nat ensures Has(S, q) <==> Has(S', q) {
      if Has(S, q) { assert SeqAt(S', Where(S, q), q); }
      if Has(S', q) { assert SeqAt(S, Where(S', q), q); }
    }
    forall q: nat | Has(S, q) ensures Where(S', q) == Where(S, q) {
      assert SeqAt(S, Where(S', q), q);
    }
  }

  ghost predicate IsAt(S: Sectors, h: nat, v: nat) {
    Has(S, h) && Where(S, h) == v
  }

  // ---- The journal -----------------------------------------------------------------

  class Wal {
    const maxErase: nat        // flash->max_erase_cycles, 0 = no limit
    const cap: nat             // entries per sector
    var S: Sectors             // flash
    var cuts: nat              // power cuts still to come
    var active: nat            // active_wal_index
    var w: nat                 // cached_write_offset, in entries
    var seqId: nat             // current_active_header
    var erase: nat
    var tmr: Tmr

    ghost var h: nat           // the newest sequence id on flash
    ghost var reg: Tmr         // the register, as the next boot will read it
    ghost var open: Open       // the last main entry that reached flash

    /** Flash is as a boot can find it. */
    ghost predicate Sound()
      reads this
    {
      Stable(S, cap, h, reg, open)
    }

    /** RAM agrees with flash. */
    ghost predicate Valid()
      reads this
    {
      && Sound() && seqId == h && tmr == reg && IsAt(S, h, active) && w == |EntriesAt(S, h)|
      && erase == S[active].header.erase
    }

    /** An erase of sector i: skipped on a blank sector, torn by a cut. */
    method SmartErase(i: nat) returns (st: Status)
      requires i < |S| && |S[i].slots| == cap
      modifies this`S, this`cuts
      ensures st == Ok || st == PowerCut
      ensures st == Ok ==> S == old(S)[i := Sector(Blank, seq(cap, _ => Free))] && cuts == old(cuts)
      ensures st == PowerCut ==> (exists x :: Worn(old(S[i]), x) && S == old(S)[i := x]) && cuts < old(cuts)
      ensures old(S[i]) == Sector(Blank, seq(cap, _ => Free)) ==> st == Ok && S == old(S)
    {
      var blank := Sector(Blank, seq(cap, _ => Free));
      if S[i] == blank { return Ok; }
      var cut: bool := *;
      if cut && cuts > 0 {
        var torn: Sector := *;
        if !Worn(S[i], torn) { torn := S[i]; }
        ghost var S0 := S;
        S, cuts := S[i := torn], cuts - 1;
        assert Worn(S0[i], torn) && S == S0[i := torn];
        return PowerCut;
      }
      S := S[i := blank];
      return Ok;
    }

    /** rotate_to_sector */
    method Rotate(i: nat, q: nat, t: Tmr) returns (st: Status, newErase: nat)
      requires i < |S| && |S[i].slots| == cap
      modifies this`S, this`cuts
      ensures st == Ok || st == PowerCut
      ensures newErase == (if old(S[i].header.Valid?) then old(S[i].header.erase) else 0) + 1
      ensures st == Ok ==> S == old(S)[i := FreshSector(q, newErase, t, cap)] && cuts == old(cuts)
      ensures st == PowerCut ==> cuts < old(cuts)
      ensures st == PowerCut ==>
                || S == old(S)[i := FreshSector(q, newErase, t, cap)]
                || exists x :: Worn(old(S[i]), x) && S == old(S)[i := x]
    {
      var prev := if S[i].header.Valid? then S[i].header.erase else 0;
      newErase := prev + 1;
      ghost var S0 := S;
      st := SmartErase(i);
      if st != Ok { return; }
      var cut: bool, reached: bool, begun: bool := *, *, *;
      if cut && cuts > 0 {
        cuts := cuts - 1;
        if reached {
          S := S[i := FreshSector(q, newErase, t, cap)];
        } else {
          var torn := Sector(if begun then Garbled else Blank, seq(cap, _ => Free));
          S := S[i := torn];
          assert Worn(S0[i], torn) && S == S0[i := torn];
        }
        return PowerCut, newErase;
      }
      S := S[i := FreshSector(q, newErase, t, cap)];
    }

    /** Of all such sectors the first one. */
    ghost predicate FirstVictim(highest: nat, v: nat)
      reads this`S
    {
      v < |S| && forall i :: 0 <= i < v && Reusable(S, highest, i) ==> Worse(i, v)
    }

    predicate Worse(i: nat, v: nat)
      requires i < |S| && v < |S|
      reads this`S
    {
      S[i].header.Valid? && (S[v].header.Valid? ==> S[v].header.erase < S[i].header.erase)
    }

    /** get_best_wear_leveling_sector: the first sector without an intact header, or
        the least worn of those that are not protected, or else sector 0. */
    method BestVictim(highest: nat, exclude: seq<nat>) returns (v: nat)
      requires forall j :: 0 <= j < |exclude| ==> !Reusable(S, highest, exclude[j])
      ensures (forall i :: !Reusable(S, highest, i)) ==> v == 0
      ensures (exists i :: Reusable(S, highest, i)) ==>
                && Reusable(S, highest, v)
                && (S[v].header.Valid? ==>
                      forall i :: Reusable(S, highest, i) ==>
                        S[i].header.Valid? && S[v].header.erase <= S[i].header.erase)
                && FirstVictim(highest, v)
    {
      var found, best := false, 0;
      for i := 0 to |S|
        invariant !found ==> best == 0
        invariant found ==> best < i && Reusable(S, highest, best) && S[best].header.Valid?
        invariant forall k :: 0 <= k < best && Reusable(S, highest, k) ==> Worse(k, best)
        invariant forall k :: 0 <= k < i && Reusable(S, highest, k) ==>
                    found && S[k].header.Valid? && S[best].header.erase <= S[k].header.erase
      {
        if i in exclude { continue; }
        if !S[i].header.Valid? {
          assert Reusable(S, highest, i);
          return i;
        }
        if S[i].header.seq_id + WAL_PROTECT_WINDOW <= highest {
          if !found || S[i].header.erase < S[best].header.erase { found, best := true, i; }
        }
      }
      return best;
    }

    /** A rotation into a reusable sector, and what it makes of the register and of the
        open transaction. */
    method RotateInto(v: nat, q: nat, t: Tmr) returns (st: Status, newErase: nat)
      requires Sound() && Reusable(S, h, v) && q == h + 1
      modifies this`S, this`cuts, this`h, this`reg, this`open
      ensures Sound() && old(h) <= h <= q && (reg == old(reg) || reg == t) && Fades(old(open), open, old(h))
      ensures Fill(S, h) == if h == old(h) then old(Fill(S, h)) else 0
      ensures Has(S, h) && EntriesAt(S, h) == if h == old(h) then old(EntriesAt(S, h)) else []
      ensures t == old(reg) ==> reg == t
      ensures old(Agreed(S, h)) || h == old(h) ==> reg == old(reg)
      ensures h == old(h) && old(Agreed(S, h)) ==> Agreed(S, h)
      ensures h == q && old(Has(S, h) && TmrAt(S, h) == t) ==> reg == t && Agreed(S, h)
      ensures st == Ok || st == PowerCut
      ensures st == Ok ==> h == q && cuts == old(cuts) && IsAt(S, h, v) && S[v] == FreshSector(q, newErase, t, cap)
      ensures st == Ok ==>
              EntriesAt(S, h) == [] && TmrAt(S, h) == t && S == old(S)[v := FreshSector(q, newErase, t, cap)]
      ensures st == Ok && (t == old(reg) || old(Has(S, h) && TmrAt(S, h) == t)) ==> reg == t
      ensures st == PowerCut ==> cuts < old(cuts)
    {
      ghost var S0 := S;
      st, newErase := Rotate(v, q, t);
      FadesHere(S0, h, v, open);
      hide Stable, Worn, Entries, Reusable, Faded, Fill;
      ghost var next := FreshSector(q, newErase, t, cap);
      if S == S0[v := next] {
        StableRotated(S0, cap, h, reg, open, v, newErase, t);
        FreshIsEmpty(q, newErase, t, cap);
        h, reg := q, Register(S, q);
      } else {
        ghost var x :| Worn(S0[v], x) && S == S0[v := x];
        StableWorn(S0, cap, h, reg, open, v, x);
      }
      open := Faded(S0, v, open);
    }

    /** How much of the log is used, in slots from its beginning. */
    ghost function Used(): nat
      reads this
      requires Has(S, h)
    {
      h * cap + Fill(S, h)
    }

    /** Append past the choice of a slot: the entry goes into the first free slot. */
    method WriteEntry(e: Entry) returns (st: Status, ghost took: bool)
      requires Valid() && w < cap && S[active].slots[w] == Free
      modifies this`S, this`cuts, this`w, this`open
      ensures Sound() && open == if took then After(old(open), e, h) else old(open)
      ensures old(Fill(S, h)) == old(w) && (st == Ok ==> Fill(S, h) == old(w) + 1)
      ensures Has(S, h) && EntriesAt(S, h) == old(EntriesAt(S, h)) + if took then [e] else []
      ensures st == Ok || st == PowerCut
      ensures st == Ok ==> took && Valid() && cuts == old(cuts)
      ensures st == PowerCut ==> cuts < old(cuts)
    {
      hide Stable, Entries, Fill;
      ActiveFacts();
      var cut: bool, reached: bool, begun: bool := *, *, *;
      cut := cut && cuts > 0;
      var whole := !cut || reached;
      took := whole;
      hide EntriesAt, IsAt, SeqAt, Where;
      PutSlot(if whole then Holds(e) else if begun then Torn else Free);
      if cut {
        cuts := cuts - 1;
        return PowerCut, took;
      }
      w := w + 1;
      st := Ok;
    }

    /** The first free slot gets an entry, or what a cut makes of one. */
    method PutSlot(x: Slot)
      requires Valid() && w < cap && S[active].slots[w] == Free
      modifies this`S, this`open
      ensures Sound() && Has(S, h) && IsAt(S, h, active) && S[active].header == old(S[active].header)
      ensures old(Fill(S, h)) == old(w) && (x.Holds? ==> Fill(S, h) == w + 1)
      ensures if x.Holds?
              then open == After(old(open), x.entry, h) && EntriesAt(S, h) == old(EntriesAt(S, h)) + [x.entry]
              else open == old(open) && EntriesAt(S, h) == old(EntriesAt(S, h))
    {
      hide Stable, Entries, Fill;
      ActiveFacts();
      StableAppended(S, cap, h, reg, open, x);
      S := S[active := S[active].(slots := S[active].slots[w := x])];
      if x.Holds? { open := After(open, x.entry, h); }
    }

    lemma ActiveFacts()
      requires Valid()
      ensures |S| > WAL_PROTECT_WINDOW && active < |S| && |S[active].slots| == cap > 0 && w <= cap && Distinct(S, h)
      ensures SeqAt(S, active, h) && !Reusable(S, h, active) && Has(S, h)
      ensures Fill(S, h) <= cap && (Fill(S, h) == cap <==> w >= cap || S[active].slots[w] != Free)
    {
    }

    lemma FillFits()
      requires Sound()
      ensures Has(S, h) && Fill(S, h) <= cap
    {
    }

    /** The rotation of boot_journal_append. */
    method NextSector() returns (st: Status)
      requires Valid()
      modifies this
      ensures Sound() && reg == old(reg) && Fades(old(open), open, old(h)) && old(h) <= h <= old(h) + 1
      ensures Fill(S, h) == if h == old(h) then old(Fill(S, h)) else 0
      ensures st == Ok || st == PowerCut || st == CounterExhausted
      ensures st == CounterExhausted <==> maxErase > 0 && old(erase) >= maxErase
      ensures st == Ok ==> Valid() && h == old(h) + 1 && w == 0 && S[active].slots[0] == Free && EntriesAt(S, h) == []
      ensures st == CounterExhausted ==> Valid() && S == old(S) && open == old(open) && h == old(h)
      ensures if st == PowerCut then cuts < old(cuts) else cuts == old(cuts)
    {
      hide Stable, Entries, EntriesAt, TmrAt, Reusable, Fill;
      ActiveFacts();
      SomeReusable(S, h);
      var v := BestVictim(seqId, [active]);
      if maxErase > 0 && erase >= maxErase { return CounterExhausted; }
      var newErase;
      st, newErase := RotateInto(v, seqId + 1, tmr);
      if st != Ok { return; }
      active, seqId, erase, w := v, seqId + 1, newErase, 0;
    }

    /** boot_journal_append.  `took` says that the entry reached flash.  A rotation, and
        with it the recycling of a sector, happens only when the active sector is full. */
    method Append(e: Entry) returns (st: Status, ghost took: bool)
      requires Valid()
      modifies this
      ensures Sound() && reg == old(reg) && old(h) <= h <= old(h) + 1
      ensures if took && e.intent.Main? then open == Logged(e, h)
              else open == old(open) || (Fades(old(open), open, old(h)) && old(Fill(S, h)) == cap)
      ensures old(Fill(S, h)) < cap ==> h == old(h)
      ensures st == Ok || st == PowerCut || st == CounterExhausted
      ensures st == CounterExhausted <==> old(Fill(S, h)) == cap && maxErase > 0 && old(erase) >= maxErase
      ensures took ==> EntriesAt(S, h) == (if h == old(h) then old(EntriesAt(S, h)) else []) + [e]
      ensures !took && old(Fill(S, h)) < cap ==> EntriesAt(S, h) == old(EntriesAt(S, h))
      ensures st == Ok ==> took && Used() <= old(Used()) + 1
      ensures st == Ok || st == CounterExhausted ==> Valid() && cuts == old(cuts)
      ensures st == CounterExhausted ==> !took && S == old(S) && open == old(open) && h == old(h)
      ensures st == PowerCut ==> cuts < old(cuts) && Used() <= old(Used()) + cap
    {
      hide Stable, Entries, EntriesAt, TmrAt, Reusable, Fill;
      took := false;
      ActiveFacts();
      NextMultiple(h, cap);
      if w >= cap || S[active].slots[w] != Free {
        st := NextSector();
        if st != Ok { return; }
        ActiveFacts();
      }
      st, took := WriteEntry(e);
      FillFits();
    }

    /** The sectors written since h0, in order. */
    ghost predicate Recent(exclude: seq<nat>, h0: nat)
      reads this`S
    {
      forall j :: 0 <= j < |exclude| ==> SeqAt(S, exclude[j], h0 + j)
    }

    lemma RecentStart()
      requires Valid()
      ensures Recent([active], h) && Has(S, h)
    {
    }

    /** One header of the quorum. */
    method QuorumStep(activeSeq: nat, exclude: seq<nat>, t: Tmr, ghost h0: nat)
      returns (st: Status, newIdx: nat, newErase: nat)
      requires Sound() && SectorsFit() && activeSeq == h == h0 + |exclude| - 1 && Has(S, h)
      requires 1 <= |exclude| <= 3 && Recent(exclude, h0)
      modifies this`S, this`cuts, this`h, this`reg, this`open
      ensures Sound() && SectorsFit() && old(h) <= h <= activeSeq + 1 && (reg == old(reg) || reg == t)
      ensures Fades(old(open), open, old(h))
      ensures st == Ok || st == PowerCut
      ensures st == Ok ==>
              h == activeSeq + 1 && IsAt(S, h, newIdx) && EntriesAt(S, h) == [] && TmrAt(S, h) == t && Fill(S, h) == 0
      ensures st == Ok ==> Recent(exclude + [newIdx], h0) && S[newIdx].header.erase == newErase
      ensures st == Ok && (t == old(reg) || old(TmrAt(S, h) == t)) ==> reg == t
      ensures old(Agreed(S, h)) || h == old(h) ==> reg == old(reg)
      ensures h == old(h) && old(Agreed(S, h)) ==> Agreed(S, h)
      ensures h == old(h) + 1 && old(TmrAt(S, h) == t) ==> reg == t && Agreed(S, h)
      ensures if st == PowerCut then cuts < old(cuts) else cuts == old(cuts)
    {
      hide Stable, Entries, EntriesAt, TmrAt, Fill, Agreed;
      forall j | 0 <= j < |exclude| ensures !Reusable(S, h, exclude[j]) { RecentKept(S, h, exclude[j], h0 + j); }
      SomeReusable(S, h);
      newIdx := BestVictim(activeSeq, exclude);
      hide Reusable;
      st, newErase := RotateInto(newIdx, activeSeq + 1, t);
      StableFits();
    }

    lemma StableFits()
      requires Sound()
      ensures SectorsFit()
    {
    }

    /** No three more erases are left.  A limit below three wraps around. */
    static predicate TooWornFor3(erase: nat, limit: nat) {
      if limit % 0x1_0000_0000 >= 3 then erase + 3 >= limit % 0x1_0000_0000
      else erase + 3 >= limit % 0x1_0000_0000 + 0x1_0000_0000
    }

    static lemma WornIs(erase: nat, limit: nat)
      ensures erase >= (limit + 0xFFFF_FFFD) % 0x1_0000_0000 <==> TooWornFor3(erase, limit)
    {
    }

    /** boot_journal_update_tmr: three headers, so that the new value has a majority. */
    method UpdateTmr(t: Tmr) returns (st: Status)
      requires Valid()
      modifies this
      ensures Sound() && Fades(old(open), open, old(h) + 2) && old(h) <= h <= old(h) + 3
      ensures st == Ok ==> if t == old(tmr) then h == old(h) && S == old(S) else h == old(h) + 3 && Fill(S, h) == 0
      ensures reg == old(reg) || reg == t
      ensures old(Agreed(S, h)) && h <= old(h) + 1 ==> reg == old(reg)
      ensures h >= old(h) + 2 ==> reg == t && Agreed(S, h)
      ensures st == Ok || st == PowerCut || st == CounterExhausted
      ensures st == CounterExhausted <==> t != old(tmr) && maxErase > 0 && TooWornFor3(old(erase), maxErase)
      ensures st == Ok ==> Valid() && tmr == t
      ensures st == CounterExhausted ==> Valid() && S == old(S) && tmr == old(tmr) && open == old(open)
      ensures if st == PowerCut then cuts < old(cuts) else cuts == old(cuts)
    {
      if tmr == t { return Ok; }
      WornIs(erase, maxErase);
      hide TooWornFor3;
      if maxErase > 0 && erase >= (maxErase + 0xFFFF_FFFD) % 0x1_0000_0000 { return CounterExhausted; }
      hide Stable, EntriesAt, Entries, Fill, Agreed, TmrAt;
      var newIdx, newErase;
      st, newIdx, newErase := WriteQuorum(t);
      if st != Ok { return; }
      active, w, seqId, erase, tmr := newIdx, 0, seqId + 3, newErase, t;
    }

    /** A register update and the boot after it, whatever cuts strike.  From the second
        header on the new value is loaded; before that the old one, if the two newest
        headers agreed. */
    method UpdateAndBoot(t: Tmr) returns (st: Status)
      requires Valid()
      modifies this
      ensures Valid() && (st == Ok ==> tmr == t)
      ensures old(h) <= h <= old(h) + 3 && (h >= old(h) + 2 ==> tmr == t && Agreed(S, h))
      ensures old(Agreed(S, h)) && h <= old(h) + 1 && t != old(tmr) ==> tmr == old(tmr)
    {
      st := UpdateTmr(t);
      hide Stable, EntriesAt, Agreed;
      Boot();
    }

    /** The three headers, each in a sector of its own. */
    method WriteQuorum(t: Tmr) returns (st: Status, newIdx: nat, newErase: nat)
      requires Valid()
      modifies this`S, this`cuts, this`h, this`reg, this`open
      ensures Sound() && old(h) <= h <= old(h) + 3 && (reg == old(reg) || reg == t)
      ensures old(Agreed(S, h)) && h <= old(h) + 1 ==> reg == old(reg)
      ensures h >= old(h) + 2 ==> reg == t && Agreed(S, h)
      ensures Fades(old(open), open, old(h) + 2)
      ensures st == Ok || st == PowerCut
      ensures st == Ok ==> h == old(h) + 3 && IsAt(S, h, newIdx) && EntriesAt(S, h) == [] && reg == t && Fill(S, h) == 0
      ensures st == Ok ==> S[newIdx].header.erase == newErase
      ensures if st == PowerCut then cuts < old(cuts) else cuts == old(cuts)
    {
      hide Stable, Entries, EntriesAt, TmrAt, Reusable, Distinct, Recent, Fill, Agreed;
      ActiveFacts();
      RecentStart();
      ghost var h0 := h;
      var activeSeq, exclude := seqId, [active];
      newIdx, newErase, st := active, erase, Ok;
      for step := 1 to 4
        invariant Sound() && cuts == old(cuts) && SectorsFit() && st == Ok
        invariant h == h0 + step - 1 == activeSeq && |exclude| == step && Recent(exclude, h0)
        invariant Has(S, h)
                  && (step > 1 ==> TmrAt(S, h) == t && IsAt(S, h, newIdx) && EntriesAt(S, h) == [] && Fill(S, h) == 0)
        invariant step > 1 ==> S[newIdx].header.erase == newErase
        invariant Fades(old(open), open, h0 + 2)
        invariant reg == old(reg) || reg == t
        invariant step > 2 ==> reg == t && Agreed(S, h)
        invariant step == 1 ==> S == old(S) && reg == old(reg)
        invariant step == 2 && old(Agreed(S, h)) ==> reg == old(reg)
      {
        st, newIdx, newErase := QuorumStep(activeSeq, exclude, t, h0);
        if st != Ok { return; }
        exclude := exclude + [newIdx];
        activeSeq := activeSeq + 1;
      }
    }

    ghost predicate SectorsFit()
      reads this
    {
      |S| > WAL_PROTECT_WINDOW && Distinct(S, h)
    }

    /** A factory-blank device: no intact header anywhere, and no entries either. */
    ghost predicate Unborn()
      reads this
    {
      && |S| > WAL_PROTECT_WINDOW && cap > 0
         && (forall i :: 0 <= i < |S| ==> |S[i].slots| == cap && !S[i].header.Valid?)
      && h == 0 && reg == FACTORY_TMR && open == Nothing
    }

    /** What a boot may find. */
    ghost predicate Bootable()
      reads this
    {
      Unborn() || Sound()
    }

    /** find_sector_by_seq */
    method FindBySeq(q: int) returns (i: int)
      ensures if i == -1 then q >= 0 ==> !Has(S, q) else q >= 0 && SeqAt(S, i, q)
    {
      for k := 0 to |S|
        invariant forall j :: 0 <= j < k && S[j].header.Valid? ==> S[j].header.seq_id != q
      {
        if S[k].header.Valid? && S[k].header.seq_id == q { return k; }
      }
      return -1;
    }

    /** scan_for_frontier_linear */
    method ScanFrontier(i: nat) returns (k: nat)
      requires i < |S|
      ensures k == |Entries(S[i].slots)|
    {
      ghost var es := Entries(S[i].slots);
      k := 0;
      while k < |S[i].slots| && S[i].slots[k].Holds?
        invariant k <= |es|
      {
        k := k + 1;
      }
    }

    /** The scan for the newest header. */
    method FindNewest() returns (found: bool, idx: nat, q: nat)
      ensures !found ==> forall i :: 0 <= i < |S| ==> !S[i].header.Valid?
      ensures found ==> SeqAt(S, idx, q) && forall i :: 0 <= i < |S| && S[i].header.Valid? ==> S[i].header.seq_id <= q
    {
      found, idx, q := false, 0, 0;
      for i := 0 to |S|
        invariant !found ==> forall k :: 0 <= k < i ==> !S[k].header.Valid?
        invariant found ==> SeqAt(S, idx, q) && forall k :: 0 <= k < i && S[k].header.Valid? ==> S[k].header.seq_id <= q
      {
        if S[i].header.Valid? && (!found || S[i].header.seq_id > q) {
          found, idx, q := true, i, S[i].header.seq_id;
        }
      }
    }

    /** The collection of candidates: the newest header and up to two that follow it. */
    method Collect(q: nat, erases: nat, t: Tmr) returns (c: seq<Tmr>)
      requires |S| > WAL_PROTECT_WINDOW && Distinct(S, q) && Chain(S, q) && t == TmrAt(S, q)
      ensures c == Candidates(S, q)
    {
      c := [t];
      for step := 1 to 3
        invariant |c| == if step <= q then step else q
        invariant c == Candidates(S, q)[..|c|]
      {
        if q <= step && erases <= |S| { return; }
        var i := FindBySeq(q - step);
        if i == -1 { return; }
        assert SeqAt(S, Where(S, q - step), q - step);
        c := c + [S[i].header.tmr];
      }
    }

    /** boot_journal_init.  On a blank device it writes the first header; otherwise it
        changes nothing on flash, and RAM gets the register. */
    method Init() returns (st: Status)
      requires Bootable()
      modifies this
      ensures Bootable() && reg == old(reg) && open == old(open)
      ensures st == Ok || st == PowerCut
      ensures st == Ok ==> Valid() && tmr == reg && cuts == old(cuts)
      ensures st == PowerCut ==> cuts < old(cuts)
      ensures old(Sound()) ==> st == Ok && S == old(S) && h == old(h)
      ensures h <= Max(old(h), 1)
    {
      var found, idx, q := FindNewest();
      if !found {
        st := Format();
        return;
      }
      NewestIsH(idx, q);
      hide Unborn, Stable;
      Load(idx, q);
      return Ok;
    }

    /** The RAM state of a device whose newest header is in sector idx. */
    method Load(idx: nat, q: nat)
      requires Sound() && q == h && IsAt(S, h, idx) && S[idx].header.tmr == TmrAt(S, h) && S[idx].header.Valid?
      modifies this`active, this`w, this`seqId, this`erase, this`tmr
      ensures Valid() && tmr == reg
    {
      RegisterIs();
      OneSector(idx, q);
      hide Stable, Entries, EntriesAt, Candidates, Vote, Distinct, Chain, Unborn, TmrAt;
      var head := S[idx].header;
      var c := Collect(q, head.erase, head.tmr);
      active, seqId, erase, tmr := idx, q, head.erase, c[0];
      if |c| >= 2 { tmr := Vote(c); }
      w := ScanFrontier(active);
    }

    lemma RegisterIs()
      requires Sound()
      ensures Chain(S, h) && Distinct(S, h) && |S| > WAL_PROTECT_WINDOW && reg == Vote(Candidates(S, h))
      ensures |Candidates(S, h)| == 1 ==> reg == Candidates(S, h)[0]
    {
    }

    lemma NewestIsH(idx: nat, q: nat)
      requires Bootable() && SeqAt(S, idx, q)
      requires forall i :: 0 <= i < |S| && S[i].header.Valid? ==> S[i].header.seq_id <= q
      ensures Sound() && q == h && IsAt(S, h, idx) && S[idx].header.tmr == TmrAt(S, h) && S[idx].header.Valid?
    {
      assert SeqAt(S, Where(S, h), h);
    }

    /** The first header of a blank device. */
    method Format() returns (st: Status)
      requires Unborn()
      modifies this
      ensures Bootable() && reg == old(reg) && open == old(open) && h <= 1
      ensures st == Ok || st == PowerCut
      ensures st == Ok ==> Valid() && tmr == reg && cuts == old(cuts)
      ensures st == PowerCut ==> cuts < old(cuts)
    {
      ghost var S0 := S;
      var e;
      st, e := Rotate(0, 1, FACTORY_TMR);
      ghost var next := FreshSector(1, e, FACTORY_TMR, cap);
      if S == S0[0 := next] {
        FirstHeader(S0, next);
        FreshIsEmpty(1, e, FACTORY_TMR, cap);
        h := 1;
      }
      if st != Ok { return; }
      active, seqId, erase, tmr, w := 0, 1, 1, FACTORY_TMR, 0;
    }

    lemma FirstHeader(S0: Sectors, x: Sector)
      requires |S0| > WAL_PROTECT_WINDOW && cap > 0
               && (forall i :: 0 <= i < |S0| ==> |S0[i].slots| == cap && !S0[i].header.Valid?)
      requires exists e :: x == FreshSector(1, e, FACTORY_TMR, cap)
      ensures Stable(S0[0 := x], cap, 1, FACTORY_TMR, Nothing) && IsAt(S0[0 := x], 1, 0)
    {
      var S1 := S0[0 := x];
      assert SeqAt(S1, 0, 1);
      forall i, q: nat | SeqAt(S1, i, q) ensures i == 0 && q == 1 {}
      EntriesAre(x.slots, []);
    }

    /** The entries of one sector, newest first, until everything is found. */
    method ScanSector(i: nat, k: nat, main0: Option<Entry>, accum0: Option<Entry>, resume0: Option<Entry>)
      returns (main: Option<Entry>, accum: Option<Entry>, resume: Option<Entry>)
      requires i < |S| && k == |Entries(S[i].slots)|
      ensures var es := Entries(S[i].slots);
              && main == Or(main0, LastOf(es, MainKind))
              && accum == Or(accum0, LastOf(es, AccumKind))
              && resume == Or(resume0, LastOf(es, ResumeKind))
      ensures main == main0 || (main.Some? && main.value.intent.Main?)
      ensures accum == accum0 || (accum.Some? && accum.value.intent == NetSearchAccum)
      ensures resume == resume0 || (resume.Some? && resume.value.intent == DownloadCheckpoint)
    {
      hide Entries, LastOf;
      main, accum, resume := main0, accum0, resume0;
      ghost var es := Entries(S[i].slots);
      var at := k;
      LastOfNone(es);
      while at > 0
        invariant main == main0 || (main.Some? && main.value.intent.Main?)
        invariant accum == accum0 || (accum.Some? && accum.value.intent == NetSearchAccum)
        invariant resume == resume0 || (resume.Some? && resume.value.intent == DownloadCheckpoint)
        invariant 0 <= at <= k && FoundFrom(es, at, MainKind, main0, main)
        invariant FoundFrom(es, at, AccumKind, accum0, accum) && FoundFrom(es, at, ResumeKind, resume0, resume)
      {
        at := at - 1;
        var e := S[i].slots[at].entry;
        LastOfFront(es, at);
        match KindOf(e.intent) {
          case AccumKind => if accum == None { accum := Some(e); }
          case ResumeKind => if resume == None { resume := Some(e); }
          case SideKind =>
          case MainKind => if main == None { main := Some(e); }
        }
        if main.Some? && accum.Some? && resume.Some? {
          LastOfRest(es, at);
          return;
        }
      }
      LastOfRest(es, 0);
    }

    /** boot_journal_reconstruct_txn: the newest entry of each kind among the newest
        sequence ids, as many as there are sectors.  The main one is the open
        transaction as long as its sector has not been recycled, which is certain while
        fewer rotations than the window have passed. */
    method Reconstruct() returns (main: Option<Entry>, accum: Option<Entry>, resume: Option<Entry>)
      requires Valid()
      ensures main == Newest(S, h, |S|, MainKind)
      ensures accum == Newest(S, h, |S|, AccumKind)
      ensures resume == Newest(S, h, |S|, ResumeKind)
      ensures open.Logged? && h < open.q + |S| ==> main == Some(open.entry)
      ensures open.Nothing? ==> main == None
      ensures open.Lost? ==> open.q + WAL_PROTECT_WINDOW <= h
      ensures main.Some? ==> main.value.intent.Main?
      ensures accum.Some? ==> accum.value.intent == NetSearchAccum
      ensures resume.Some? ==> resume.value.intent == DownloadCheckpoint
    {
      hide Stable, Entries, Distinct, Chain, Of;
      OpenIsFound();
      main, accum, resume := None, None, None;
      var q: int := seqId;
      for step := 0 to |S|
        invariant q == seqId - step
        invariant Or(main, Newest(S, q, |S| - step, MainKind)) == Newest(S, h, |S|, MainKind)
        invariant Or(accum, Newest(S, q, |S| - step, AccumKind)) == Newest(S, h, |S|, AccumKind)
        invariant Or(resume, Newest(S, q, |S| - step, ResumeKind)) == Newest(S, h, |S|, ResumeKind)
        invariant main.Some? ==> main.value.intent.Main?
        invariant accum.Some? ==> accum.value.intent == NetSearchAccum
        invariant resume.Some? ==> resume.value.intent == DownloadCheckpoint
      {
        var i := FindBySeq(q);
        if i != -1 {
          var k;
          if step == 0 { k := w; } else { k := ScanFrontier(i); }
          OneSector(i, q);
          main, accum, resume := ScanSector(i, k, main, accum, resume);
          if main.Some? && accum.Some? && resume.Some? { return; }
        }
        if q <= 1 && erase <= |S| { return; }
        q := q - 1;
      }
    }

    lemma OpenIsFound()
      requires Valid()
      ensures open.Logged? && h < open.q + |S| ==> Newest(S, h, |S|, MainKind) == Some(open.entry)
      ensures open.Nothing? ==> Newest(S, h, |S|, MainKind) == None
      ensures open.Lost? ==> open.q + WAL_PROTECT_WINDOW <= h
      ensures Distinct(S, h) && |S| > WAL_PROTECT_WINDOW
    {
      if open.Logged? && h < open.q + |S| { NewestIsOpen(S, h, open, h, |S|); }
      if open.Nothing? { NewestIsNothing(S, h, |S|); }
    }

    lemma OneSector(i: nat, q: nat)
      requires Distinct(S, h) && SeqAt(S, i, q)
      ensures IsAt(S, q, i) && EntriesAt(S, q) == Entries(S[i].slots) && q >= 1
    {
    }

    /** Boot, and boot again after every cut. */
    method Boot()
      requires Bootable()
      modifies this
      ensures Valid() && reg == old(reg) && open == old(open) && cuts <= old(cuts)
      ensures old(Sound()) ==> S == old(S) && h == old(h)
      ensures h <= Max(old(h), 1)
    {
      var st := PowerCut;
      while st == PowerCut
        invariant Bootable() && reg == old(reg) && open == old(open) && cuts <= old(cuts) && h <= Max(old(h), 1)
        invariant st == Ok || st == PowerCut
        invariant st == Ok ==> Valid()
        invariant old(Sound()) ==> Sound() && S == old(S) && h == old(h)
        decreases cuts, st == PowerCut
      {
        st := Init();
      }
    }

    /** What an append does to the transaction that is found, across a cut and the boot after
        it: a main entry that reached flash becomes it, and an entry of any other kind leaves
        it as it was while it is protected. */
    method LogAndFind(e: Entry) returns (before: Option<Entry>, after: Option<Entry>, ghost took: bool)
      requires Valid()
      modifies this
      ensures Valid()
      ensures e.intent.Main? && took ==> after == Some(e)
      ensures !(e.intent.Main? && took) && old(open.Nothing? || (open.Logged? && h < open.q + WAL_PROTECT_WINDOW)) ==>
                after == before
      ensures old(open.Nothing?) ==> before == None
      ensures old(open.Logged? && h < open.q + WAL_PROTECT_WINDOW) ==> before == Some(old(open).entry)
    {
      var st, accum, resume;
      ValidSize();
      hide Stable, Fill, Newest, IsAt, EntriesAt;
      before, accum, resume := Reconstruct();
      st, took := Append(e);
      if st == PowerCut { Boot(); }
      ValidSize();
      after, accum, resume := Reconstruct();
    }

    /** How many sequence ids the open transaction is behind. */
    ghost function Behind(): int
      reads this
    {
      if open.Nothing? then 0 else h - open.q
    }

    /** Any history of appends, register updates and reboots, with cuts anywhere, and the
        reconstruction after it.  `done` says which operations returned success and `took`
        which had an effect: every one that returned success, some of those that were cut,
        and no other.  The register holds the last update that took effect; and the
        reconstruction returns the last main entry that did, as long as the operations
        after it have used up fewer sequence ids than the window protects. */
    method History(ops: seq<Op>) returns (done: seq<bool>, main: Option<Entry>, ghost took: seq<bool>)
      requires Bootable()
      modifies this
      ensures Valid() && |done| == |took| == |ops|
      ensures forall i :: 0 <= i < |ops| && done[i] ==> took[i]
      ensures old(cuts) == 0 && maxErase == 0 ==> forall i :: 0 <= i < |ops| ==> done[i]
      ensures tmr == TmrAfter(old(reg), ops, took)
      ensures Current(open) == OpenAfter(Current(old(open)), ops, took)
      ensures Distance(old(Behind()), ops, took) < WAL_PROTECT_WINDOW || Current(open) == None ==>
                main == OpenAfter(Current(old(open)), ops, took)
    {
      hide Stable, Unborn, EntriesAt, Fill, IsAt, Entries, Newest;
      done, took := [], [];
      BootableBehind();
      Boot();
      for i := 0 to |ops|
        invariant Valid() && |done| == |took| == i
        invariant forall k :: 0 <= k < i && done[k] ==> took[k]
        invariant cuts <= old(cuts) && (old(cuts) == 0 && maxErase == 0 ==> forall k :: 0 <= k < i ==> done[k])
        invariant tmr == TmrAfter(old(reg), ops[..i], took)
        invariant Current(open) == OpenAfter(Current(old(open)), ops[..i], took)
        invariant Behind() <= Distance(old(Behind()), ops[..i], took)
      {
        hide TmrAfter, OpenAfter, Distance, Current;
        var st;
        ghost var effect;
        st, effect := Perform(ops[i]);
        AfterOne(old(reg), Current(old(open)), old(Behind()), ops, i, took, effect);
        done, took := done + [st == Ok], took + [effect];
        if st == PowerCut { Boot(); }
      }
      assert ops[..|ops|] == ops;
      ValidSize();
      var accum, resume;
      main, accum, resume := Reconstruct();
    }

    lemma BootableBehind()
      requires Bootable()
      ensures Behind() >= 0 && (open.Nothing? || h >= 1)
    {
    }

    lemma ValidSize()
      requires Valid()
      ensures |S| > WAL_PROTECT_WINDOW && h >= 1
    {
    }

    method Perform(op: Op) returns (st: Status, ghost took: bool)
      requires Valid()
      modifies this
      ensures if st == PowerCut then Sound() else Valid()
      ensures st == Ok ==> took
      ensures st == Ok || st == PowerCut || maxErase > 0
      ensures if st == PowerCut then cuts < old(cuts) else cuts <= old(cuts)
      ensures reg == (if op.Set? && took then op.tmr else old(reg))
      ensures Current(open) == if IsMain(op) && took then Some(op.entry) else Current(old(open))
      ensures h >= 1 && Behind() <= if IsMain(op) && took then 0 else old(Behind()) + Cost(op)
    {
      ValidSize();
      hide Stable, Unborn, EntriesAt, Fill;
      match op {
        case Log(e) => st, took := Append(e);
        case Set(t) =>
          st := UpdateTmr(t);
          took := st == Ok || (st == PowerCut && reg == t);
        case Reboot =>
          Boot();
          st, took := Ok, true;
      }
    }
  }

  datatype Op = Log(entry: Entry) | Set(tmr: Tmr) | Reboot

  predicate IsMain(op: Op) {
    op.Log? && op.entry.intent.Main?
  }

  /** The sequence ids that an operation may use up, whether it succeeds or is cut. */
  function Cost(op: Op): nat {
    match op case Log(_) => 1 case Set(_) => 3 case Reboot => 0
  }

  /** What the operations after the last main entry that took effect may have used up;
      d is what was used up before them. */
  function Distance(d: int, ops: seq<Op>, took: seq<bool>): int
    requires |ops| == |took|
  {
    if ops == [] then d
    else if took[|took|-1] && IsMain(ops[|ops|-1]) then 0
    else Distance(d, ops[..|ops|-1], took[..|took|-1]) + Cost(ops[|ops|-1])
  }

  lemma AfterOne(t0: Tmr, e0: Option<Entry>, d: int, ops: seq<Op>, i: nat, took: seq<bool>, effect: bool)
    requires i < |ops| && |took| == i
    ensures TmrAfter(t0, ops[..i + 1], took + [effect]) ==
              if effect && ops[i].Set? then ops[i].tmr else TmrAfter(t0, ops[..i], took)
    ensures OpenAfter(e0, ops[..i + 1], took + [effect]) ==
              if effect && IsMain(ops[i]) then Some(ops[i].entry) else OpenAfter(e0, ops[..i], took)
    ensures Distance(d, ops[..i + 1], took + [effect]) ==
              if effect && IsMain(ops[i]) then 0 else Distance(d, ops[..i], took) + Cost(ops[i])
  {
    var xs, ts := ops[..i + 1], took + [effect];
    assert xs[..|xs| - 1] == ops[..i] && ts[..|ts| - 1] == took;
  }

  function Current(open: Open): Option<Entry> {
    if open.Nothing? then None else Some(open.entry)
  }

  /** The value of an atomic register after the operations that had an effect. */
  function TmrAfter(t0: Tmr, ops: seq<Op>, took: seq<bool>): Tmr
    requires |ops| == |took|
  {
    if ops == [] then t0
    else if took[|took|-1] && ops[|ops|-1].Set? then ops[|ops|-1].tmr
    else TmrAfter(t0, ops[..|ops|-1], took[..|took|-1])
  }

  /** The last main entry among the appends that had an effect. */
  function OpenAfter(e0: Option<Entry>, ops: seq<Op>, took: seq<bool>): Option<Entry>
    requires |ops| == |took|
  {
    if ops == [] then e0
    else
      var op := ops[|ops|-1];
      if took[|took|-1] && IsMain(op) then Some(op.entry)
      else OpenAfter(e0, ops[..|ops|-1], took[..|took|-1])
  }

  function Or<T>(a: Option<T>, b: Option<T>): Option<T> {
    if a.Some? then a else b
  }

  lemma {:induction false} LastOfTail(a: seq<Entry>, b: seq<Entry>, kind: Kind)
    ensures LastOf(a + b, kind) == Or(LastOf(b, kind), LastOf(a, kind))
    decreases |b|
  {
    if b == [] {
      assert a + b == a;
    } else {
      var b', e := b[..|b|-1], b[|b|-1];
      LastOfTail(a, b', kind);
      assert b == b' + [e] && a + b == a + b' + [e];
      LastOfAppend(b', e, kind);
      LastOfAppend(a + b', e, kind);
    }
  }

  /** What the scan has found once it is down to entry `at`. */
  predicate FoundFrom(es: seq<Entry>, at: int, kind: Kind, before: Option<Entry>, found: Option<Entry>) {
    0 <= at <= |es| && found == Or(before, LastOf(es[at..], kind))
  }

  lemma LastOfNone(es: seq<Entry>)
    ensures forall kind :: LastOf(es[|es|..], kind) == None
  {
  }

  lemma LastOfFront(es: seq<Entry>, at: nat)
    requires at < |es|
    ensures forall kind ::
              LastOf(es[at..], kind) ==
                Or(LastOf(es[at + 1..], kind), if Of(es[at].intent, kind) then Some(es[at]) else None)
  {
    var e, b := es[at], es[at + 1..];
    assert es[at..] == [e] + b;
    forall kind
      ensures LastOf([e] + b, kind) == Or(LastOf(b, kind), if Of(e.intent, kind) then Some(e) else None)
    {
      LastOfTail([e], b, kind);
      assert [e][..0] == [];
      assert LastOf([e], kind) == if Of(e.intent, kind) then Some(e) else None;
    }
  }

  /** Older entries do not matter once a newer one of the kind is found. */
  lemma LastOfRest(es: seq<Entry>, at: nat)
    requires at <= |es|
    ensures forall kind :: LastOf(es, kind) == Or(LastOf(es[at..], kind), LastOf(es[..at], kind))
    ensures at == 0 ==> forall kind :: LastOf(es, kind) == LastOf(es[at..], kind)
  {
    assert es == es[..at] + es[at..];
    forall kind ensures LastOf(es, kind) == Or(LastOf(es[at..], kind), LastOf(es[..at], kind)) {
      LastOfTail(es[..at], es[at..], kind);
    }
    if at == 0 { assert es[0..] == es; }
  }

  lemma FadesHere(S: Sectors, h: nat, v: nat, open: Open)
    requires Reusable(S, h, v)
    ensures Fades(open, Faded(S, v, open), h)
  {
  }

  lemma RecentKept(S: Sectors, h: nat, i: nat, q: nat)
    requires SeqAt(S, i, q) && q <= h < q + WAL_PROTECT_WINDOW
    ensures !Reusable(S, h, i)
  {
  }

  // ---- Why the limits are needed --------------------------------------------------------

  function Full(q: nat, erase: nat, slots: seq<Slot>): Sector {
    Sector(Valid(q, erase, []), slots)
  }

  function Wiped(): Sector {
    Unused(1)
  }

  function Unused(cap: nat): Sector {
    Sector(Blank, seq(cap, _ => Free))
  }

  function FourSectors(e: Entry): Sectors {
    [Full(5, 2, [Holds(e)]), Full(2, 1, [Free]), Full(3, 1, [Free]), Full(4, 1, [Free])]
  }

  /** Four sectors, which boot_journal_init accepts, are all protected.  The wear levelling
      then falls back to sector 0, here the active one, and the open transaction is gone
      as soon as its erase begins. */
  lemma FourSectorsUnsafe(e: Entry)
    requires e.intent.Main?
    ensures var S := FourSectors(e);
            && Distinct(S, 5) && Chain(S, 5) && IsAt(S, 5, 0) && (forall i :: !Reusable(S, 5, i))
            && Newest(S, 5, 4, MainKind) == Some(e)
            && Newest(S[0 := Wiped()], 5, 4, MainKind) == None && Newest(S[0 := Wiped()], 4, 4, MainKind) == None
  {
    var S := FourSectors(e);
    assert SeqAt(S, 0, 5) && SeqAt(S, 1, 2) && SeqAt(S, 2, 3) && SeqAt(S, 3, 4);
    EntriesAre([Holds(e)], [e]);
    EntriesAre([Free], []);
    Stop(S, 0, 5, 4, e);
    hide Newest;
    NewestIsNothing(S[0 := Wiped()], 5, 4);
    NewestIsNothing(S[0 := Wiped()], 4, 4);
  }

  /** An erase that begins while the open transaction is d ids behind, on a log whose
      reconstruction finds it. */
  ghost predicate Erasing(d: nat, S: Sectors, cap: nat, h: nat, t: Tmr, open: Open, v: nat, x: Sector) {
    && Stable(S, cap, h, t, open) && open.Logged? && h == open.q + d
    && Newest(S, h, |S|, MainKind) == Some(open.entry)
    && Reusable(S, h, v) && Worn(S[v], x)
  }

  ghost predicate Survives(d: nat) {
    forall S: Sectors, cap: nat, h: nat, t: Tmr, open: Open, v: nat, x: Sector ::
      Erasing(d, S, cap, h, t, open, v, x) ==>
      Newest(S[v := x], h, |S|, MainKind) == Some(open.entry)
  }

  /** Whatever the wear, a rotation that begins d ids after the open transaction leaves it
      to be found if and only if d is less than the window. */
  lemma SurvivesExactly(d: nat)
    ensures Survives(d) <==> d < WAL_PROTECT_WINDOW
  {
    if d < WAL_PROTECT_WINDOW {
      forall S: Sectors, cap: nat, h: nat, t: Tmr, open: Open, v: nat, x: Sector | Erasing(d, S, cap, h, t, open, v, x)
        ensures Newest(S[v := x], h, |S|, MainKind) == Some(open.entry)
      {
        NearSurvives(d, S, cap, h, t, open, v, x);
      }
    } else {
      var e := Entry(Main(0), []);
      LongLogLost(d, e);
      assert Erasing(d, LongLog(d, e), 1, d + 1, [], Logged(e, 1), 0, Wiped());
    }
  }

  lemma NearSurvives(d: nat, S: Sectors, cap: nat, h: nat, t: Tmr, open: Open, v: nat, x: Sector)
    requires Erasing(d, S, cap, h, t, open, v, x) && d < WAL_PROTECT_WINDOW
    ensures Newest(S[v := x], h, |S|, MainKind) == Some(open.entry)
  {
    StableWorn(S, cap, h, t, open, v, x);
    hide Worn, Entries, LastOf, Newest, Distinct, Chain;
    NewestIsOpen(S[v := x], h, open, h, |S|);
  }

  /** A log of d + 1 sectors with the open transaction in the oldest one. */
  function LongLog(d: nat, e: Entry): Sectors {
    seq(d + 1, i requires 0 <= i => Full(i + 1, 1, [if i == 0 then Holds(e) else Free]))
  }

  lemma LongLogAt(d: nat, e: Entry, i: nat)
    requires i <= d
    ensures |LongLog(d, e)| == d + 1 && LongLog(d, e)[i] == Full(i + 1, 1, [if i == 0 then Holds(e) else Free])
  {
  }

  lemma LongLogHas(d: nat, e: Entry)
    ensures forall i, q: nat :: SeqAt(LongLog(d, e), i, q) <==> 1 <= q <= d + 1 && i == q - 1
    ensures forall q: nat :: 1 <= q <= d + 1 ==> Has(LongLog(d, e), q) && Where(LongLog(d, e), q) == q - 1
  {
    forall i, q: nat ensures SeqAt(LongLog(d, e), i, q) <==> 1 <= q <= d + 1 && i == q - 1 {
      if 0 <= i <= d { LongLogAt(d, e, i); }
    }
    forall q: nat | 1 <= q <= d + 1 ensures Has(LongLog(d, e), q) && Where(LongLog(d, e), q) == q - 1 {
      assert SeqAt(LongLog(d, e), q - 1, q);
    }
  }

  lemma LongLogStable(d: nat, e: Entry)
    requires d >= WAL_PROTECT_WINDOW && e.intent.Main?
    ensures Stable(LongLog(d, e), 1, d + 1, [], Logged(e, 1)) && QuietAfter(LongLog(d, e)[0 := Wiped()], 0)
    ensures Reusable(LongLog(d, e), d + 1, 0) && Worn(LongLog(d, e)[0], Wiped())
  {
    var S := LongLog(d, e);
    EntriesAre([Holds(e)], [e]);
    EntriesAre([Free], []);
    LongLogHas(d, e);
    hide Entries, Vote, LongLog;
    forall i | 0 <= i <= d ensures S[i] == Full(i + 1, 1, [if i == 0 then Holds(e) else Free]) { LongLogAt(d, e, i); }
    assert Candidates(S, d + 1) == [[], [], []];
    VoteSame([]);
    forall q: nat | 1 < q ensures Quiet(S, q) {}
    var S' := S[0 := Wiped()];
    forall q: nat | 0 < q ensures Quiet(S', q) {
      if Has(S', q) {
        assert SeqAt(S, Where(S', q), q);
      }
    }
  }

  lemma VoteSame(t: Tmr)
    ensures Vote([t, t, t]) == t
  {
  }

  lemma LongLogLost(d: nat, e: Entry)
    requires d >= WAL_PROTECT_WINDOW && e.intent.Main?
    ensures Erasing(d, LongLog(d, e), 1, d + 1, [], Logged(e, 1), 0, Wiped())
    ensures Newest(LongLog(d, e)[0 := Wiped()], d + 1, d + 1, MainKind) == None
  {
    LongLogStable(d, e);
    NewestIsOpen(LongLog(d, e), d + 1, Logged(e, 1), d + 1, d + 1);
    NewestIsNothing(LongLog(d, e)[0 := Wiped()], d + 1, d + 1);
  }

  /** With five sectors the wear does not matter: a rotation that begins four ids after the
      open transaction always recycles its sector, and then nothing is found. */
  lemma FiveSectorsLose(S: Sectors, cap: nat, h: nat, t: Tmr, open: Open, v: nat, x: Sector, h': nat)
    requires Stable(S, cap, h, t, open) && |S| == 5 && open.Logged? && h == open.q + WAL_PROTECT_WINDOW
    requires Reusable(S, h, v) && h <= h' <= h + 1 && |x.slots| == cap
    requires (x.header.Valid? ==> x.header.seq_id == h + 1) && Entries(x.slots) == []
    ensures Newest(S, h, |S|, MainKind) == Some(open.entry)
    ensures v == Where(S, open.q) && Newest(S[v := x], h', |S|, MainKind) == None
  {
    hide Entries, Register, LastOf, Newest;
    var q := open.q;
    NewestIsOpen(S, h, open, h, |S|);
    assert Has(S, q) && Has(S, q + 1) && Has(S, q + 2) && Has(S, q + 3) && Has(S, h);
    FiveSpots(Where(S, q), Where(S, q + 1), Where(S, q + 2), Where(S, q + 3), Where(S, h), v);
    var S' := S[v := x];
    forall q': nat | 0 < q' ensures Quiet(S', q') { OthersQuiet(S, h, open, v, x, q'); }
    NewestIsNothing(S', h', |S'|);
  }

  /** So an update of the register that begins three ids after the open transaction loses
      it too: whatever the wear, its second header takes the sector. */
  lemma FiveSectorsUpdateLoses(S: Sectors, cap: nat, h: nat, t: Tmr, open: Open, t': Tmr,
                               v1: nat, e1: nat, v2: nat, x: Sector, h': nat)
    requires Stable(S, cap, h, t, open) && |S| == 5 && open.Logged? && h + 1 == open.q + WAL_PROTECT_WINDOW
    requires Reusable(S, h, v1) && Reusable(S[v1 := FreshSector(h + 1, e1, t', cap)], h + 1, v2)
    requires h + 1 <= h' <= h + 2 && |x.slots| == cap
    requires (x.header.Valid? ==> x.header.seq_id == h + 2) && Entries(x.slots) == []
    ensures var S1 := S[v1 := FreshSector(h + 1, e1, t', cap)];
            && Newest(S, h, |S|, MainKind) == Newest(S1, h + 1, |S1|, MainKind) == Some(open.entry)
            && Newest(S1[v2 := x], h', |S1|, MainKind) == None
  {
    hide Entries, Newest;
    StableRotated(S, cap, h, t, open, v1, e1, t');
    NewestIsOpen(S, h, open, h, |S|);
    var S1 := S[v1 := FreshSector(h + 1, e1, t', cap)];
    FiveSectorsLose(S1, cap, h + 1, Register(S1, h + 1), open, v2, x, h');
  }

  lemma OthersQuiet(S: Sectors, h: nat, open: Open, v: nat, x: Sector, q': nat)
    requires |S| == 5 && Distinct(S, h) && Kept(S, h, open) && open.Logged? && h == open.q + WAL_PROTECT_WINDOW
    requires v == Where(S, open.q) && Entries(x.slots) == [] && Chain(S, h)
    ensures Quiet(S[v := x], q')
  {
    hide Entries;
    var S', q := S[v := x], open.q;
    if Has(S', q') && Where(S', q') != v {
      var i := Where(S', q');
      assert SeqAt(S, i, q') && Has(S, q + 1) && Has(S, q + 2) && Has(S, q + 3) && Has(S, h);
      FiveSpots(Where(S, q), Where(S, q + 1), Where(S, q + 2), Where(S, q + 3), Where(S, h), i);
      assert q < q' && Quiet(S, q');
    }
  }

  /** Five different places are all there are. */
  lemma FiveSpots(a: nat, b: nat, c: nat, d: nat, e: nat, v: nat)
    requires a < 5 && b < 5 && c < 5 && d < 5 && e < 5 && v < 5
    requires a != b && a != c && a != d && a != e && b != c && b != d && b != e && c != d && c != e && d != e
    ensures v == a || v == b || v == c || v == d || v == e
  {
  }

  function Aged(a: Entry, b: Entry): Sectors {
    [Full(4, 9, [Free]), Full(5, 9, [Holds(a)]), Full(6, 1, [Holds(b)]),
     Full(7, 9, [Free]), Full(8, 9, [Free]), Full(9, 9, [Free]), Full(10, 9, [Free])]
  }

  /** Past the window the reconstruction may even fall back to an older transaction:
      here `b` is newer than `a`, but its sector is less worn and is recycled first. */
  lemma StaleResurrected(a: Entry, b: Entry)
    requires a.intent.Main? && b.intent.Main?
    ensures var S := Aged(a, b);
            && Stable(S, 1, 10, [], Logged(b, 6)) && Newest(S, 10, 7, MainKind) == Some(b)
            && (forall i :: Reusable(S, 10, i) ==> S[2].header.erase <= S[i].header.erase) && Reusable(S, 10, 2)
            && Newest(S[2 := FreshSector(11, 2, [], 1)], 11, 7, MainKind) == Some(a)
  {
    AgedBefore(a, b);
    AgedStable(a, b);
    hide Newest;
    AgedAfter(a, b);
  }

  lemma AgedStable(a: Entry, b: Entry)
    requires b.intent.Main?
    ensures Stable(Aged(a, b), 1, 10, [], Logged(b, 6))
  {
    var S := Aged(a, b);
    EntriesAre([Free], []);
    EntriesAre([Holds(b)], [b]);
    hide Entries;
    assert SeqAt(S, 2, 6) && SeqAt(S, 3, 7) && SeqAt(S, 4, 8) && SeqAt(S, 5, 9) && SeqAt(S, 6, 10);
    forall q: nat | 6 < q ensures Quiet(S, q) {}
  }

  lemma AgedBefore(a: Entry, b: Entry)
    requires b.intent.Main?
    ensures Newest(Aged(a, b), 10, 7, MainKind) == Some(b)
  {
    hide Newest;
    var S := Aged(a, b);
    EntriesAre([Free], []);
    EntriesAre([Holds(b)], [b]);
    Pass(S, 6, 10, 7);
    Pass(S, 5, 9, 6);
    Pass(S, 4, 8, 5);
    Pass(S, 3, 7, 4);
    Stop(S, 2, 6, 3, b);
  }

  lemma AgedAfter(a: Entry, b: Entry)
    requires a.intent.Main?
    ensures Newest(Aged(a, b)[2 := FreshSector(11, 2, [], 1)], 11, 7, MainKind) == Some(a)
  {
    hide Newest;
    var S := Aged(a, b)[2 := FreshSector(11, 2, [], 1)];
    EntriesAre([Free], []);
    EntriesAre([Holds(a)], [a]);
    EntriesAre(FreshSector(11, 2, [], 1).slots, []);
    Pass(S, 2, 11, 7);
    Pass(S, 6, 10, 6);
    Pass(S, 5, 9, 5);
    Pass(S, 4, 8, 4);
    Pass(S, 3, 7, 3);
    Pass(S, 2, 6, 2);
    Stop(S, 1, 5, 1, a);
  }

  lemma Pass(S: Sectors, i: nat, q: nat, steps: nat)
    requires steps > 0 && q >= 1
    requires forall k :: SeqAt(S, k, q) ==> k == i && Entries(S[i].slots) == []
    ensures Newest(S, q, steps, MainKind) == Newest(S, q - 1, steps - 1, MainKind)
  {
  }

  lemma Stop(S: Sectors, i: nat, q: nat, steps: nat, e: Entry)
    requires steps > 0 && q >= 1 && SeqAt(S, i, q) && e.intent.Main?
    requires forall k :: SeqAt(S, k, q) ==> k == i && Entries(S[i].slots) == [e]
    ensures Newest(S, q, steps, MainKind) == Some(e)
  {
  }
}
