/** The A/B mailbox between the operating system and the boot loader: the writer
    (sdk/libtoob/toob_mailbox.c) and the reader (toobloader/core/boot_mailbox.c).
    The write-ahead log and the TMR register behind the reader are atomic here, which
    Journal.dfy proves of them. */
module Mailbox {
  import opened FlashModel
  import opened Wrappers

  const SLOTS: nat := 2
  const U32_MAX: nat := 0xFFFF_FFFF

  datatype Request = NoRequest | UpdatePending(tbm1: nat) | Confirm(nonce: nat) | RecoveryResolved | Unknown

  datatype Record = Record(id: nat, req: Request)

  /** A slot either holds a record that passes its checks or counts for nothing. */
  datatype Slot = Bad | Good(rec: Record)

  /** What mbx_apply appends to the write-ahead log. */
  datatype WalIntent = LogUpdatePending(tbm1: nat) | LogConfirmCommit | LogRecoveryResolved

  function Translate(req: Request, activeNonce: nat): Option<WalIntent> {
    match req
    case UpdatePending(tbm1) => Some(LogUpdatePending(tbm1))
    case Confirm(nonce) => if nonce == activeNonce then Some(LogConfirmCommit) else None
    case RecoveryResolved => Some(LogRecoveryResolved)
    case NoRequest => None
    case Unknown => None
  }

  /** What has to be asked, and with which nonce active, for an intent to be logged. */
  predicate Asks(req: Request, activeNonce: nat, intent: WalIntent) {
    match intent
    case LogUpdatePending(tbm1) => req == Request.UpdatePending(tbm1)
    case LogConfirmCommit => req == Confirm(activeNonce)
    case LogRecoveryResolved => req == RecoveryResolved
  }

  lemma AsksExactly(req: Request, activeNonce: nat, intent: WalIntent)
    ensures Translate(req, activeNonce) == Some(intent) <==> Asks(req, activeNonce, intent)
  {
  }

  function IdAt(S: seq<Slot>, i: nat): nat
    requires i < |S|
  {
    if S[i].Good? then S[i].rec.id else 0
  }

  class Box {
    var S: seq<Slot>
    var watermark: nat                        // tmr.last_mbx_request_id
    var log: seq<(nat, WalIntent)>            // appended intents, each with the id of its record
    var cuts: nat

    ghost var puts: seq<Request>              // the requests that reached flash, ids from 1 on
    ghost var runs: seq<(nat, nat)>           // the handlings: id and the nonce active then
    ghost var skipped: set<nat>               // ids superseded before that

    ghost function Top(): nat
      reads this`puts
    {
      |puts|
    }

    /** The ids whose request took effect. */
    ghost function Handled(): set<nat>
      reads this`runs
    {
      Ids(runs)
    }

    /** The newest record that reached flash. */
    ghost function Newest(): Option<Record>
      reads this`puts
    {
      if puts == [] then None else Some(Record(|puts|, puts[|puts|-1]))
    }

    /** The freshest record is in exactly one slot, and the other one is older. */
    ghost predicate Stored()
      reads this`S, this`puts
    {
      && |S| == SLOTS
      && match Newest()
         case None => forall i :: 0 <= i < SLOTS ==> S[i] == Bad
         case Some(rec) => exists i :: Holds(i, rec)
    }

    ghost predicate Holds(i: int, rec: Record)
      reads this`S
    {
      0 <= i < |S| == SLOTS && S[i] == Good(rec) && IdAt(S, 1 - i) < rec.id
    }

    /** Every id up to the freshest one was handled or superseded, or is still to come;
        the watermark stands at a record that was handled; and the log holds what the
        handled requests translate to, in order, and nothing else. */
    ghost predicate Valid()
      reads this
    {
      Stored() && Accounted()
    }

    ghost predicate Accounted()
      reads this`puts, this`watermark, this`log, this`runs, this`skipped
    {
      && Covered(Top(), watermark, Handled(), skipped)
      && Rising(runs) && log == Intents(puts, runs)
    }

    /** The slot scan of mailbox_put: the highest id, and the slot that does not hold it. */
    method Choose() returns (best: nat, target: nat)
      requires Stored() && Top() < U32_MAX
      ensures best == Top() && target < SLOTS && (Newest().None? ==> target == 0)
      ensures Newest().Some? ==> Holds(1 - target, Newest().value)
    {
      var targetId := U32_MAX;
      best, target := 0, 0;
      for i := 0 to SLOTS
        invariant best == (if i == 0 then 0 else if i == 1 then IdAt(S, 0)
                  else if IdAt(S, 0) > IdAt(S, 1) then IdAt(S, 0) else IdAt(S, 1))
        invariant i == 0 ==> target == 0 && targetId == U32_MAX
        invariant i > 0 && IdAt(S, 0) < U32_MAX ==>
                  target < i && targetId == IdAt(S, target) && (target == 1 ==> IdAt(S, 1) < IdAt(S, 0))
                  && forall j :: 0 <= j < i ==> targetId <= IdAt(S, j)
      {
        if S[i].Good? && S[i].rec.id > best { best := S[i].rec.id; }
        if IdAt(S, i) < targetId { target, targetId := i, IdAt(S, i); }
      }
      if Newest().Some? {
        var i :| Holds(i, Newest().value);
        assert i == 0 || i == 1;
      }
    }

    /** mailbox_put: into the slot that does not hold the freshest record, with the next
        id.  A cut leaves the old freshest record or the new one. */
    method Put(req: Request) returns (st: Status, ghost took: bool)
      requires Valid() && Top() < U32_MAX
      modifies this`S, this`cuts, this`puts, this`skipped
      ensures Valid()
      ensures st == Ok || st == PowerCut
      ensures puts == if took then old(puts) + [req] else old(puts)
      ensures st == Ok ==> took
      ensures skipped == old(skipped) +
                if took && old(Top() > 0 && Top() !in Handled()) then {old(Top())} else {}
      ensures if st == PowerCut then cuts < old(cuts) else cuts == old(cuts)
    {
      hide Accounted;
      var best, target := Choose();
      var rec := Record(best + 1, req);
      var cut: bool, stage: nat := *, *;
      st, took := Ok, true;
      if cut && cuts > 0 {
        cuts := cuts - 1;
        st := PowerCut;
        if stage < 2 {
          if stage == 1 { S := S[target := Bad]; }
          assert Newest().Some? ==> Holds(1 - target, Newest().value);
          took := false;
          return;
        }
      }
      S := S[target := Good(rec)];
      Supersede(req);
      assert Holds(target, rec);
    }

    /** The bookkeeping of a new record. */
    ghost method Supersede(req: Request)
      requires Accounted()
      modifies this`puts, this`skipped
      ensures Accounted() && puts == old(puts) + [req]
      ensures skipped == old(skipped) + if old(Top() > 0 && Top() !in Handled()) then {old(Top())} else {}
    {
      IntentsStay(puts, req, runs);
      if Top() > 0 && Top() !in Handled() { skipped := skipped + {Top()}; }
      puts := puts + [req];
    }

    /** mbx_read_best */
    method ReadBest() returns (best: Option<Record>)
      requires |S| == SLOTS
      ensures Stored() ==> best == Newest()
    {
      best := None;
      for i := 0 to SLOTS
        invariant i == 0 ==> best == None
        invariant i == 1 ==> best == if S[0].Good? then Some(S[0].rec) else None
        invariant i == 2 ==> best == if S[0].Good? && !(S[1].Good? && S[1].rec.id > S[0].rec.id) then Some(S[0].rec)
                                     else if S[1].Good? then Some(S[1].rec) else None
      {
        if S[i].Good? && (best == None || S[i].rec.id > best.value.id) { best := Some(S[i].rec); }
      }
    }

    /** What a handled request leaves in the log.  A confirmation of another nonce than the
        active one, and a request that nobody knows, leave nothing. */
    ghost predicate Logged(before: seq<(nat, WalIntent)>, req: Request, activeNonce: nat)
      reads this`log, this`puts
    {
      match req
      case UpdatePending(tbm1) => log == before + [(Top(), LogUpdatePending(tbm1))]
      case Confirm(nonce) => if nonce != activeNonce then log == before else log == before + [(Top(), LogConfirmCommit)]
      case RecoveryResolved => log == before + [(Top(), LogRecoveryResolved)]
      case _ => log == before
    }

    /** mbx_apply: a request that translates is appended to the log; every other one is
        consumed all the same. */
    method Apply(rec: Record, activeNonce: nat) returns (st: Status)
      requires Accounted() && Newest() == Some(rec) && watermark < Top()
      modifies this`log, this`runs, this`cuts
      ensures Accounted()
      ensures st == Ok || st == PowerCut
      ensures st == Ok ==> runs == old(runs) + [(Top(), activeNonce)] && Top() in Handled()
      ensures runs == old(runs) || runs == old(runs) + [(Top(), activeNonce)]
      ensures log == if runs == old(runs) then old(log) else old(log) + Tells(puts, (Top(), activeNonce))
      ensures runs != old(runs) ==> Logged(old(log), rec.req, activeNonce)
      ensures if st == PowerCut then cuts < old(cuts) else cuts == old(cuts)
    {
      hide Covered, Rising, Intents, Ids;
      var intent := Translate(rec.req, activeNonce);
      if intent.Some? {
        var cut: bool, reached: bool := *, *;
        if cut && cuts > 0 {
          cuts := cuts - 1;
          if reached {
            log := log + [(rec.id, intent.value)];
            Handle(activeNonce);
          }
          return PowerCut;
        }
        log := log + [(rec.id, intent.value)];
      }
      Handle(activeNonce);
      return Ok;
    }

    /** boot_mailbox_consume: apply the freshest record if it is above the watermark, and
        only then raise the watermark. */
    method Consume(activeNonce: nat) returns (st: Status)
      requires Valid()
      modifies this`watermark, this`log, this`runs, this`cuts
      ensures Valid() && old(watermark) <= watermark
      ensures st == Ok || st == PowerCut
      ensures st == Ok ==> watermark == Top()
      ensures runs == old(runs) || runs == old(runs) + [(Top(), activeNonce)]
      ensures st == Ok && old(watermark) < Top() ==> runs != old(runs)
      ensures watermark != old(watermark) ==> watermark == Top() && Top() in Handled()
      ensures log == if runs == old(runs) then old(log) else old(log) + Tells(puts, (Top(), activeNonce))
      ensures if runs == old(runs) then log == old(log)
              else old(watermark) < Top() && Logged(old(log), puts[Top()-1], activeNonce)
      ensures if st == PowerCut then cuts < old(cuts) else cuts == old(cuts)
    {
      hide Covered, Rising, Intents, Ids, Tells, Logged;
      var best := ReadBest();
      hide Stored;
      Raised(Top(), watermark, Handled(), skipped);
      if best == None || best.value.id <= watermark { return Ok; }
      st := Apply(best.value, activeNonce);
      if st != Ok { return; }
      Raised(Top(), watermark, Handled(), skipped);
      var cut: bool, reached: bool := *, *;
      if cut && cuts > 0 {
        cuts := cuts - 1;
        if reached { watermark := best.value.id; }
        return PowerCut;
      }
      watermark := best.value.id;
    }

    /** The bookkeeping of a handling, once the log has its intent. */
    ghost method Handle(nonce: nat)
      requires puts != [] && Covered(Top(), watermark, Handled(), skipped) && Rising(runs)
      requires watermark < Top() && log == Intents(puts, runs) + Tells(puts, (Top(), nonce))
      modifies this`runs
      ensures Accounted() && runs == old(runs) + [(Top(), nonce)] && Top() in Handled()
    {
      OneMore(puts, runs, (Top(), nonce));
      runs := runs + [(Top(), nonce)];
    }

    /** Two puts between two boots: the watermark passes the first record, which is never
        handled. */
    method PassedOver(first: Request, second: Request, activeNonce: nat)
      requires Valid() && watermark == Top() && Top() + 2 <= U32_MAX && cuts == 0
      modifies this
      ensures Valid() && watermark == old(Top()) + 2 && old(Top()) + 1 in skipped
      ensures old(Top()) + 1 !in Handled() && old(Top()) + 2 in Handled()
    {
      ghost var took;
      var st;
      st, took := Put(first);
      st, took := Put(second);
      st := Consume(activeNonce);
    }

    lemma LoggedIsEarned(before: seq<(nat, WalIntent)>, activeNonce: nat)
      requires log == before || (puts != [] && Logged(before, puts[Top()-1], activeNonce))
      ensures before <= log && forall e :: e in log[|before|..] ==> Earned(BootOp(activeNonce), puts, e)
    {
    }

    method Perform(op: Op) returns (st: Status, ghost took: bool)
      requires Valid() && Top() + 1 < U32_MAX
      modifies this
      ensures Valid() && old(watermark) <= watermark && old(runs) <= runs && (st == Ok ==> took)
      ensures puts == old(puts) + if op.PutOp? && took then [op.req] else []
      ensures st == Ok || st == PowerCut
      ensures if st == PowerCut then cuts < old(cuts) else cuts == old(cuts)
      ensures old(log) <= log && forall e :: e in log[|old(log)|..] ==> Earned(op, puts, e)
    {
      hide Stored, Accounted, Logged;
      match op {
        case PutOp(req) => st, took := Put(req);
        case BootOp(nonce) =>
          st := Consume(nonce);
          took := true;
          LoggedIsEarned(old(log), nonce);
      }
    }

    /** Any history of puts and boots, with cuts anywhere.  `took` says which puts reached
        flash.  Ids and the watermark never go back, what the watermark passes was handled
        unless it was superseded before that, and the log holds what every handled request
        translates to, in order, and nothing else. */
    method History(ops: seq<Op>) returns (done: seq<bool>, ghost took: seq<bool>)
      requires Valid() && Top() + |ops| < U32_MAX
      modifies this
      ensures Valid() && old(Top()) <= Top() <= old(Top()) + |ops| && old(watermark) <= watermark
      ensures |done| == |took| == |ops| && forall i :: 0 <= i < |ops| && done[i] ==> took[i]
      ensures old(cuts) == 0 ==> forall i :: 0 <= i < |ops| ==> done[i]
      ensures puts == old(puts) + Requests(ops, took)
      ensures forall q :: 1 <= q <= watermark ==> (q in Handled() <==> q !in skipped)
      ensures old(runs) <= runs && log == Intents(puts, runs)
      ensures old(log) <= log && forall e :: e in log[|old(log)|..] ==> EarnedBy(ops, puts, e)
      ensures forall q :: q in Handled() ==> 1 <= q <= Top() && Told(puts, runs, log, q)
    {
      hide EarnedBy, Told, Ids, Intents;
      done, took := [], [];
      for i := 0 to |ops|
        invariant Valid() && old(Top()) <= Top() <= old(Top()) + i && old(watermark) <= watermark
        invariant |done| == |took| == i && forall k :: 0 <= k < i && done[k] ==> took[k]
        invariant cuts <= old(cuts) && (old(cuts) == 0 ==> forall k :: 0 <= k < i ==> done[k])
        invariant puts == old(puts) + Requests(ops[..i], took) && old(runs) <= runs
        invariant old(log) <= log && forall e :: e in log[|old(log)|..] ==> EarnedBy(ops, puts, e)
      {
        hide Stored, Accounted, Requests, Earned, InLog;
        var st;
        ghost var effect, log0, puts0 := false, log, puts;
        st, effect := Perform(ops[i]);
        EarnedStill(ops, i, old(log), log0, log, puts0, puts);
        OneOp(old(puts), ops, i, took, effect);
        done, took := done + [st == Ok], took + [effect];
      }
      assert ops[..|ops|] == ops;
      Whole();
    }

    lemma Whole()
      requires Valid()
      ensures forall q :: 1 <= q <= watermark ==> (q in Handled() <==> q !in skipped)
      ensures log == Intents(puts, runs)
      ensures forall q :: q in Handled() ==> 1 <= q <= Top() && Told(puts, runs, log, q)
    {
      hide Ids, Intents, Rising, Stored, Told;
      Raised(Top(), watermark, Handled(), skipped);
      forall q | q in Handled() ensures Told(puts, runs, log, q) { Translated(puts, runs, q); }
    }


  }

  datatype Op = PutOp(req: Request) | BootOp(activeNonce: nat)

  /** The requests of the puts that reached flash. */
  function Requests(ops: seq<Op>, took: seq<bool>): seq<Request>
    requires |ops| == |took|
  {
    if ops == [] then []
    else
      var n := |ops| - 1;
      Requests(ops[..n], took[..n]) + if ops[n].PutOp? && took[n] then [ops[n].req] else []
  }

  lemma OneOp(puts0: seq<Request>, ops: seq<Op>, i: nat, took: seq<bool>, effect: bool)
    requires i == |took| < |ops|
    ensures puts0 + Requests(ops[..i + 1], took + [effect]) ==
            puts0 + Requests(ops[..i], took) + if ops[i].PutOp? && effect then [ops[i].req] else []
  {
    assert ops[..i + 1][..i] == ops[..i] && (took + [effect])[..i] == took;
  }

  /** A boot may log an intent if the request of that id asks for it: a commit takes the
      confirmation of the nonce that is active at that boot. */
  ghost predicate Earned(op: Op, puts: seq<Request>, e: (nat, WalIntent)) {
    op.BootOp? && 1 <= e.0 <= |puts| && Asks(puts[e.0 - 1], op.activeNonce, e.1)
  }

  ghost predicate EarnedBy(ops: seq<Op>, puts: seq<Request>, e: (nat, WalIntent)) {
    exists i :: 0 <= i < |ops| && Earned(ops[i], puts, e)
  }

  lemma EarnedStill(ops: seq<Op>, i: nat, log0: seq<(nat, WalIntent)>, log1: seq<(nat, WalIntent)>,
                    log2: seq<(nat, WalIntent)>, puts1: seq<Request>, puts2: seq<Request>)
    requires i < |ops| && log0 <= log1 <= log2 && puts1 <= puts2
    requires forall e :: e in log1[|log0|..] ==> EarnedBy(ops, puts1, e)
    requires forall e :: e in log2[|log1|..] ==> Earned(ops[i], puts2, e)
    ensures forall e :: e in log2[|log0|..] ==> EarnedBy(ops, puts2, e)
  {
    assert log2[|log0|..] == log1[|log0|..] + log2[|log1|..];
  }

  /** Every id up to the freshest one was handled or superseded, or is still to come. */
  ghost predicate Covered(top: nat, watermark: nat, handled: set<nat>, skipped: set<nat>) {
    && watermark <= top && (watermark > 0 ==> watermark in handled) && handled !! skipped
    && (forall q :: q in handled ==> 1 <= q <= top)
    && (forall q :: q in skipped ==> 1 <= q < top)
    && (forall q :: 1 <= q < top ==> q in handled || q in skipped)
  }

  function Ids(runs: seq<(nat, nat)>): set<nat> {
    if runs == [] then {} else Ids(runs[..|runs|-1]) + {runs[|runs|-1].0}
  }

  ghost predicate Rising(runs: seq<(nat, nat)>) {
    runs != [] ==> Rising(runs[..|runs|-1]) && AtMost(Ids(runs[..|runs|-1]), runs[|runs|-1].0)
  }

  ghost predicate AtMost(ids: set<nat>, n: nat) {
    forall q :: q in ids ==> q <= n
  }

  /** The watermark may move to a record that was handled. */
  lemma Raised(top: nat, watermark: nat, handled: set<nat>, skipped: set<nat>)
    requires Covered(top, watermark, handled, skipped)
    ensures AtMost(handled, top) && watermark <= top && (top in handled ==> Covered(top, top, handled, skipped))
    ensures forall q :: 1 <= q <= watermark ==> (q in handled <==> q !in skipped)
  {
  }

  /** What one handling appends to the log, and what a list of them does. */
  function Tells(puts: seq<Request>, run: (nat, nat)): seq<(nat, WalIntent)> {
    if 1 <= run.0 <= |puts| && Translate(puts[run.0 - 1], run.1).Some?
    then [(run.0, Translate(puts[run.0 - 1], run.1).value)] else []
  }

  function Intents(puts: seq<Request>, runs: seq<(nat, nat)>): seq<(nat, WalIntent)> {
    if runs == [] then [] else Intents(puts, runs[..|runs|-1]) + Tells(puts, runs[|runs|-1])
  }

  lemma OneMore(puts: seq<Request>, runs: seq<(nat, nat)>, run: (nat, nat))
    ensures Ids(runs + [run]) == Ids(runs) + {run.0}
    ensures Intents(puts, runs + [run]) == Intents(puts, runs) + Tells(puts, run)
    ensures Rising(runs + [run]) <==> Rising(runs) && AtMost(Ids(runs), run.0)
  {
    var more := runs + [run];
    assert more[..|more|-1] == runs && more[|more|-1] == run;
  }

  /** A handling of this id, with the nonce that was active then, told the log what the
      request asks for. */
  ghost predicate Told(puts: seq<Request>, runs: seq<(nat, nat)>, log: seq<(nat, WalIntent)>, q: nat) {
    exists k :: 0 <= k < |runs| && runs[k].0 == q && InLog(puts, runs[k], log)
  }

  ghost predicate InLog(puts: seq<Request>, run: (nat, nat), log: seq<(nat, WalIntent)>) {
    1 <= run.0 <= |puts| ==> forall w :: Asks(puts[run.0 - 1], run.1, w) ==> (run.0, w) in log
  }

  lemma TellsAll(puts: seq<Request>, run: (nat, nat), log: seq<(nat, WalIntent)>)
    requires forall e :: e in Tells(puts, run) ==> e in log
    ensures InLog(puts, run, log)
  {
    if 1 <= run.0 <= |puts| {
      forall w | Asks(puts[run.0 - 1], run.1, w) ensures (run.0, w) in log {
        AsksExactly(puts[run.0 - 1], run.1, w);
        assert (run.0, w) in Tells(puts, run);
      }
    }
  }

  lemma {:induction false} IntentsStay(puts: seq<Request>, req: Request, runs: seq<(nat, nat)>)
    requires AtMost(Ids(runs), |puts|)
    ensures Intents(puts + [req], runs) == Intents(puts, runs)
    decreases |runs|
  {
    if runs != [] {
      var front, run := runs[..|runs|-1], runs[|runs|-1];
      assert run.0 in Ids(runs) && Ids(front) <= Ids(runs);
      IntentsStay(puts, req, front);
      assert Tells(puts + [req], run) == Tells(puts, run);
    }
  }

  lemma {:induction false} Translated(puts: seq<Request>, runs: seq<(nat, nat)>, q: nat)
    requires q in Ids(runs)
    ensures Told(puts, runs, Intents(puts, runs), q)
    decreases |runs|
  {
    var front, run := runs[..|runs|-1], runs[|runs|-1];
    TellsAll(puts, run, Intents(puts, runs));
    if run.0 == q {
      assert runs[|runs|-1].0 == q;
    } else {
      Translated(puts, front, q);
      var k :| 0 <= k < |front| && front[k].0 == q && InLog(puts, front[k], Intents(puts, front));
      assert runs[k] == front[k];
    }
  }
}
