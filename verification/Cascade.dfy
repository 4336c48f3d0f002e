/** The crash cascade: what one boot makes of the open intent, the failure counters and
    the reset reason (toobloader/core/boot_state.c, toobloader/core/boot_rollback.c). */
module Cascade {
  import opened Wrappers

  datatype Intent =
    | NoIntent | DeviceLocked | ConfirmCommit | RecoveryResolved
    | UpdatePending | TxnBegin | TxnCommit | TxnRollbackPending

  datatype Event = ConfirmOk | Crash | CloudUnlock | CloudLock | CloudUpdate

  datatype Action = HealCounter | AppendNext | PanicLocked | CrashAccum

  datatype Row = Row(cur: Intent, ev: Event, next: Intent, action: Action)

  /** INTENT_TABLE */
  const TABLE: seq<Row> := [
    Row(DeviceLocked, ConfirmOk, DeviceLocked, PanicLocked),
    Row(DeviceLocked, CloudUnlock, NoIntent, AppendNext),
    Row(ConfirmCommit, ConfirmOk, NoIntent, HealCounter),
    Row(ConfirmCommit, Crash, ConfirmCommit, CrashAccum),
    Row(RecoveryResolved, ConfirmOk, NoIntent, HealCounter),
    Row(RecoveryResolved, Crash, RecoveryResolved, CrashAccum),
    Row(NoIntent, CloudLock, DeviceLocked, AppendNext),
    Row(NoIntent, CloudUpdate, UpdatePending, AppendNext),
    Row(NoIntent, Crash, NoIntent, CrashAccum),
    Row(TxnCommit, Crash, TxnCommit, CrashAccum),
    Row(TxnRollbackPending, Crash, TxnRollbackPending, CrashAccum)
  ]

  /** What the table says, event by event. */
  function Transition(cur: Intent, ev: Event): Option<(Intent, Action)> {
    match ev
    case Crash =>
      if cur == DeviceLocked || cur == UpdatePending || cur == TxnBegin then None else Some((cur, CrashAccum))
    case ConfirmOk =>
      if cur == DeviceLocked then Some((DeviceLocked, PanicLocked))
      else if cur == ConfirmCommit || cur == RecoveryResolved then Some((NoIntent, HealCounter))
      else None
    case CloudUnlock => if cur == DeviceLocked then Some((NoIntent, AppendNext)) else None
    case CloudLock => if cur == NoIntent then Some((DeviceLocked, AppendNext)) else None
    case CloudUpdate => if cur == NoIntent then Some((UpdatePending, AppendNext)) else None
  }

  /** The linear search of evaluate_transition. */
  method Search(cur: Intent, ev: Event) returns (r: Option<(Intent, Action)>)
    ensures r == Transition(cur, ev)
  {
    for i := 0 to |TABLE|
      invariant forall j :: 0 <= j < i ==> !(TABLE[j].cur == cur && TABLE[j].ev == ev)
    {
      if TABLE[i].cur == cur && TABLE[i].ev == ev { return Some((TABLE[i].next, TABLE[i].action)); }
    }
    NoRow(cur, ev);
    return None;
  }

  lemma NoRow(cur: Intent, ev: Event)
    requires forall j :: 0 <= j < |TABLE| ==> !(TABLE[j].cur == cur && TABLE[j].ev == ev)
    ensures Transition(cur, ev) == None
  {
    assert !(TABLE[0].cur == cur && TABLE[0].ev == ev) && !(TABLE[1].cur == cur && TABLE[1].ev == ev)
        && !(TABLE[2].cur == cur && TABLE[2].ev == ev) && !(TABLE[3].cur == cur && TABLE[3].ev == ev)
        && !(TABLE[4].cur == cur && TABLE[4].ev == ev) && !(TABLE[5].cur == cur && TABLE[5].ev == ev)
        && !(TABLE[6].cur == cur && TABLE[6].ev == ev) && !(TABLE[7].cur == cur && TABLE[7].ev == ev)
        && !(TABLE[8].cur == cur && TABLE[8].ev == ev) && !(TABLE[9].cur == cur && TABLE[9].ev == ev)
        && !(TABLE[10].cur == cur && TABLE[10].ev == ev);
  }

  datatype Target = App | Recovery | Rescue | Locked

  /** BOOT_CONFIG_MAX_RETRIES and BOOT_CONFIG_MAX_RECOVERY_RETRIES */
  datatype Limits = Limits(app: nat, recovery: nat)

  /** boot_failure_counter and recovery_failure_counter */
  datatype Counters = Counters(app: nat, recovery: nat)

  function Accumulate(m: Limits, c: Counters): Counters {
    if c.app > m.app then c.(recovery := c.recovery + 1) else c.(app := c.app + 1)
  }

  /** boot_rollback_evaluate_os */
  function Choose(m: Limits, c: Counters): Target {
    if c.app <= m.app then App else if c.recovery <= m.recovery then Recovery else Rescue
  }

  class Device {
    const m: Limits
    var intent: Intent
    var c: Counters

    constructor (m: Limits, intent: Intent, c: Counters)
      ensures this.m == m && this.intent == intent && this.c == c
    {
      this.m, this.intent, this.c := m, intent, c;
    }

    /** evaluate_transition. */
    method Evaluate(ev: Event) returns (locked: bool)
      modifies this
      ensures match Transition(old(intent), ev)
              case None => intent == old(intent) && c == old(c) && !locked
              case Some((next, action)) =>
                && (locked <==> action == PanicLocked)
                && (action == HealCounter ==> intent == next && c == Counters(0, 0))
                && (action == AppendNext ==> intent == next && c == old(c))
                && (action == CrashAccum ==> intent == old(intent) && c == Accumulate(m, old(c)))
                && (action == PanicLocked ==> intent == old(intent) && c == old(c))
      // a lock comes from the cloud, to a device with nothing open, and goes by the cloud
      ensures old(intent) != DeviceLocked ==> (intent == DeviceLocked <==> old(intent) == NoIntent && ev == CloudLock)
      ensures old(intent) == DeviceLocked ==> intent == if ev == CloudUnlock then NoIntent else DeviceLocked
      ensures locked <==> old(intent) == DeviceLocked && ev == ConfirmOk
      // so does an update
      ensures old(intent) != UpdatePending ==>
                (intent == UpdatePending <==> old(intent) == NoIntent && ev == CloudUpdate)
      ensures old(intent) in {UpdatePending, TxnBegin} ==> intent == old(intent) && c == old(c)
      // only a crash and a confirmation count or heal
      ensures ev != Crash && ev != ConfirmOk ==> c == old(c)
      ensures ev == Crash ==>
                && intent == old(intent)
                && c == if intent in {DeviceLocked, UpdatePending, TxnBegin} then old(c) else Accumulate(m, old(c))
      ensures ev == ConfirmOk ==>
                if old(intent) in {ConfirmCommit, RecoveryResolved} then intent == NoIntent && c == Counters(0, 0)
                else intent == old(intent) && c == old(c)
    {
      var r := Search(intent, ev);
      locked := false;
      if r.None? { return; }
      match r.value.1 {
        case HealCounter =>
          if c.app > 0 || c.recovery > 0 { c := Counters(0, 0); }
          intent := r.value.0;
        case AppendNext => intent := r.value.0;
        case PanicLocked => locked := true;
        case CrashAccum => c := Accumulate(m, c);
      }
    }

    /** An unconfirmed update with failures on record is reverted. */
    predicate Reverts()
      reads this
    {
      c.app > 0 && (intent == TxnCommit || intent == TxnRollbackPending)
    }

    /** _handle_rollback_flow: with failures on record, revert an unconfirmed update or
        climb the cascade.  `reverted` is the outcome of the transport's rollback; if that
        fails the boot ends here. */
    method RollbackFlow(reverted: bool) returns (ok: bool, t: Target)
      modifies this
      ensures ok == (reverted || !old(Reverts()))
      ensures !ok ==> intent == old(intent) && c == old(c)
      ensures ok && old(Reverts()) ==> t == App && intent == NoIntent && c == Counters(0, old(c.recovery))
      ensures ok && !old(Reverts()) ==> t == Choose(m, c) && intent == old(intent) && c == old(c)
    {
      if c.app > 0 {
        if intent == TxnCommit || intent == TxnRollbackPending {
          if !reverted { return false, App; }
          intent := NoIntent;
          c := c.(app := 0);
          return true, App;
        }
        return true, Choose(m, c);
      }
      return true, App;
    }

    /** Steps 2 to 3 of one boot.  `reset` is a watchdog or hard-fault reset, `rtc` a
        confirmation by the confirm HAL, `nonceOk` a matching nonce in the log entry. */
    method Boot(reset: bool, rtc: bool, nonceOk: bool, reverted: bool) returns (ok: bool, t: Target)
      modifies this
      ensures old(intent) == DeviceLocked ==> ok && t == Locked && intent == DeviceLocked && c == old(c)
      // confirmed: healed
      ensures old(intent) == RecoveryResolved || (old(intent) == ConfirmCommit && (nonceOk || rtc))
              || (old(intent) == NoIntent && rtc) ==>
                ok && intent == NoIntent && c == Counters(0, 0) && t == App
      // nothing open, or a confirmation that is thrown away
      ensures (old(intent) == NoIntent || (old(intent) == ConfirmCommit && !nonceOk)) && !rtc ==>
                ok && intent == NoIntent && c == (if reset then Accumulate(m, old(c)) else old(c)) && t == Choose(m, c)
      // an update not applied yet
      ensures old(intent) in {UpdatePending, TxnBegin} ==>
              ok && intent == old(intent) && c == old(c) && t == Choose(m, c)
      // an update on trial: a crash is counted unless the confirm HAL speaks, and any
      // failure on record reverts it
      ensures old(intent) in {TxnCommit, TxnRollbackPending} ==>
                var c' := if reset && !rtc then Accumulate(m, old(c)) else old(c);
                if c'.app == 0 then ok && t == App && intent == old(intent) && c == c'
                else if reverted then ok && t == App && intent == NoIntent && c == Counters(0, c'.recovery)
                else !ok && intent == old(intent) && c == c'
    {
      var healed, locked := false, false;
      if intent != DeviceLocked && (intent == ConfirmCommit || intent == RecoveryResolved || rtc) {
        var auth := rtc || (intent == ConfirmCommit && nonceOk) || intent == RecoveryResolved;
        if !auth {
          intent := NoIntent;
        } else {
          if rtc && intent == NoIntent { intent := ConfirmCommit; }
          locked := Evaluate(ConfirmOk);
          healed := true;
        }
      }
      if intent == DeviceLocked { return true, Locked; }
      var crash := intent == ConfirmCommit || (reset && intent != UpdatePending && intent != TxnBegin);
      if healed { crash := false; }
      if crash { locked := Evaluate(Crash); }
      ok, t := RollbackFlow(reverted);
    }

    /** Consecutive crash boots with no update open. */
    method CrashBoots(n: nat) returns (t: Target)
      requires intent == NoIntent && n > 0
      modifies this
      ensures intent == NoIntent && c == AfterCrashes(m, old(c), n) && t == Choose(m, c)
    {
      var ok;
      ok, t := Boot(true, false, false, true);
      for i := 1 to n
        invariant intent == NoIntent && c == AfterCrashes(m, old(c), i) && t == Choose(m, c)
      {
        ok, t := Boot(true, false, false, true);
      }
    }
  }

  function AfterCrashes(m: Limits, c: Counters, n: nat): Counters {
    if n == 0 then c else Accumulate(m, AfterCrashes(m, c, n - 1))
  }

  /** The counters in closed form: first the app counter up to one past its limit, then
      the recovery counter. */
  lemma {:induction false} CountersAfter(m: Limits, c: Counters, n: nat)
    ensures var k := if c.app > m.app then 0 else m.app + 1 - c.app;
            AfterCrashes(m, c, n) ==
              if n <= k then Counters(c.app + n, c.recovery) else Counters(c.app + k, c.recovery + n - k)
    decreases n
  {
    if n > 0 { CountersAfter(m, c, n - 1); }
  }

  /** From a healed device: the app as long as n <= MAX_RETRIES, the recovery system for
      the next MAX_RECOVERY_RETRIES + 1 crashes, and serial rescue from then on. */
  lemma CascadeFromZero(m: Limits, n: nat)
    ensures Choose(m, AfterCrashes(m, Counters(0, 0), n)) ==
              if n <= m.app then App else if n <= m.app + m.recovery + 1 then Recovery else Rescue
  {
    CountersAfter(m, Counters(0, 0), n);
  }

  /** A revert of an unconfirmed update resets the app counter only.  What the recovery
      counter holds from before shortens the next cascade, down to no recovery attempt. */
  lemma CascadeAfterRevert(m: Limits, r: nat, n: nat)
    ensures Choose(m, AfterCrashes(m, Counters(0, r), n)) ==
              if n <= m.app then App else if n + r <= m.app + m.recovery + 1 then Recovery else Rescue
    ensures r > m.recovery ==> Choose(m, AfterCrashes(m, Counters(0, r), n)) != Recovery
  {
    CountersAfter(m, Counters(0, r), n);
  }

  /** More crashes never lead back down the cascade. */
  function Rank(t: Target): nat {
    match t case App => 0 case Recovery => 1 case Rescue => 2 case Locked => 3
  }

  lemma {:induction false} CascadeMonotone(m: Limits, c: Counters, n: nat, k: nat)
    requires n <= k
    ensures Rank(Choose(m, AfterCrashes(m, c, n))) <= Rank(Choose(m, AfterCrashes(m, c, k)))
    decreases k
  {
    if n < k { CascadeMonotone(m, c, n, k - 1); }
  }
}
