/**
 * The phase tracker as an object: its three collections and three configuration
 * fields are fields that its methods update. Each method is specified by the
 * functions of module PhaseRules applied to the state before the call.
 */
module Phase {
  import opened Base
  import opened PhaseRules

  /**
   * The catch-up loop of the sweep: push the deadline and the phase until the deadline
   * is no longer before `now` or the phase has reached `maxPhase`.
   */
  method CatchUpLoop(curPhase: int, deadline: int, now: int, maxPhase: int, ext: int)
    returns (newPhase: int, newDate: int)
    ensures (newPhase, newDate) == CatchUp(curPhase, deadline, now, maxPhase, ext)
  {
    newDate, newPhase := deadline, curPhase;
    while newDate < now && newPhase < maxPhase
      invariant CatchUp(newPhase, newDate, now, maxPhase, ext) == CatchUp(curPhase, deadline, now, maxPhase, ext)
      decreases maxPhase - newPhase
    {
      newDate := newDate + ext;
      newPhase := newPhase + 1;
    }
  }

  /**
   * The body of the sweep for one overdue record: a record already at `maxPhase` expires
   * with its deadline; any other is caught up and expires with the pushed deadline if that
   * is still before `now`, and otherwise moves to the caught-up phase and deadline.
   */
  method AdvanceOne(phase: ActiveDoc, now: int, maxPhase: int, ext: int) returns (step: Transition)
    ensures step == Advance(phase, now, maxPhase, ext)
  {
    if phase.deadline < now {
      if phase.curPhase == maxPhase {
        step := Expire(ExpiredDoc(phase.key, phase.deadline));
      } else {
        var newPhase, newDate := CatchUpLoop(phase.curPhase, phase.deadline, now, maxPhase, ext);
        if newDate < now {
          // the expired record carries `phase.deadline`, which the loop has pushed
          step := Expire(ExpiredDoc(phase.key, newDate));
        } else {
          step := Advanced(ActiveDoc(phase.key, newPhase, newDate));
        }
      }
    } else {
      step := Untouched;
    }
  }

  /**
   * The loop of `expireOld` over the overdue active records: a record's fate is decided
   * by `AdvanceOne`, and the loop carries it out, removing an expired record from the
   * active ones and appending it to the expired ones, or replacing an advanced one in
   * place. `j` is the position among the active records of the record being looked at.
   */
  method SweepLoop(active0: seq<ActiveDoc>, expired0: seq<ExpiredDoc>, now: int, maxPhase: int, ext: int)
    returns (active: seq<ActiveDoc>, expired: seq<ExpiredDoc>)
    ensures active == Survivors(active0, now, maxPhase, ext)
    ensures expired == expired0 + Expirations(active0, now, maxPhase, ext)
  {
    active, expired := active0, expired0;
    var snapshot := active;
    var i, j := 0, 0;
    while i < |snapshot|
      invariant 0 <= i <= |snapshot|
      invariant active == Survivors(snapshot[..i], now, maxPhase, ext) + snapshot[i..]
      invariant j == |Survivors(snapshot[..i], now, maxPhase, ext)|
      invariant expired == expired0 + Expirations(snapshot[..i], now, maxPhase, ext)
    {
      var phase := snapshot[i];
      SweepStepInPlace(snapshot, i, active, j, now, maxPhase, ext);
      var step := AdvanceOne(phase, now, maxPhase, ext);
      match step {
        case Untouched =>
          j := j + 1;
        case Expire(e) =>
          expired := expired + [e];
          active := active[..j] + active[j + 1..];
        case Advanced(next) =>
          active := active[j := next];
          j := j + 1;
      }
      i := i + 1;
    }
    assert snapshot[..i] == snapshot;
  }

  class PhaseConcept {
    var store: seq<StoreDoc>
    var active: seq<ActiveDoc>
    var expired: seq<ExpiredDoc>
    var maxPhase: int
    var deadlineExtension: int
    var numPromptsPerDay: int

    /** The three collections as one value. */
    function Tables(): Tables
      reads this
    {
      PhaseRules.Tables(store, active, expired)
    }

    /** The three configuration fields as one value. */
    function Config(): Config
      reads this
    {
      PhaseRules.Config(maxPhase, deadlineExtension, numPromptsPerDay)
    }

    ghost predicate Valid()
      reads this
    {
      Config().Valid() && Inv(Tables())
    }

    constructor ()
      ensures Valid()
      ensures Tables() == PhaseRules.Tables([], [], [])
      ensures Config() == PhaseRules.Config(3, 24, 2)
    {
      store, active, expired := [], [], [];
      maxPhase, deadlineExtension, numPromptsPerDay := 3, 24, 2;
    }

    /** `initialize(key)`. */
    method Initialize(key: ObjectId, now: int) returns (r: Result<Option<StoreDoc>>)
      requires Valid()
      modifies this`store, this`active, this`expired
      ensures Valid()
      ensures (Tables(), r) == Initialized(old(Tables()), Config(), key, now)
    {
      ExpireOld(now);
      var check := AlreadyExists(key);
      if check.Err? {
        return Err(check.error);
      }
      StoreAppendInv(Tables(), key);
      store := store + [StoreDoc(key, 0)];
      Start(now);
      r := Ok(FindStore(store, key));
    }

    /** `getActive()`: sweep, then every active record. */
    method GetActive(now: int) returns (r: seq<ActiveDoc>)
      requires Valid()
      modifies this`store, this`active, this`expired
      ensures Valid()
      ensures Tables() == ExpiredOld(old(Tables()), Config(), now)
      ensures r == active
      ensures forall i :: 0 <= i < |r| ==> r[i].deadline >= now
    {
      ExpireOld(now);
      r := active;
    }

    /** `getPhaseByKey(key)`: sweep, then the first active record with the key, if any. */
    method GetPhaseByKey(key: ObjectId, now: int) returns (r: Option<ActiveDoc>)
      requires Valid()
      modifies this`store, this`active, this`expired
      ensures Valid()
      ensures Tables() == ExpiredOld(old(Tables()), Config(), now)
      ensures r == FindActive(active, key)
    {
      ExpireOld(now);
      r := FindActive(active, key);
    }

    /** `getHistory()`: sweep, then every expired record. */
    method GetHistory(now: int) returns (r: seq<ExpiredDoc>)
      requires Valid()
      modifies this`store, this`active, this`expired
      ensures Valid()
      ensures Tables() == ExpiredOld(old(Tables()), Config(), now)
      ensures r == expired
    {
      ExpireOld(now);
      r := expired;
    }

    /** `editDeadline(key, newDeadline)`: refused for a date already past; otherwise only the
        deadline of the key's active record changes (nothing, if the key is not active). */
    method EditDeadline(key: ObjectId, newDeadline: int, now: int) returns (r: Result<()>)
      requires Valid()
      modifies this`active
      ensures Valid()
      ensures newDeadline < now ==> r == Err(NotAllowed) && active == old(active)
      ensures newDeadline >= now ==> r == Ok(()) && active == SetDeadline(old(active), key, newDeadline)
    {
      var check := AlreadyExpired(newDeadline, now);
      if check.Err? {
        return Err(check.error);
      }
      SetDeadlineInv(Tables(), key, newDeadline);
      active := SetDeadline(active, key, newDeadline);
      r := Ok(());
    }

    /** `deleteActive(key)`: sweep, then remove the key's active record. */
    method DeleteActive(key: ObjectId, now: int)
      requires Valid()
      modifies this`store, this`active, this`expired
      ensures Valid()
      ensures var t := ExpiredOld(old(Tables()), Config(), now);
        Tables() == t.(active := DeleteActiveKey(t.active, key))
    {
      ExpireOld(now);
      DeleteActiveKeyInv(Tables(), key);
      active := DeleteActiveKey(active, key);
    }

    /** `deleteExpired(key)`: remove every expired record with the key. */
    method DeleteExpired(key: ObjectId)
      requires Valid()
      modifies this`expired
      ensures Valid()
      ensures expired == DeleteExpiredKey(old(expired), key)
    {
      expired := DeleteExpiredKey(expired, key);
    }

    /** `changeNumPromptsPerDay(newVal)`: only a positive value is taken. */
    method ChangeNumPromptsPerDay(newVal: int) returns (r: Result<()>)
      requires Valid()
      modifies this`numPromptsPerDay
      ensures Valid()
      ensures newVal > 0 ==> r == Ok(()) && numPromptsPerDay == newVal
      ensures newVal <= 0 ==> r == Err(BadValues(newVal)) && numPromptsPerDay == old(numPromptsPerDay)
    {
      if newVal > 0 {
        numPromptsPerDay := newVal;
        return Ok(());
      }
      r := Err(BadValues(newVal));
    }

    /** `changeMaxPhase(newMax)`: only a positive value is taken. */
    method ChangeMaxPhase(newMax: int) returns (r: Result<()>)
      requires Valid()
      modifies this`maxPhase
      ensures Valid()
      ensures newMax > 0 ==> r == Ok(()) && maxPhase == newMax
      ensures newMax <= 0 ==> r == Err(BadValues(newMax)) && maxPhase == old(maxPhase)
    {
      if newMax > 0 {
        maxPhase := newMax;
        return Ok(());
      }
      r := Err(BadValues(newMax));
    }

    /** `changeDeadlineExtension(newVal)`: only a positive value is taken. */
    method ChangeDeadlineExtension(newVal: int) returns (r: Result<()>)
      requires Valid()
      modifies this`deadlineExtension
      ensures Valid()
      ensures newVal > 0 ==> r == Ok(()) && deadlineExtension == newVal
      ensures newVal <= 0 ==> r == Err(BadValues(newVal)) && deadlineExtension == old(deadlineExtension)
    {
      if newVal > 0 {
        deadlineExtension := newVal;
        return Ok(());
      }
      r := Err(BadValues(newVal));
    }

    /** `start()`: promote stored items while fewer than `numPromptsPerDay` are at phase 1. */
    method Start(now: int)
      requires Valid()
      modifies this`store, this`active
      ensures Valid()
      ensures Tables() == Started(old(Tables()), numPromptsPerDay, now + Config().ExtensionMillis())
    {
      StartedInv(Tables(), numPromptsPerDay, now + Config().ExtensionMillis());
      var existingPhase1s := PhaseOnes(active);
      if |existingPhase1s| < numPromptsPerDay {
        var phase1 := store[..Min(numPromptsPerDay, |store|)];
        var deadline := now + deadlineExtension * MillisPerHour;
        for i := 0 to |phase1|
          invariant store == old(store)[i..]
          invariant active == old(active) + Promote(phase1[..i], deadline)
        {
          assert Promote(phase1[..i + 1], deadline) ==
            Promote(phase1[..i], deadline) + [ActiveDoc(phase1[i].key, 1, deadline)];
          active := active + [ActiveDoc(phase1[i].key, 1, deadline)];
          store := DeleteStoreKey(store, phase1[i].key);
        }
        assert phase1[..|phase1|] == phase1;
      }
    }

    /** `expireOld()`: the sweep, then `start`. */
    method ExpireOld(now: int)
      requires Valid()
      modifies this`store, this`active, this`expired
      ensures Valid()
      ensures Tables() == ExpiredOld(old(Tables()), Config(), now)
      ensures forall i :: 0 <= i < |active| ==> active[i].deadline >= now
    {
      ExpiredOldSpec(Tables(), Config(), now);
      Sweep(now);
      Start(now);
    }

    /** The sweep of `expireOld` over the active records, written back to the collections. */
    method Sweep(now: int)
      requires Valid()
      modifies this`active, this`expired
      ensures Valid()
      ensures Tables() == Swept(old(Tables()), Config(), now)
    {
      SweptInv(Tables(), Config(), now);
      active, expired := SweepLoop(active, expired, now, maxPhase, deadlineExtension * MillisPerHour);
    }

    /** `alreadyExpired(date)`: a date before `now` is refused. */
    function AlreadyExpired(date: int, now: int): (r: Result<()>)
      ensures r.Err? <==> date < now
      ensures r.Err? ==> r.error == NotAllowed
    {
      if date < now then Err(NotAllowed) else Ok(())
    }

    /** `alreadyExists(key)`: a key that is active or stored is refused. */
    function AlreadyExists(key: ObjectId): (r: Result<()>)
      reads this
      ensures r.Err? <==> key in ActiveKeys(active) || key in StoreKeys(store)
      ensures r.Err? ==> r.error == KeyExists(key)
    {
      if FindActive(active, key).Some? || FindStore(store, key).Some? then Err(KeyExists(key)) else Ok(())
    }

    /** `doesntExist(key)`: the key's active record, or `NoPhaseError`. */
    function DoesntExist(key: ObjectId): (r: Result<ActiveDoc>)
      reads this
      ensures r.Err? <==> key !in ActiveKeys(active)
      ensures r.Err? ==> r.error == NoPhase(key)
      ensures r.Ok? ==> r.value.key == key && r.value in active
    {
      var phase := FindActive(active, key);
      if phase.None? then Err(NoPhase(key)) else Ok(phase.value)
    }
  }
}
