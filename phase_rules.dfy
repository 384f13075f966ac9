/**
 * The phase tracker's rules as functions over its three collections: the
 * catch-up of an overdue record, the per-record transition of the lazy sweep,
 * the promotion of stored items, and `initialize`. Dates are integer
 * milliseconds and the wall clock is the parameter `now`.
 */
module PhaseRules {
  import opened Base

  /** The deadline extension is configured in hours; dates are in milliseconds. */
  const MillisPerHour: int := 60 * 60 * 1000

  /** A pending item in the store collection (always at phase 0). */
  datatype StoreDoc = StoreDoc(key: ObjectId, curPhase: int)

  /** A record in the active collection. */
  datatype ActiveDoc = ActiveDoc(key: ObjectId, curPhase: int, deadline: int)

  /** A record in the expired collection: it is written without a phase. */
  datatype ExpiredDoc = ExpiredDoc(key: ObjectId, deadline: int)

  /** The three collections of the tracker. */
  datatype Tables = Tables(store: seq<StoreDoc>, active: seq<ActiveDoc>, expired: seq<ExpiredDoc>)

  /** The three configuration fields of the tracker. */
  datatype Config = Config(maxPhase: int, deadlineExtension: int, numPromptsPerDay: int) {
    /** What the setters admit: all three are positive. */
    ghost predicate Valid() {
      maxPhase > 0 && deadlineExtension > 0 && numPromptsPerDay > 0
    }

    /** The extension in milliseconds. */
    function ExtensionMillis(): int {
      deadlineExtension * MillisPerHour
    }
  }

  function StoreKeys(s: seq<StoreDoc>): seq<ObjectId> {
    seq(|s|, i requires 0 <= i < |s| => s[i].key)
  }

  function ActiveKeys(s: seq<ActiveDoc>): seq<ObjectId> {
    seq(|s|, i requires 0 <= i < |s| => s[i].key)
  }

  function ExpiredKeys(s: seq<ExpiredDoc>): seq<ObjectId> {
    seq(|s|, i requires 0 <= i < |s| => s[i].key)
  }

  /** The keys the tracker has in store or in active, in which each key occurs at most once. */
  function LiveKeys(t: Tables): seq<ObjectId> {
    StoreKeys(t.store) + ActiveKeys(t.active)
  }

  /** The tracker's invariant: store items are at phase 0, active records at phase 1 or
      later, and no key is pending or active twice, nor both pending and active. */
  ghost predicate Inv(t: Tables) {
    && (forall i :: 0 <= i < |t.store| ==> t.store[i].curPhase == 0)
    && (forall i :: 0 <= i < |t.active| ==> t.active[i].curPhase >= 1)
    && NoDup(LiveKeys(t))
  }

  // ---------------------------------------------------------------------------
  // The catch-up loop
  // ---------------------------------------------------------------------------

  /** `date` pushed `k` times by `ext`. */
  function Shifted(date: int, k: int, ext: int): int {
    date + k * ext
  }

  /** The catch-up loop: while the date has passed and the phase is below the maximum,
      push the date by one extension and move to the next phase. */
  function CatchUp(phase: int, date: int, now: int, maxPhase: int, ext: int): (int, int)
    decreases maxPhase - phase
  {
    if date < now && phase < maxPhase then CatchUp(phase + 1, date + ext, now, maxPhase, ext)
    else (phase, date)
  }

  lemma ShiftedMonotone(date: int, j: int, k: int, ext: int)
    requires j <= k && ext > 0
    ensures Shifted(date, j, ext) <= Shifted(date, k, ext)
  {
    assert k * ext - j * ext == (k - j) * ext;
  }

  /**
   * The catch-up loop ends after k steps, k the least count at which the pushed
   * date is no longer overdue or the phase has reached `maxPhase`; it never goes
   * beyond `maxPhase`.
   */
  lemma {:induction false} CatchUpIsLeast(phase: int, date: int, now: int, maxPhase: int, ext: int)
    ensures var (p, d) := CatchUp(phase, date, now, maxPhase, ext);
      && p >= phase
      && d == Shifted(date, p - phase, ext)
      && (d >= now || p >= maxPhase)
      && (p > phase ==> p <= maxPhase)
      && forall j :: 0 <= j < p - phase ==> Shifted(date, j, ext) < now
    decreases maxPhase - phase
  {
    if date < now && phase < maxPhase {
      CatchUpIsLeast(phase + 1, date + ext, now, maxPhase, ext);
      var (p, d) := CatchUp(phase + 1, date + ext, now, maxPhase, ext);
      assert Shifted(date + ext, p - phase - 1, ext) == Shifted(date, p - phase, ext) by {
        assert (p - phase - 1) * ext + ext == (p - phase) * ext;
      }
      forall j | 0 <= j < p - phase
        ensures Shifted(date, j, ext) < now
      {
        if j > 0 {
          assert Shifted(date + ext, j - 1, ext) == Shifted(date, j, ext) by {
            assert (j - 1) * ext + ext == j * ext;
          }
        }
      }
    }
  }

  /** Rounded-up quotient of a positive `a` by a positive `b`. */
  function CeilDiv(a: int, b: int): int
    requires b > 0
  {
    (a + b - 1) / b
  }

  lemma CeilDivBounds(a: int, b: int)
    requires a > 0 && b > 0
    ensures CeilDiv(a, b) >= 1
    ensures CeilDiv(a, b) * b >= a && (CeilDiv(a, b) - 1) * b < a
  {
    var q, r := (a + b - 1) / b, (a + b - 1) % b;
    assert a + b - 1 == q * b + r && 0 <= r < b;
    assert (q - 1) * b == q * b - b;
  }

  /**
   * Closed form of the catch-up: a record at `phase` whose deadline `date` has passed
   * advances by min(maxPhase - phase, ceil((now - date) / ext)) phases.
   */
  lemma CatchUpSteps(phase: int, date: int, now: int, maxPhase: int, ext: int)
    requires ext > 0
    ensures CatchUp(phase, date, now, maxPhase, ext).0 - phase ==
      if date >= now || phase >= maxPhase then 0
      else Min(maxPhase - phase, CeilDiv(now - date, ext))
  {
    CatchUpIsLeast(phase, date, now, maxPhase, ext);
    var (p, d) := CatchUp(phase, date, now, maxPhase, ext);
    var k := p - phase;
    if date < now && phase < maxPhase {
      var c := CeilDiv(now - date, ext);
      CeilDivBounds(now - date, ext);
      assert k >= 1;
      if k < c {
        // the date is still overdue after k steps, so the phase reached its maximum
        assert Shifted(date, c - 1, ext) < now;
        ShiftedMonotone(date, k, c - 1, ext);
        assert p == maxPhase;
      }
      // step c would have stopped the loop, so it does not take more than c steps
      assert c < k ==> Shifted(date, c, ext) < now;
    }
  }

  // ---------------------------------------------------------------------------
  // One record of the sweep
  // ---------------------------------------------------------------------------

  /** What the sweep does to one active record. */
  datatype Transition =
    | Untouched                   // not overdue: not selected by the sweep
    | Advanced(next: ActiveDoc)   // caught up and updated in place
    | Expire(record: ExpiredDoc)  // moved to the expired collection

  /**
   * The sweep applied to one record. A record at `maxPhase` moves with its own deadline;
   * otherwise the record catches up, and one still overdue afterwards moves with the
   * catch-up's date, because the date the loop pushes is the record's own deadline.
   */
  function Advance(r: ActiveDoc, now: int, maxPhase: int, ext: int): Transition {
    if r.deadline >= now then Untouched
    else if r.curPhase == maxPhase then Expire(ExpiredDoc(r.key, r.deadline))
    else
      var (p, d) := CatchUp(r.curPhase, r.deadline, now, maxPhase, ext);
      if d < now then Expire(ExpiredDoc(r.key, d))
      else Advanced(ActiveDoc(r.key, p, d))
  }

  /**
   * Which records the sweep touches, which it expires and with what deadline, and what an
   * advanced record becomes: it keeps its key, moves up by at least one phase and at most
   * to `maxPhase`, and its deadline is the first of the pushed dates at or after `now`.
   */
  lemma AdvanceSpec(r: ActiveDoc, now: int, maxPhase: int, ext: int)
    requires ext > 0
    ensures Advance(r, now, maxPhase, ext).Untouched? <==> r.deadline >= now
    ensures Advance(r, now, maxPhase, ext).Expire? <==>
      r.deadline < now &&
      (r.curPhase >= maxPhase || Shifted(r.deadline, maxPhase - r.curPhase, ext) < now)
    ensures Advance(r, now, maxPhase, ext).Expire? ==>
      Advance(r, now, maxPhase, ext).record ==
        ExpiredDoc(r.key,
          if r.curPhase < maxPhase then Shifted(r.deadline, maxPhase - r.curPhase, ext)
          else r.deadline)
    ensures Advance(r, now, maxPhase, ext).Advanced? ==>
      var n := Advance(r, now, maxPhase, ext).next;
      && n.key == r.key
      && r.curPhase < n.curPhase <= maxPhase
      && n.deadline >= now
      && n.deadline == Shifted(r.deadline, n.curPhase - r.curPhase, ext)
      && Shifted(r.deadline, n.curPhase - r.curPhase - 1, ext) < now
  {
    if r.deadline < now && r.curPhase < maxPhase {
      CatchUpIsLeast(r.curPhase, r.deadline, now, maxPhase, ext);
      var (p, d) := CatchUp(r.curPhase, r.deadline, now, maxPhase, ext);
      if d >= now {
        ShiftedMonotone(r.deadline, p - r.curPhase, maxPhase - r.curPhase, ext);
      }
    }
  }

  // ---------------------------------------------------------------------------
  // The sweep over the active collection
  // ---------------------------------------------------------------------------

  /** What a record contributes to the active collection after the sweep. */
  function SurvivorOf(t: Transition, r: ActiveDoc): seq<ActiveDoc> {
    match t
    case Untouched => [r]
    case Advanced(n) => [n]
    case Expire(_) => []
  }

  /** What a record contributes to the expired collection. */
  function ExpirationOf(t: Transition): seq<ExpiredDoc> {
    match t
    case Expire(e) => [e]
    case _ => []
  }

  /** The active records after the sweep, in their original order. */
  function Survivors(s: seq<ActiveDoc>, now: int, maxPhase: int, ext: int): seq<ActiveDoc> {
    if s == [] then []
    else
      var last := s[|s| - 1];
      Survivors(s[..|s| - 1], now, maxPhase, ext) + SurvivorOf(Advance(last, now, maxPhase, ext), last)
  }

  /** The records the sweep appends to the expired collection, in order. */
  function Expirations(s: seq<ActiveDoc>, now: int, maxPhase: int, ext: int): seq<ExpiredDoc> {
    if s == [] then []
    else
      var last := s[|s| - 1];
      Expirations(s[..|s| - 1], now, maxPhase, ext) + ExpirationOf(Advance(last, now, maxPhase, ext))
  }

  /** One more record of the sweep. */
  lemma SweepStep(s: seq<ActiveDoc>, i: nat, now: int, maxPhase: int, ext: int)
    requires i < |s|
    ensures Survivors(s[..i + 1], now, maxPhase, ext) ==
      Survivors(s[..i], now, maxPhase, ext) + SurvivorOf(Advance(s[i], now, maxPhase, ext), s[i])
    ensures Expirations(s[..i + 1], now, maxPhase, ext) ==
      Expirations(s[..i], now, maxPhase, ext) + ExpirationOf(Advance(s[i], now, maxPhase, ext))
  {
    assert s[..i + 1][..i] == s[..i];
  }

  /**
   * One step of the in-place sweep: when `active` holds the survivors of the first `i`
   * records followed by the records not yet looked at, position `j` holds record `i`, and
   * removing it (expired), replacing it (advanced) or stepping over it (untouched) gives
   * the same picture for the first `i + 1` records.
   */
  lemma SweepStepInPlace(s: seq<ActiveDoc>, i: nat, active: seq<ActiveDoc>, j: nat,
                         now: int, maxPhase: int, ext: int)
    requires i < |s|
    requires active == Survivors(s[..i], now, maxPhase, ext) + s[i..]
    requires j == |Survivors(s[..i], now, maxPhase, ext)|
    ensures j < |active| && active[j] == s[i]
    ensures var step, done := Advance(s[i], now, maxPhase, ext), Survivors(s[..i + 1], now, maxPhase, ext);
      && (step.Untouched? ==> active == done + s[i + 1..] && j + 1 == |done|)
      && (step.Expire? ==> active[..j] + active[j + 1..] == done + s[i + 1..] && j == |done|)
      && (step.Advanced? ==> active[j := step.next] == done + s[i + 1..] && j + 1 == |done|)
    ensures Expirations(s[..i + 1], now, maxPhase, ext) ==
      Expirations(s[..i], now, maxPhase, ext) + ExpirationOf(Advance(s[i], now, maxPhase, ext))
  {
    SweepStep(s, i, now, maxPhase, ext);
    assert s[i..] == [s[i]] + s[i + 1..];
    var step := Advance(s[i], now, maxPhase, ext);
    SpliceAfter(Survivors(s[..i], now, maxPhase, ext), s[i], s[i + 1..], if step.Advanced? then step.next else s[i]);
  }

  /** The sweep: lines up the survivors and appends the expirations. */
  function Swept(t: Tables, cfg: Config, now: int): Tables {
    t.(active := Survivors(t.active, now, cfg.maxPhase, cfg.ExtensionMillis()),
       expired := t.expired + Expirations(t.active, now, cfg.maxPhase, cfg.ExtensionMillis()))
  }

  /** Every active record either survives the sweep or is expired, under its own key. */
  lemma {:induction false} SweepPartitionsKeys(s: seq<ActiveDoc>, now: int, maxPhase: int, ext: int)
    ensures multiset(ActiveKeys(Survivors(s, now, maxPhase, ext))) +
            multiset(ExpiredKeys(Expirations(s, now, maxPhase, ext))) == multiset(ActiveKeys(s))
    ensures |Survivors(s, now, maxPhase, ext)| + |Expirations(s, now, maxPhase, ext)| == |s|
  {
    if s != [] {
      var init, last := s[..|s| - 1], s[|s| - 1];
      SweepPartitionsKeys(init, now, maxPhase, ext);
      var sv, ex := Survivors(init, now, maxPhase, ext), Expirations(init, now, maxPhase, ext);
      assert ActiveKeys(s) == ActiveKeys(init) + [last.key];
      match Advance(last, now, maxPhase, ext)
      case Untouched =>
        assert ActiveKeys(sv + [last]) == ActiveKeys(sv) + [last.key];
        assert Expirations(s, now, maxPhase, ext) == ex;
      case Advanced(n) =>
        assert n.key == last.key by { AdvanceSpec(last, now, maxPhase, 1); }
        assert ActiveKeys(sv + [n]) == ActiveKeys(sv) + [last.key];
        assert Expirations(s, now, maxPhase, ext) == ex;
      case Expire(e) =>
        assert e.key == last.key;
        assert ExpiredKeys(ex + [e]) == ExpiredKeys(ex) + [last.key];
        assert Survivors(s, now, maxPhase, ext) == sv;
    }
  }

  /** After the sweep no active record is overdue, and no record went back in phase. */
  lemma {:induction false} SurvivorsOnTime(s: seq<ActiveDoc>, now: int, maxPhase: int, ext: int)
    requires ext > 0
    ensures forall i :: 0 <= i < |Survivors(s, now, maxPhase, ext)| ==>
      Survivors(s, now, maxPhase, ext)[i].deadline >= now
    ensures (forall i :: 0 <= i < |s| ==> s[i].curPhase >= 1) ==>
      forall i :: 0 <= i < |Survivors(s, now, maxPhase, ext)| ==>
        Survivors(s, now, maxPhase, ext)[i].curPhase >= 1
  {
    if s != [] {
      var init, last := s[..|s| - 1], s[|s| - 1];
      SurvivorsOnTime(init, now, maxPhase, ext);
      AdvanceSpec(last, now, maxPhase, ext);
    }
  }

  /** A sweep with nothing overdue changes nothing. */
  lemma {:induction false} SweepOfOnTimeIsIdentity(s: seq<ActiveDoc>, now: int, maxPhase: int, ext: int)
    requires forall i :: 0 <= i < |s| ==> s[i].deadline >= now
    ensures Survivors(s, now, maxPhase, ext) == s
    ensures Expirations(s, now, maxPhase, ext) == []
  {
    if s != [] {
      SweepOfOnTimeIsIdentity(s[..|s| - 1], now, maxPhase, ext);
      assert s[..|s| - 1] + [s[|s| - 1]] == s;
    }
  }

  /** The sweep keeps the invariant and leaves the store alone. */
  lemma SweptInv(t: Tables, cfg: Config, now: int)
    requires cfg.Valid() && Inv(t)
    ensures Inv(Swept(t, cfg, now))
    ensures Swept(t, cfg, now).store == t.store
  {
    var ext := cfg.ExtensionMillis();
    var t2 := Swept(t, cfg, now);
    var sv := Survivors(t.active, now, cfg.maxPhase, ext);
    assert t2.active == sv;
    SweepPartitionsKeys(t.active, now, cfg.maxPhase, ext);
    SurvivorsOnTime(t.active, now, cfg.maxPhase, ext);
    assert multiset(ActiveKeys(sv)) <= multiset(ActiveKeys(t.active));
    assert LiveKeys(t2) == StoreKeys(t.store) + ActiveKeys(sv);
    assert multiset(LiveKeys(t2)) <= multiset(LiveKeys(t));
    NoDupSub(LiveKeys(t2), LiveKeys(t));
  }

  // ---------------------------------------------------------------------------
  // Promotion of stored items
  // ---------------------------------------------------------------------------

  /** The active records at phase 1 (`readMany({ curPhase: 1 })`). */
  function PhaseOnes(s: seq<ActiveDoc>): seq<ActiveDoc> {
    if s == [] then []
    else PhaseOnes(s[..|s| - 1]) + if s[|s| - 1].curPhase == 1 then [s[|s| - 1]] else []
  }

  /** Stored items as new phase-1 records sharing one deadline. */
  function Promote(s: seq<StoreDoc>, deadline: int): seq<ActiveDoc> {
    seq(|s|, i requires 0 <= i < |s| => ActiveDoc(s[i].key, 1, deadline))
  }

  /**
   * `start`: when fewer than `n` records are at phase 1, the first `n` stored items (not
   * just the shortfall) become active at phase 1 with the given deadline.
   */
  function Started(t: Tables, n: int, deadline: int): Tables {
    if |PhaseOnes(t.active)| < n then
      var k := Min(n, |t.store|);
      t.(store := t.store[k..], active := t.active + Promote(t.store[..k], deadline))
    else t
  }

  /**
   * `start` moves items from store to active and loses none: the store and active keys
   * together are the same multiset before and after, and expired is untouched.
   */
  lemma StartedConserves(t: Tables, n: int, deadline: int)
    ensures multiset(LiveKeys(Started(t, n, deadline))) == multiset(LiveKeys(t))
    ensures |Started(t, n, deadline).store| + |Started(t, n, deadline).active| == |t.store| + |t.active|
    ensures Started(t, n, deadline).expired == t.expired
    ensures |PhaseOnes(t.active)| >= n ==> Started(t, n, deadline) == t
    ensures |PhaseOnes(t.active)| < n ==>
      |Started(t, n, deadline).store| == |t.store| - Min(n, |t.store|)
  {
    if |PhaseOnes(t.active)| < n {
      var k := Min(n, |t.store|);
      var t' := Started(t, n, deadline);
      assert t.store == t.store[..k] + t.store[k..];
      assert StoreKeys(t.store) == StoreKeys(t.store[..k]) + StoreKeys(t.store[k..]);
      assert ActiveKeys(t'.active) == ActiveKeys(t.active) + StoreKeys(t.store[..k]);
      assert |t'.active| == |t.active| + k;
    }
  }

  lemma StartedInv(t: Tables, n: int, deadline: int)
    requires Inv(t)
    ensures Inv(Started(t, n, deadline))
  {
    StartedConserves(t, n, deadline);
    var t' := Started(t, n, deadline);
    forall x | x in LiveKeys(t') ensures multiset(LiveKeys(t'))[x] == 1 {
      assert x in multiset(LiveKeys(t));
    }
  }

  /** Promoted records get the shared deadline, so they are on time when it is in the future. */
  lemma StartedOnTime(t: Tables, n: int, deadline: int, now: int)
    requires deadline >= now
    requires forall i :: 0 <= i < |t.active| ==> t.active[i].deadline >= now
    ensures forall i :: 0 <= i < |Started(t, n, deadline).active| ==>
      Started(t, n, deadline).active[i].deadline >= now
  {
  }

  // ---------------------------------------------------------------------------
  // The whole sweep, and initialize
  // ---------------------------------------------------------------------------

  /** `expireOld`: the sweep followed by `start`, both at `now`. */
  function ExpiredOld(t: Tables, cfg: Config, now: int): Tables {
    Started(Swept(t, cfg, now), cfg.numPromptsPerDay, now + cfg.ExtensionMillis())
  }

  /** After `expireOld` the invariant holds and no active record is overdue. */
  lemma ExpiredOldSpec(t: Tables, cfg: Config, now: int)
    requires cfg.Valid() && Inv(t)
    ensures Inv(ExpiredOld(t, cfg, now))
    ensures forall i :: 0 <= i < |ExpiredOld(t, cfg, now).active| ==>
      ExpiredOld(t, cfg, now).active[i].deadline >= now
    ensures ExpiredOld(t, cfg, now).expired ==
      t.expired + Expirations(t.active, now, cfg.maxPhase, cfg.ExtensionMillis())
  {
    var ext, n := cfg.ExtensionMillis(), cfg.numPromptsPerDay;
    var s := Swept(t, cfg, now);
    assert s.active == Survivors(t.active, now, cfg.maxPhase, ext);
    SweptInv(t, cfg, now);
    StartedInv(s, n, now + ext);
    SurvivorsOnTime(t.active, now, cfg.maxPhase, ext);
    StartedOnTime(s, n, now + ext, now);
    StartedConserves(s, n, now + ext);
  }

  /** The stored record for `key` (`store.readOne(...)`), if any. */
  function FindStore(s: seq<StoreDoc>, key: ObjectId): (r: Option<StoreDoc>)
    ensures r.Some? <==> key in StoreKeys(s)
    ensures r.Some? ==> r.value in s && r.value.key == key
  {
    var i := IndexOf(StoreKeys(s), key);
    if i < 0 then None else Some(s[i])
  }

  /** The first active record for `key` (`active.readOne({ key })`), if any. */
  function FindActive(s: seq<ActiveDoc>, key: ObjectId): (r: Option<ActiveDoc>)
    ensures r.Some? <==> key in ActiveKeys(s)
    ensures r.Some? ==> r.value.key == key
    ensures r.Some? ==> exists i :: (0 <= i < |s| && s[i] == r.value &&
      forall j :: 0 <= j < i ==> s[j].key != key)
  {
    var i := IndexOf(ActiveKeys(s), key);
    if i < 0 then None
    else
      assert forall j :: 0 <= j < i ==> ActiveKeys(s)[..i][j] == s[j].key;
      Some(s[i])
  }

  /** A key blocks `initialize` when it is stored or active (`alreadyExists`). */
  predicate KeyInUse(t: Tables, key: ObjectId) {
    key in StoreKeys(t.store) || key in ActiveKeys(t.active)
  }

  /**
   * `initialize(key)`: sweep; refuse a key that is stored or active; otherwise store it
   * at phase 0 and run `start`. The answer is the key's stored record, which is gone
   * when `start` promoted it.
   */
  function Initialized(t: Tables, cfg: Config, key: ObjectId, now: int): (Tables, Result<Option<StoreDoc>>) {
    var t1 := ExpiredOld(t, cfg, now);
    if KeyInUse(t1, key) then (t1, Err(KeyExists(key)))
    else
      var t2 := Started(t1.(store := t1.store + [StoreDoc(key, 0)]), cfg.numPromptsPerDay,
                        now + cfg.ExtensionMillis());
      (t2, Ok(FindStore(t2.store, key)))
  }

  /**
   * `initialize` fails exactly when, after the sweep, the key is stored or active (a key
   * that only has expired records does not block it). On success the key is live exactly
   * once, one more item is stored or active, expired is as the sweep left it, and the
   * answer is the phase-0 record if the item was not promoted.
   */
  lemma InitializedSpec(t: Tables, cfg: Config, key: ObjectId, now: int)
    requires cfg.Valid() && Inv(t)
    ensures var (t2, r) := Initialized(t, cfg, key, now);
      var t1 := ExpiredOld(t, cfg, now);
      && Inv(t2)
      && (r.Err? <==> key in LiveKeys(t1))
      && (r.Err? ==> t2 == t1 && r.error == KeyExists(key))
      && (r.Ok? ==>
           && multiset(LiveKeys(t2))[key] == 1
           && |t2.store| + |t2.active| == |t1.store| + |t1.active| + 1
           && t2.expired == t1.expired
           && (r.value.Some? ==> r.value.value == StoreDoc(key, 0))
           && (r.value.None? ==> key in ActiveKeys(t2.active)))
  {
    var t1 := ExpiredOld(t, cfg, now);
    ExpiredOldSpec(t, cfg, now);
    if !KeyInUse(t1, key) {
      var u := t1.(store := t1.store + [StoreDoc(key, 0)]);
      var n, d := cfg.numPromptsPerDay, now + cfg.ExtensionMillis();
      var t2 := Started(u, n, d);
      assert Initialized(t, cfg, key, now) == (t2, Ok(FindStore(t2.store, key)));
      StoredThenStarted(t1, key, n, d);
    }
  }

  /** Storing a fresh key and then running `start`. */
  lemma StoredThenStarted(t1: Tables, key: ObjectId, n: int, d: int)
    requires Inv(t1) && key !in LiveKeys(t1)
    ensures var t2 := Started(t1.(store := t1.store + [StoreDoc(key, 0)]), n, d);
      && Inv(t2)
      && multiset(LiveKeys(t2))[key] == 1
      && |t2.store| + |t2.active| == |t1.store| + |t1.active| + 1
      && t2.expired == t1.expired
      && (FindStore(t2.store, key).Some? ==> FindStore(t2.store, key).value == StoreDoc(key, 0))
      && (FindStore(t2.store, key).None? ==> key in ActiveKeys(t2.active))
  {
    var u := t1.(store := t1.store + [StoreDoc(key, 0)]);
    StoreAppendInv(t1, key);
    StartedInv(u, n, d);
    StartedConserves(u, n, d);
    var t2 := Started(u, n, d);
    assert key in multiset(LiveKeys(t2));
    if FindStore(t2.store, key).None? {
      assert key in LiveKeys(t2);
    }
  }

  /**
   * Expired records are not disjoint from the live ones: `alreadyExists` looks only at
   * store and active, so a key with expired records is initialized again, and afterwards
   * it is both expired and live.
   */
  lemma ExpiredKeyReinitialized(t: Tables, cfg: Config, key: ObjectId, now: int)
    requires cfg.Valid() && Inv(t)
    requires key in ExpiredKeys(t.expired) && !KeyInUse(ExpiredOld(t, cfg, now), key)
    ensures var (t2, r) := Initialized(t, cfg, key, now);
      r.Ok? && key in ExpiredKeys(t2.expired) && key in LiveKeys(t2)
  {
    ExpiredOldSpec(t, cfg, now);
    InitializedSpec(t, cfg, key, now);
    var t1 := ExpiredOld(t, cfg, now);
    var ex := Expirations(t.active, now, cfg.maxPhase, cfg.ExtensionMillis());
    assert ExpiredKeys(t1.expired) == ExpiredKeys(t.expired) + ExpiredKeys(ex);
    var (t2, r) := Initialized(t, cfg, key, now);
    assert key in multiset(LiveKeys(t2));
  }

  /** The smallest instance: key 7 only has an expired record, and initializing it succeeds. */
  lemma ExpiredKeyReinitializedExample()
    ensures var (t2, r) := Initialized(Tables([], [], [ExpiredDoc(7, 0)]), Config(3, 24, 2), 7, 100);
      r.Ok? && 7 in ExpiredKeys(t2.expired) && 7 in LiveKeys(t2)
  {
    var t, cfg := Tables([], [], [ExpiredDoc(7, 0)]), Config(3, 24, 2);
    assert ExpiredKeys(t.expired) == [7];
    assert Survivors([], 100, 3, cfg.ExtensionMillis()) == [];
    assert ExpiredOld(t, cfg, 100).store == [] && ExpiredOld(t, cfg, 100).active == [];
    ExpiredKeyReinitialized(t, cfg, 7, 100);
  }

  /** Storing a key that is not live keeps the invariant and adds the key once. */
  lemma StoreAppendInv(t: Tables, key: ObjectId)
    requires Inv(t) && key !in LiveKeys(t)
    ensures Inv(t.(store := t.store + [StoreDoc(key, 0)]))
    ensures multiset(LiveKeys(t.(store := t.store + [StoreDoc(key, 0)]))) ==
      multiset(LiveKeys(t)) + multiset{key}
  {
    var u := t.(store := t.store + [StoreDoc(key, 0)]);
    assert StoreKeys(u.store) == StoreKeys(t.store) + [key];
    assert multiset(LiveKeys(u)) == multiset(LiveKeys(t)) + multiset{key};
    forall x | x in LiveKeys(u) ensures multiset(LiveKeys(u))[x] == 1 {
      if x != key { assert x in LiveKeys(t); }
    }
  }

  // ---------------------------------------------------------------------------
  // Single-record updates
  // ---------------------------------------------------------------------------

  /** `active.updateOne({ key }, { deadline })`: only the first record with the key changes,
      and only its deadline. A missing key changes nothing. */
  function SetDeadline(s: seq<ActiveDoc>, key: ObjectId, deadline: int): (r: seq<ActiveDoc>)
    ensures |r| == |s| && ActiveKeys(r) == ActiveKeys(s)
    ensures key !in ActiveKeys(s) ==> r == s
    ensures key in ActiveKeys(s) ==> exists i :: (0 <= i < |s| && s[i].key == key &&
      (forall j :: 0 <= j < i ==> s[j].key != key) &&
      r == s[i := s[i].(deadline := deadline)])
  {
    var i := IndexOf(ActiveKeys(s), key);
    if i < 0 then s
    else
      assert forall j :: 0 <= j < i ==> ActiveKeys(s)[..i][j] == s[j].key;
      s[i := s[i].(deadline := deadline)]
  }

  /** `active.deleteOne({ key })`: the first record with the key goes, the rest keep their order. */
  function DeleteActiveKey(s: seq<ActiveDoc>, key: ObjectId): (r: seq<ActiveDoc>)
    ensures key !in ActiveKeys(s) ==> r == s
    ensures key in ActiveKeys(s) ==>
      multiset(ActiveKeys(r)) == multiset(ActiveKeys(s)) - multiset{key} &&
      exists i :: 0 <= i < |s| && s[i].key == key &&
        (forall j :: 0 <= j < i ==> s[j].key != key) && r == s[..i] + s[i + 1..]
  {
    var i := IndexOf(ActiveKeys(s), key);
    if i < 0 then s
    else
      assert forall j :: 0 <= j < i ==> ActiveKeys(s)[..i][j] == s[j].key;
      assert ActiveKeys(s[..i] + s[i + 1..]) == RemoveAt(ActiveKeys(s), i);
      s[..i] + s[i + 1..]
  }

  /** `store.deleteOne(...)` of the stored item with this key: the first item with the key
      goes, wherever it sits, and the rest keep their order. */
  function DeleteStoreKey(s: seq<StoreDoc>, key: ObjectId): (r: seq<StoreDoc>)
    ensures key !in StoreKeys(s) ==> r == s
    ensures key in StoreKeys(s) ==>
      multiset(StoreKeys(r)) == multiset(StoreKeys(s)) - multiset{key} &&
      exists i :: 0 <= i < |s| && s[i].key == key &&
        (forall j :: 0 <= j < i ==> s[j].key != key) && r == s[..i] + s[i + 1..]
    ensures |s| > 0 && s[0].key == key ==> r == s[1..]
  {
    var i := IndexOf(StoreKeys(s), key);
    if i < 0 then s
    else
      assert forall j :: 0 <= j < i ==> StoreKeys(s)[..i][j] == s[j].key;
      assert StoreKeys(s[..i] + s[i + 1..]) == RemoveAt(StoreKeys(s), i);
      s[..i] + s[i + 1..]
  }

  /** `expired.deleteMany({ key })`: every expired record with the key goes, and nothing else. */
  function DeleteExpiredKey(s: seq<ExpiredDoc>, key: ObjectId): (r: seq<ExpiredDoc>)
    ensures forall i :: 0 <= i < |r| ==> r[i].key != key
    ensures forall e: ExpiredDoc :: e.key != key ==> multiset(r)[e] == multiset(s)[e]
    ensures forall e: ExpiredDoc :: e.key == key ==> multiset(r)[e] == 0
  {
    if s == [] then []
    else
      var rest := DeleteExpiredKey(s[..|s| - 1], key);
      var last := s[|s| - 1];
      assert s == s[..|s| - 1] + [last];
      if last.key == key then rest else rest + [last]
  }

  /** Removing one active record keeps the invariant. */
  lemma DeleteActiveKeyInv(t: Tables, key: ObjectId)
    requires Inv(t)
    ensures Inv(t.(active := DeleteActiveKey(t.active, key)))
  {
    var t' := t.(active := DeleteActiveKey(t.active, key));
    if key in ActiveKeys(t.active) {
      assert multiset(LiveKeys(t')) <= multiset(LiveKeys(t));
      forall x | x in LiveKeys(t') ensures multiset(LiveKeys(t'))[x] == 1 {
        assert x in multiset(LiveKeys(t));
      }
      var i :| 0 <= i < |t.active| && t.active[i].key == key &&
        (forall j :: 0 <= j < i ==> t.active[j].key != key) &&
        t'.active == t.active[..i] + t.active[i + 1..];
      forall j | 0 <= j < |t'.active| ensures t'.active[j].curPhase >= 1 {
        if j < i { assert t'.active[j] == t.active[j]; }
        else { assert t'.active[j] == t.active[j + 1]; }
      }
    }
  }

  lemma SetDeadlineInv(t: Tables, key: ObjectId, deadline: int)
    requires Inv(t)
    ensures Inv(t.(active := SetDeadline(t.active, key, deadline)))
  {
    assert LiveKeys(t.(active := SetDeadline(t.active, key, deadline))) == LiveKeys(t);
  }
}
