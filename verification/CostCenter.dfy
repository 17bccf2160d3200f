/** The cost center manager: it reads and saves rows of the cost center table and invoices the usage
    ledger, reading the clock anew wherever it needs the time. */
module CostCenters {
  import opened Timestamps
  import opened Billing
  import opened Wrappers

  /** A new record for an id that has none. */
  function Created(cfg: DefaultSpendingLimit, id: string, now: Time): CostCenter {
    CostCenter(id, Set(now), if IsTeam(id) then cfg.forTeams else cfg.forUsers, Other, Set(now), Set(AddMonth(now)))
  }

  /** The version that starts the next billing cycle. */
  function NextCycle(cc: CostCenter, now: Time): CostCenter {
    var start := if cc.nextBillingTime.Set? then cc.nextBillingTime else Set(now);
    cc.(creationTime := Set(now), billingCycleStart := start, nextBillingTime := Set(AddMonth(start.Time())))
  }

  predicate ListedBefore(cc: CostCenter, time: Time) {
    cc.billingStrategy != Stripe && cc.nextBillingTime.Set? && Millis(cc.nextBillingTime.t) < Millis(time)
  }

  predicate ResetDue(cc: CostCenter, now: Time) {
    cc.billingStrategy != Stripe && cc.DueAt(now)
  }

  lemma EarlierYear(a: Time, b: Time)
    requires Nanos(a) <= Nanos(b)
    ensures a.year <= b.year
  {
    if b.year < a.year {
      DaysGrow(b, a);
    }
  }

  lemma NextCycleIsKeepable(cfg: DefaultSpendingLimit, cc: CostCenter, now: Time)
    requires Keepable(cfg, now, cc) && 1970 <= now.year < 9999
    requires !cc.RunsAt(now)
    ensures Keepable(cfg, now, NextCycle(cc, now))
  {
    var start := if cc.nextBillingTime.Set? then cc.nextBillingTime.t else now;
    EarlierYear(start, now);
    AddMonthIsLater(start);
    EarlierYear(start, AddMonth(start));
  }

  /** `after` is `before` one cycle later, as the table keeps it. */
  predicate WasReset(before: CostCenter, after: CostCenter) {
    && after.id == before.id && after.spendingLimit == before.spendingLimit
    && after.billingStrategy == before.billingStrategy
    && before.nextBillingTime.Set? && after.billingCycleStart == before.nextBillingTime
    && after.nextBillingTime == Set(AddMonth(before.nextBillingTime.t))
  }

  lemma ResetIsStored(before: CostCenter, now: Time)
    requires before.Stored() == before && before.nextBillingTime.Set? && before.nextBillingTime.t.year >= 1970
    ensures WasReset(before, NextCycle(before, now).Stored())
  {
    var t := before.nextBillingTime.t;
    StoringIsStable(before.nextBillingTime);
    AddMonthAdvances(t);
    AddMonthIsLater(t);
    EarlierYear(t, AddMonth(t));
  }

  function AccountOf(cc: CostCenter, owed: int): Account {
    Account(cc.billingCycleStart.Time(), cc.nextBillingTime.Time(), Max(0, cc.spendingLimit), owed)
  }

  /** An effective reset of the stored record and its balance is one step of the repeated resets of an account. */
  lemma ResetIsOneStep(before: CostCenter, owedBefore: int, after: CostCenter, owedAfter: int)
    requires WasReset(before, after) && before.spendingLimit >= 0
    requires owedAfter == Covered(owedBefore, CreditCents(after.spendingLimit))
    ensures AccountOf(after, owedAfter) == ResetOnce(AccountOf(before, owedBefore))
  {
  }

  const LIMIT: Time := CivilTime(9999, 1, 1, 0, 0, 0, 0)

  lemma BeforeTheLimit(now: Time)
    requires now.year < 9999
    ensures Nanos(now) < Nanos(LIMIT)
  {
    if Nanos(LIMIT) <= Nanos(now) {
      EarlierYear(LIMIT, now);
    }
  }

  /** How far the end of the cycle is from the years that the clock does not reach. */
  ghost function TimeLeft(cc: CostCenter): nat {
    var next := Nanos(cc.nextBillingTime.Time());
    if next < Nanos(LIMIT) then Nanos(LIMIT) - next else 0
  }

  /** `k` resets have taken the account `a`, which each of them found due, to this record and balance. */
  ghost predicate Along(cc: CostCenter, owed: int, a: Account, k: nat, at: Time) {
    && cc.billingStrategy != Stripe && AccountOf(cc, owed) == ResetTimes(a, k)
    && (forall i: nat :: i < k ==> IsDue(ResetTimes(a, i), at))
    && (k > 0 ==> cc.nextBillingTime.Set?)
  }

  lemma AlongOnceMore(before: CostCenter, owedBefore: int, after: CostCenter, owedAfter: int, a: Account, k: nat, at: Time, at': Time)
    requires Along(before, owedBefore, a, k, at) && Nanos(at) <= Nanos(at')
    requires before.DueAt(at') && WasReset(before, after)
    requires AccountOf(after, owedAfter) == ResetOnce(AccountOf(before, owedBefore))
    ensures Along(after, owedAfter, a, k + 1, at')
  {
    forall i: nat | i < k + 1
      ensures IsDue(ResetTimes(a, i), at')
    {
      assert i < k ==> IsDue(ResetTimes(a, i), at);
    }
  }

  lemma TimeRunsOut(before: CostCenter, after: CostCenter, now: Time)
    requires before.DueAt(now) && now.year < 9999 && WasReset(before, after)
    ensures TimeLeft(after) < TimeLeft(before)
  {
    BeforeTheLimit(now);
    AddMonthIsLater(before.nextBillingTime.t);
  }

  lemma RestIsReached(cc: CostCenter, owed: int, a: Account, k: nat, at: Time)
    requires Along(cc, owed, a, k, at) && cc.nextBillingTime.Set? && !cc.DueAt(at)
    ensures k == EffectiveResets(a, at)
  {
    EffectiveResetsAre(a, at, k);
  }

  /** A record listed as ending before a time is expired at that time and ever after. */
  lemma ListedIsDue(cc: CostCenter, listedAt: Time, now: Time)
    requires ListedBefore(cc, listedAt) && Nanos(listedAt) <= Nanos(now)
    ensures ResetDue(cc, now)
  {
    if Nanos(listedAt) <= Nanos(cc.nextBillingTime.t) {
      MillisFollowNanos(listedAt, cc.nextBillingTime.t);
    }
  }

  lemma TimestampIsNotEmpty(t: Time)
    ensures TimeToISO8601(t) != ""
  {
    assert Fields(t)[0].mark == '-';
  }

  /** The version with the greatest creation time among those of the same record. */
  predicate IsMax(table: CostCenterTable, key: Key) {
    key in table && forall k :: k in table && k.id == key.id ==> k == key || Less(k.creationTime, key.creationTime)
  }

  lemma MaxIsLatest(table: CostCenterTable, key: Key)
    ensures IsMax(table, key) <==> IsLatest(table, key.id, key.creationTime)
  {
    assert key == Key(key.id, key.creationTime);
    if IsLatest(table, key.id, key.creationTime) {
      forall k | k in table && k.id == key.id
        ensures k == key || Less(k.creationTime, key.creationTime)
      {
        assert k == Key(key.id, k.creationTime);
      }
    }
  }

  lemma UpdateWithItself<K, V>(m: map<K, V>, k: K)
    requires k in m
    ensures m[k := m[k]] == m
  {
  }

  lemma UpdateTwice<K, V>(m: map<K, V>, k: K, v: V, w: V)
    ensures m[k := v][k := w] == m[k := w]
  {
  }

  function MaxId(ledger: seq<Usage>): (m: nat)
    ensures forall u :: u in ledger ==> u.id < m
  {
    if ledger == [] then 0
    else
      var m := MaxId(ledger[1..]);
      if ledger[0].id < m then m else ledger[0].id + 1
  }

  predicate IsUnused(ledger: seq<Usage>, id: nat) {
    forall u :: u in ledger ==> u.id != id
  }

  /** What an entry adds to the balance of an account. */
  function Share(u: Usage, id: string): int {
    if u.attributionId == id then u.creditCents else 0
  }

  lemma BalanceOfAppended(ledger: seq<Usage>, record: Usage, id: string)
    ensures Balance(ledger + [record], id) ==
            Balance(ledger, id) + Share(record, id)
  {
    assert (ledger + [record])[..|ledger|] == ledger;
  }

  lemma {:induction false} BalanceOfReplaced(ledger: seq<Usage>, i: nat, record: Usage, id: string)
    requires i < |ledger|
    ensures Balance(ledger[i := record], id) == Balance(ledger, id) - Share(ledger[i], id) + Share(record, id)
  {
    var front := ledger[..|ledger| - 1];
    var replaced := ledger[i := record];
    if i == |ledger| - 1 {
      assert replaced[..|ledger| - 1] == front;
    } else {
      BalanceOfReplaced(front, i, record, id);
      assert replaced[..|ledger| - 1] == front[i := record];
    }
  }

  /** The greatest creation time string among the versions of a record, if it has any. */
  method FindLatest(table: CostCenterTable, id: string) returns (best: Option<string>)
    ensures best.Some? ==> IsLatest(table, id, best.value)
    ensures best.None? ==> forall c :: Key(id, c) !in table
  {
    var todo := table.Keys;
    best := None;
    while todo != {}
      invariant todo <= table.Keys
      invariant best.None? ==> forall c :: Key(id, c) in table ==> Key(id, c) in todo
      invariant best.Some? ==> IsLatestBut(table, todo, id, best.value)
    {
      var key :| key in todo;
      if key.id == id {
        if best.Some? {
          LaterVersion(table, todo, id, best.value, key.creationTime);
        }
        if best.None? || Less(best.value, key.creationTime) {
          best := Some(key.creationTime);
        }
      }
      todo := todo - {key};
    }
  }

  class CostCenterManager {
    const cfg: DefaultSpendingLimit
    var clock: Time
    var centers: CostCenterTable
    var ledger: seq<Usage>
    /** The one record per id that the versions in the table stand for. */
    ghost var current: map<string, CostCenter>

    ghost predicate Valid()
      reads this
    {
      && cfg.forTeams >= 0 && cfg.forUsers >= 0
      && 1970 <= clock.year < 9999
      && AllWellKept(cfg, clock, centers)
      && Refines(centers, current)
    }

    ghost function Owed(id: string): int
      reads this
    {
      Balance(ledger, id)
    }

    /** `cc` is the record that counts for `id`, up to the precision of the table. */
    ghost predicate Holds(id: string, cc: CostCenter)
      reads this
    {
      cc.id == id && id in current && current[id] == cc.Stored()
    }

    /** Nobody else owes more or less than before. */
    twostate predicate OthersOweTheSame(id: string)
      reads this
    {
      forall j :: j != id ==> Owed(j) == old(Owed(j))
    }

    constructor (cfg: DefaultSpendingLimit, start: Time)
      requires cfg.forTeams >= 0 && cfg.forUsers >= 0 && 1970 <= start.year < 9999
      ensures Valid() && current == map[] && ledger == []
    {
      this.cfg := cfg;
      clock, centers, ledger, current := start, map[], [], map[];
    }

    /** A reading of the clock, at any time not before the last reading. */
    method Now() returns (now: Time)
      requires Valid()
      modifies this`clock
      ensures Valid() && now == clock && Nanos(old(clock)) <= Nanos(now) && Millis(old(clock)) <= Millis(now)
    {
      now := *;
      if now.year >= 9999 || Before(now, clock) {
        now := clock;
      }
      MillisFollowNanos(clock, now);
      EarlierYear(clock, now);
      ClockMayAdvance(cfg, clock, now, centers);
      clock := now;
    }

    /** The version that counts. */
    method GetCostCenter(id: string) returns (r: Option<CostCenter>)
      requires Valid()
      ensures r.Some? <==> id in current
      ensures r.Some? ==> r.value == current[id] && Holds(id, r.value) && Keepable(cfg, clock, r.value)
    {
      var best := FindLatest(centers, id);
      if best.None? {
        if id in current {
          CurrentHasAVersion(centers, current, id);
        }
        return None;
      }
      LatestIs(centers, current, id, best.value);
      var key := Key(id, best.value);
      assert WellKept(cfg, clock, key, centers[key]);
      r := Some(centers[key]);
    }

    /** Stores a version created now; from here on it is the one that counts. */
    method Save(cc: CostCenter)
      requires Valid() && Keepable(cfg, clock, cc)
      requires NoneNewer(centers, cc.id, cc.creationTime.t)
      modifies this`centers, this`current
      ensures Valid() && Holds(cc.id, cc)
      ensures centers == old(centers)[Key(cc.id, cc.creationTime.String()) := cc.Stored()]
      ensures current == old(current)[cc.id := cc.Stored()]
    {
      SaveRefines(cfg, clock, centers, current, cc);
      StoredIsWellKept(cfg, clock, cc);
      centers := centers[Key(cc.id, cc.creationTime.String()) := cc.Stored()];
      current := current[cc.id := cc.Stored()];
    }

    method IsExpired(cc: CostCenter) returns (expired: bool, ghost now: Time)
      requires Valid()
      modifies this`clock
      ensures Valid() && now == clock && Nanos(old(clock)) <= Nanos(now) && Millis(old(clock)) <= Millis(now)
      ensures expired <==> cc.DueAt(now)
    {
      if cc.nextBillingTime.Unset? {
        return false, clock;
      }
      var reading := Now();
      now := reading;
      expired := Before(cc.nextBillingTime.Time(), reading);
    }

    // ----- The ledger

    method GetBalance(id: string) returns (balance: int)
      ensures balance == Owed(id)
    {
      balance := 0;
      for i := 0 to |ledger|
        invariant balance == Balance(ledger[..i], id)
      {
        assert ledger[..i + 1] == ledger[..i] + [ledger[i]];
        BalanceOfAppended(ledger[..i], ledger[i], id);
        if ledger[i].attributionId == id {
          balance := balance + ledger[i].creditCents;
        }
      }
      assert ledger[..|ledger|] == ledger;
    }

    /** Usage reported from outside; an entry whose id is already taken is dropped. */
    method InsertUsage(record: Usage)
      requires Valid()
      modifies this`ledger
      ensures Valid()
      ensures ledger == if IsUnused(old(ledger), record.id) then old(ledger) + [record] else old(ledger)
      ensures forall id :: Owed(id) == old(Owed(id)) +
                (if IsUnused(old(ledger), record.id) && record.attributionId == id then record.creditCents else 0)
    {
      if forall u :: u in ledger ==> u.id != record.id {
        forall id {
          BalanceOfAppended(ledger, record, id);
        }
        ledger := ledger + [record];
      }
    }

    /** An entry of an unused id is added, and one whose id is taken replaces the first entry of that id; all others stay
        where they are, and every balance moves by what has come and what has gone. */
    method UpdateUsage(record: Usage) returns (ghost replaced: Option<nat>)
      modifies this`ledger
      ensures replaced.None? <==> IsUnused(old(ledger), record.id)
      ensures old(|ledger|) <= |ledger| && record in ledger
      ensures replaced.None? ==> old(ledger) < ledger && |ledger| == old(|ledger|) + 1
      ensures replaced.Some? ==> replaced.value < |ledger| == old(|ledger|) && old(ledger[replaced.value]).id == record.id
      ensures forall i :: 0 <= i < old(|ledger|) ==> ledger[i] == old(ledger)[i] || replaced == Some(i)
      ensures forall id :: Owed(id) == old(Owed(id)) + Share(record, id)
                                       - (if replaced.Some? then Share(old(ledger)[replaced.value], id) else 0)
    {
      var i := 0;
      while i < |ledger| && ledger[i].id != record.id
        invariant i <= |ledger|
        invariant forall j :: 0 <= j < i ==> ledger[j].id != record.id
      {
        i := i + 1;
      }
      if i < |ledger| {
        replaced := Some(i);
        forall id {
          BalanceOfReplaced(ledger, i, record, id);
        }
        ledger := ledger[i := record];
        assert ledger[i] == record;
      } else {
        replaced := None;
        forall id {
          BalanceOfAppended(ledger, record, id);
        }
        ledger := ledger + [record];
      }
    }

    /** The invoice for what an account owes, up to the cap, under an id of its own. */
    method NewInvoiceUsageRecord(id: string, maxCreditCentsCovered: int) returns (record: Option<Usage>)
      requires Valid()
      modifies this`clock
      ensures Valid() && Nanos(old(clock)) <= Nanos(clock)
      ensures record.None? <==> Owed(id) <= 0
      ensures record.Some? ==>
                && IsUnused(ledger, record.value.id)
                && record.value.attributionId == id && record.value.kind == InvoiceUsage && !record.value.draft
                && Owed(id) + record.value.creditCents == Covered(Owed(id), maxCreditCentsCovered)
    {
      var now := Now();
      var creditCents := GetBalance(id);
      if creditCents as real / 100.0 <= 0.0 {
        return None;
      }
      if maxCreditCentsCovered != 0 && creditCents > maxCreditCentsCovered {
        creditCents := maxCreditCentsCovered;
      }
      assert IsUnused(ledger, MaxId(ledger));
      var uuid: nat :| IsUnused(ledger, uuid);
      record := Some(Usage(uuid, id, "Credits", creditCents * -1, Set(now), InvoiceUsage, false));
    }

    /** Invoices what `id` owes up to the cap; entries are only ever added to the ledger. */
    method BalanceOutUsage(id: string, maxCreditCentsCovered: int)
      requires Valid()
      modifies this`clock, this`ledger
      ensures Valid() && Nanos(old(clock)) <= Nanos(clock)
      ensures Owed(id) == Covered(old(Owed(id)), maxCreditCentsCovered)
      ensures OthersOweTheSame(id) && old(ledger) <= ledger
    {
      var finalizationUsage := NewInvoiceUsageRecord(id, maxCreditCentsCovered);
      if finalizationUsage.Some? {
        ghost var replaced := UpdateUsage(finalizationUsage.value);
      }
    }

    // ----- Billing cycles

    /** Starts the next billing cycle of a record that has reached the end of its current one; a record
        without an end gets a cycle that starts now. */
    method IncrementBillingCycle(id: string) returns (r: Result<CostCenter>, ghost now: Time)
      requires Valid()
      modifies this`clock, this`centers, this`current
      ensures Valid() && now == clock && Nanos(old(clock)) <= Nanos(now) && Millis(old(clock)) <= Millis(now)
      ensures if id in old(current) then r.Ok? else r == Err(NotFound)
      ensures r.Ok? ==> r.value == if old(current)[id].RunsAt(now) then old(current)[id]
                                   else NextCycle(old(current)[id], now)
      ensures r.Ok? && !old(current)[id].RunsAt(now) ==>
                var before, start := old(current)[id], r.value.billingCycleStart;
                && r.value.id == before.id && r.value.spendingLimit == before.spendingLimit
                && r.value.billingStrategy == before.billingStrategy && r.value.creationTime == Set(now)
                && start == (if before.nextBillingTime.Set? then before.nextBillingTime else Set(now))
                && r.value.nextBillingTime == Set(AddMonth(start.Time()))
      ensures r.Ok? ==> Holds(id, r.value) && Keepable(cfg, clock, r.value)
      ensures r.Err? ==> current == old(current)
      ensures r.Ok? ==> current == old(current)[id := current[id]]
    {
      var found := GetCostCenter(id);
      if found.None? {
        return Err(NotFound), clock;
      }
      var cc := found.value;
      var running;
      running, now := IsRunning(cc);
      if running {
        UpdateWithItself(current, id);
        return Ok(cc), now;
      }
      var newCostCenter := SaveNextCycle(id, cc);
      r := Ok(newCostCenter);
    }

    method IsRunning(cc: CostCenter) returns (running: bool, ghost now: Time)
      requires Valid()
      modifies this`clock
      ensures Valid() && now == clock && Nanos(old(clock)) <= Nanos(now) && Millis(old(clock)) <= Millis(now)
      ensures running <==> cc.RunsAt(now)
    {
      var reading := Now();
      now := reading;
      running := Before(reading, cc.nextBillingTime.Time());
    }

    method SaveNextCycle(id: string, cc: CostCenter) returns (r: CostCenter)
      requires Valid() && cc.id == id && Keepable(cfg, clock, cc) && !cc.RunsAt(clock)
      modifies this`centers, this`current
      ensures Valid() && r == NextCycle(cc, clock)
      ensures Holds(id, r) && Keepable(cfg, clock, r)
      ensures current == old(current)[id := current[id]]
    {
      r := NextCycle(cc, clock);
      NextCycleIsKeepable(cfg, cc, clock);
      ClockIsNewest(cfg, clock, centers, id, clock);
      Save(r);
    }

    /** Resets a record at the end of its billing cycle: the next cycle starts exactly where the last one
        ended, and the spending limit is taken off what is owed. Stripe records are refused, records
        inside their cycle are returned as they are. */
    method ResetUsage(id: string) returns (r: Result<CostCenter>, ghost now: Time)
      requires Valid()
      modifies this
      ensures Valid() && Nanos(old(clock)) <= Nanos(now) <= Nanos(clock)
      ensures r.Err? <==> id !in old(current) || old(current)[id].billingStrategy == Stripe
      ensures r.Err? ==> r.error == if id !in old(current) then NotFound else ManagedByStripe
      ensures r.Ok? ==> Holds(id, r.value) && Keepable(cfg, clock, r.value)
      ensures r.Err? ==> current == old(current)
      ensures r.Ok? ==> current == old(current)[id := current[id]]
      ensures r.Ok? && old(current)[id].DueAt(now) ==>
                && Nanos(now) <= Nanos(r.value.creationTime.Time()) <= Nanos(clock)
                && r.value == NextCycle(old(current)[id], r.value.creationTime.Time())
                && Owed(id) == Covered(old(Owed(id)), CreditCents(r.value.spendingLimit))
      ensures r.Ok? && !old(current)[id].DueAt(now) ==> r.value == old(current)[id]
      ensures r.Err? || !old(current)[id].DueAt(now) ==> ledger == old(ledger)
      ensures OthersOweTheSame(id)
    {
      var found := GetCostCenter(id);
      if found.None? {
        return Err(NotFound), clock;
      }
      var cc := found.value;
      if cc.billingStrategy == Stripe {
        return Err(ManagedByStripe), clock;
      }
      var expired;
      expired, now := IsExpired(cc);
      if !expired {
        return Ok(cc), now;
      }
      var reset := ResetExpired(id, cc);
      r := Ok(reset);
    }

    /** The two steps of a reset, not atomic: increment the cycle, then invoice up to the limit. */
    method ResetExpired(id: string, cc: CostCenter) returns (r: CostCenter)
      requires Valid() && Holds(id, cc) && current[id] == cc && cc.DueAt(clock)
      modifies this
      ensures Valid() && Nanos(old(clock)) <= Nanos(r.creationTime.Time()) <= Nanos(clock)
      ensures Holds(id, r) && Keepable(cfg, clock, r) && r == NextCycle(cc, r.creationTime.Time())
      ensures Owed(id) == Covered(old(Owed(id)), CreditCents(r.spendingLimit))
      ensures current == old(current)[id := current[id]] && OthersOweTheSame(id)
    {
      var incremented;
      ghost var now;
      incremented, now := IncrementBillingCycle(id);
      r := incremented.value;
      BalanceOutUsage(id, CreditCents(r.spendingLimit));
    }

    method CreateCostCenter(id: string) returns (cc: CostCenter, ghost now: Time)
      requires Valid() && id !in current
      modifies this`clock, this`centers, this`current
      ensures Valid() && now == clock && Nanos(old(clock)) <= Nanos(now) && Millis(old(clock)) <= Millis(now)
      ensures cc == Created(cfg, id, now) && Holds(id, cc) && Keepable(cfg, clock, cc)
      ensures current == old(current)[id := current[id]]
    {
      var reading := Now();
      now := reading;
      cc := Created(cfg, id, reading);
      ClockIsNewest(cfg, clock, centers, id, reading);
      Save(cc);
    }

    /** What asking for a record comes to: a new one if there is none, the next cycle if the present one is
        over at `at`, and otherwise the record itself; `owed` is the balance after that. */
    twostate predicate Obtained(id: string, r: CostCenter, at: Time, owed: int)
      reads this
    {
      if id !in old(current) then
        r == Created(cfg, id, at) && owed == old(Owed(id))
      else if ResetDue(old(current)[id], at) then
        r == NextCycle(old(current)[id], r.creationTime.Time())
        && owed == Covered(old(Owed(id)), CreditCents(r.spendingLimit))
      else
        r == old(current)[id] && owed == old(Owed(id))
    }

    method ResetIfExpired(id: string, cc: CostCenter) returns (r: CostCenter, ghost at: Time)
      requires Valid() && Holds(id, cc) && Keepable(cfg, clock, cc) && current[id] == cc
      modifies this
      ensures Valid() && Nanos(old(clock)) <= Nanos(at) <= Nanos(clock)
      ensures Holds(id, r) && Keepable(cfg, clock, r)
      ensures current == old(current)[id := current[id]]
      ensures Obtained(id, r, at, Owed(id))
      ensures OthersOweTheSame(id)
    {
      at := clock;
      if cc.billingStrategy != Stripe {
        var expired;
        expired, at := IsExpired(cc);
        if expired {
          var reset;
          reset, at := ResetUsage(id);
          return reset.value, at;
        }
      }
      r := cc;
    }

    /** One more reset, and whether it had an effect. */
    method ResetOnceMore(id: string) returns (moved: bool, ghost now: Time)
      requires Valid() && id in current && current[id].billingStrategy != Stripe
      modifies this
      ensures Valid() && Nanos(old(clock)) <= Nanos(now) <= Nanos(clock)
      ensures moved <==> old(current[id]).DueAt(now)
      ensures id in current && current == old(current)[id := current[id]] && OthersOweTheSame(id)
      ensures !moved ==> current[id] == old(current[id]) && Owed(id) == old(Owed(id))
      ensures moved ==> WasReset(old(current[id]), current[id])
      ensures moved ==> AccountOf(current[id], Owed(id)) == ResetOnce(AccountOf(old(current[id]), old(Owed(id))))
    {
      CurrentIsWellKept(cfg, clock, centers, current, id);
      var found := GetCostCenter(id);
      var before := found.value;
      var r;
      r, now := ResetUsage(id);
      if before.DueAt(now) {
        ResetIsStored(before, r.value.creationTime.Time());
        ResetIsOneStep(before, old(Owed(id)), current[id], Owed(id));
        AddMonthIsLater(before.nextBillingTime.t);
      } else {
        UpdateWithItself(old(current), id);
      }
      moved := r.value.nextBillingTime != before.nextBillingTime;
    }

    /** Nothing has happened to the other records. */
    twostate predicate OthersStandStill(id: string)
      reads this
    {
      && current.Keys == old(current.Keys)
      && forall j :: j in current && j != id ==> current[j] == old(current)[j]
    }

    method ResetAlong(id: string, ghost a: Account, ghost k: nat, ghost at: Time)
      returns (moved: bool, ghost k': nat, ghost at': Time)
      requires Valid() && id in current && Along(current[id], Owed(id), a, k, at) && Nanos(at) <= Nanos(clock)
      modifies this
      ensures Valid() && Nanos(old(clock)) <= Nanos(at') <= Nanos(clock)
      ensures id in current && OthersStandStill(id) && OthersOweTheSame(id)
      ensures Along(current[id], Owed(id), a, k', at')
      ensures k' == if moved then k + 1 else k
      ensures !moved ==> !current[id].DueAt(at')
      ensures moved ==> old(current[id]).nextBillingTime.Set? && TimeLeft(current[id]) < TimeLeft(old(current[id]))
      ensures old(current[id]).nextBillingTime.Unset? ==> current[id].nextBillingTime.Unset?
    {
      moved, at' := ResetOnceMore(id);
      k' := if moved then k + 1 else k;
      if moved {
        AlongOnceMore(old(current[id]), old(Owed(id)), current[id], Owed(id), a, k, at, at');
        TimeRunsOut(old(current[id]), current[id], clock);
      }
    }

    method ResetToRest(id: string, ghost a: Account) returns (ghost k: nat, ghost at: Time)
      requires Valid() && id in current && Along(current[id], Owed(id), a, 0, clock)
      modifies this
      ensures Valid() && Nanos(old(clock)) <= Nanos(at) <= Nanos(clock)
      ensures id in current && OthersStandStill(id) && OthersOweTheSame(id)
      ensures Along(current[id], Owed(id), a, k, at) && !current[id].DueAt(at)
      ensures old(current[id]).nextBillingTime.Unset? ==> k == 0
    {
      ghost var set_ := current[id].nextBillingTime.Set?;
      k, at := 0, clock;
      var moved := true;
      while moved
        invariant Valid() && Nanos(old(clock)) <= Nanos(at) <= Nanos(clock)
        invariant id in current && OthersStandStill(id) && OthersOweTheSame(id)
        invariant Along(current[id], Owed(id), a, k, at)
        invariant !set_ ==> k == 0 && current[id].nextBillingTime.Unset?
        invariant !moved ==> !current[id].DueAt(at)
        decreases moved, TimeLeft(current[id])
      {
        moved, k, at := ResetAlong(id, a, k, at);
      }
    }

    /** Resets repeated until one has no effect. They come to rest after exactly the resets that the account has due at
        the last reading of the clock, and have done to the stored record and its balance what those do to the account:
        the cycles follow each other without a gap, and the limit has been taken off once for each. */
    method ResetRepeatedly(id: string) returns (r: Result<()>, ghost k: nat, ghost at: Time)
      requires Valid()
      modifies this
      ensures Valid() && Nanos(old(clock)) <= Nanos(at) <= Nanos(clock)
      ensures r.Err? <==> id !in old(current) || old(current)[id].billingStrategy == Stripe
      ensures r.Err? ==> current == old(current) && ledger == old(ledger)
      ensures OthersStandStill(id) && OthersOweTheSame(id)
      ensures r.Ok? ==> AccountOf(current[id], Owed(id)) == ResetTimes(AccountOf(old(current)[id], old(Owed(id))), k)
      ensures r.Ok? ==> !current[id].DueAt(at)
      ensures r.Ok? ==> k == if old(current)[id].nextBillingTime.Set?
                             then EffectiveResets(AccountOf(old(current)[id], old(Owed(id))), at) else 0
      ensures r.Ok? ==> Owed(id) == BalanceAfter(old(Owed(id)), old(current)[id].spendingLimit, k)
    {
      var found := GetCostCenter(id);
      if found.None? {
        return Err(NotFound), 0, clock;
      }
      if found.value.billingStrategy == Stripe {
        return Err(ManagedByStripe), 0, clock;
      }
      ghost var a := AccountOf(current[id], Owed(id));
      CurrentIsWellKept(cfg, clock, centers, current, id);
      k, at := ResetToRest(id, a);
      BalanceAfterResets(a, k);
      if old(current)[id].nextBillingTime.Set? {
        RestIsReached(current[id], Owed(id), a, k, at);
      }
      r := Ok(());
    }

    /** The record that counts, created with the default limit if there is none, and reset first if its
        cycle is over; `at` is the time at which that was decided. */
    method GetOrCreateCostCenter(id: string) returns (r: CostCenter, ghost at: Time)
      requires Valid()
      modifies this
      ensures Valid() && Nanos(old(clock)) <= Nanos(at) <= Nanos(clock)
      ensures Holds(id, r) && Keepable(cfg, clock, r)
      ensures current == old(current)[id := r.Stored()]
      ensures Obtained(id, r, at, Owed(id))
      ensures id !in old(current) ==>
                && r.id == id && r.billingStrategy == Other
                && r.spendingLimit == (if IsTeam(id) then cfg.forTeams else cfg.forUsers)
                && r.creationTime == r.billingCycleStart == Set(at) && r.nextBillingTime == Set(AddMonth(at))
      ensures OthersOweTheSame(id)
    {
      var result := GetCostCenter(id);
      if result.None? {
        r, at := CreateCostCenter(id);
      } else {
        r, at := ResetIfExpired(id, result.value);
      }
    }

    /** Changes a record. A negative limit is refused outright; the other refusals come after the record
        has been obtained, so they leave it created or reset all the same. `existing`, `at` and `owed`
        are what was obtained. */
    method UpdateCostCenter(newCC: CostCenter)
      returns (r: Result<CostCenter>, ghost existing: CostCenter, ghost at: Time, ghost owed: int)
      requires Valid()
      modifies this
      ensures Valid()
      ensures newCC.spendingLimit < 0 ==> current == old(current) && ledger == old(ledger)
      ensures newCC.spendingLimit >= 0 ==> Obtained(newCC.id, existing, at, owed)
      ensures newCC.spendingLimit >= 0 && r.Err? ==>
                current == old(current)[newCC.id := existing.Stored()] && Owed(newCC.id) == owed
      ensures r.Ok? ==>
                && current == old(current)[newCC.id := r.value.Stored()]
                && Owed(newCC.id) == if existing.billingStrategy != Stripe && newCC.billingStrategy == Stripe
                                     then Covered(owed, 0) else owed
      ensures r.Ok? && existing.billingStrategy != Stripe && newCC.billingStrategy == Stripe ==> Owed(newCC.id) <= 0
      ensures OthersOweTheSame(newCC.id)
      ensures r == Err(NegativeLimit) <==> newCC.spendingLimit < 0
      ensures r == Err(BelowMinimum) <==>
                0 <= newCC.spendingLimit < cfg.minForUsersOnStripe && IsUser(newCC.id) && newCC.billingStrategy == Stripe
      ensures r == Err(UnknownEntity) <==> newCC.spendingLimit >= 0 && !IsUser(newCC.id) && !IsTeam(newCC.id)
      ensures r.Err? ==> r.error in {NegativeLimit, BelowMinimum, UnknownEntity}
      ensures r.Ok? ==>
                && r.value.id == newCC.id && r.value.billingStrategy == newCC.billingStrategy
                && r.value.creationTime.Set? && Nanos(at) <= Nanos(r.value.creationTime.t) <= Nanos(clock)
      ensures r.Ok? && newCC.billingStrategy == Other && existing.billingStrategy != Other ==>
                r.value.spendingLimit == if IsUser(newCC.id) then cfg.forUsers else cfg.forTeams
      ensures r.Ok? && !(newCC.billingStrategy == Other && existing.billingStrategy != Other) ==>
                r.value.spendingLimit == newCC.spendingLimit
      ensures r.Ok? && newCC.billingStrategy in {Other, Stripe} && existing.billingStrategy != newCC.billingStrategy ==>
                && r.value.billingCycleStart == r.value.creationTime
                && r.value.nextBillingTime == Set(AddMonth(r.value.creationTime.t))
      ensures r.Ok? && !(newCC.billingStrategy in {Other, Stripe} && existing.billingStrategy != newCC.billingStrategy) ==>
                && r.value.billingCycleStart == existing.billingCycleStart
                && r.value.nextBillingTime == existing.nextBillingTime
    {
      if newCC.spendingLimit < 0 {
        return Err(NegativeLimit), newCC, clock, 0;
      }
      var existingCC;
      existingCC, at := GetOrCreateCostCenter(newCC.id);
      existing, owed := existingCC, Owed(newCC.id);
      r := UpdateExisting(newCC, existingCC);
      if r.Ok? {
        UpdateTwice(old(current), newCC.id, existingCC.Stored(), r.value.Stored());
      }
    }

    method UpdateExisting(newCC: CostCenter, existing: CostCenter) returns (r: Result<CostCenter>)
      requires Valid() && newCC.spendingLimit >= 0
      requires Holds(newCC.id, existing) && Keepable(cfg, clock, existing)
      modifies this
      ensures Valid()
      ensures r == Err(BelowMinimum) <==>
                IsUser(newCC.id) && newCC.billingStrategy == Stripe && newCC.spendingLimit < cfg.minForUsersOnStripe
      ensures r == Err(UnknownEntity) <==> !IsUser(newCC.id) && !IsTeam(newCC.id)
      ensures r.Err? ==> r.error in {BelowMinimum, UnknownEntity}
      ensures r.Ok? ==>
                && r.value.id == newCC.id && r.value.billingStrategy == newCC.billingStrategy
                && r.value.creationTime.Set? && Nanos(old(clock)) <= Nanos(r.value.creationTime.t) <= Nanos(clock)
      ensures r.Ok? && newCC.billingStrategy == Other && existing.billingStrategy != Other ==>
                r.value.spendingLimit == if IsUser(newCC.id) then cfg.forUsers else cfg.forTeams
      ensures r.Ok? && !(newCC.billingStrategy == Other && existing.billingStrategy != Other) ==>
                r.value.spendingLimit == newCC.spendingLimit
      ensures r.Ok? && newCC.billingStrategy in {Other, Stripe} && existing.billingStrategy != newCC.billingStrategy ==>
                && r.value.billingCycleStart == r.value.creationTime
                && r.value.nextBillingTime == Set(AddMonth(r.value.creationTime.t))
      ensures r.Ok? && !(newCC.billingStrategy in {Other, Stripe} && existing.billingStrategy != newCC.billingStrategy) ==>
                && r.value.billingCycleStart == existing.billingCycleStart
                && r.value.nextBillingTime == existing.nextBillingTime
      ensures r.Err? ==> current == old(current) && ledger == old(ledger)
      ensures r.Ok? ==>
                && current == old(current)[newCC.id := r.value.Stored()]
                && Owed(newCC.id) == if existing.billingStrategy != Stripe && newCC.billingStrategy == Stripe
                                     then Covered(old(Owed(newCC.id)), 0) else old(Owed(newCC.id))
      ensures OthersOweTheSame(newCC.id)
    {
      var now := Now();
      if IsUser(newCC.id) {
        if newCC.billingStrategy == Stripe && newCC.spendingLimit < cfg.minForUsersOnStripe {
          return Err(BelowMinimum);
        }
      } else if !IsTeam(newCC.id) {
        return Err(UnknownEntity);
      }
      ClockIsNewest(cfg, clock, centers, newCC.id, now);
      var cc := SaveUpdate(newCC, existing, now);
      r := Ok(cc);
    }

    /** The accepted part of an update: settle the account before it moves to Stripe, then save. */
    method SaveUpdate(newCC: CostCenter, existing: CostCenter, now: Time) returns (cc: CostCenter)
      requires Valid() && now == clock && Keepable(cfg, clock, existing)
      requires NoneNewer(centers, newCC.id, now)
      requires newCC.spendingLimit >= 0
      requires newCC.billingStrategy == Stripe && IsUser(newCC.id) ==> newCC.spendingLimit >= cfg.minForUsersOnStripe
      modifies this
      ensures Valid()
      ensures cc.id == newCC.id && cc.billingStrategy == newCC.billingStrategy
      ensures cc.creationTime == Set(now) && Nanos(now) <= Nanos(clock)
      ensures cc.spendingLimit == if newCC.billingStrategy == Other && existing.billingStrategy != Other
                                  then if IsUser(newCC.id) then cfg.forUsers else cfg.forTeams
                                  else newCC.spendingLimit
      ensures if newCC.billingStrategy in {Other, Stripe} && existing.billingStrategy != newCC.billingStrategy
              then cc.billingCycleStart == Set(now) && cc.nextBillingTime == Set(AddMonth(now))
              else cc.billingCycleStart == existing.billingCycleStart && cc.nextBillingTime == existing.nextBillingTime
      ensures current == old(current)[newCC.id := cc.Stored()]
      ensures Owed(newCC.id) == if existing.billingStrategy != Stripe && newCC.billingStrategy == Stripe
                                then Covered(old(Owed(newCC.id)), 0) else old(Owed(newCC.id))
      ensures OthersOweTheSame(newCC.id)
    {
      var defaultSpendingLimit := if IsUser(newCC.id) then cfg.forUsers else cfg.forTeams;
      cc := newCC.(creationTime := Set(now), billingCycleStart := existing.billingCycleStart,
                   nextBillingTime := existing.nextBillingTime);
      if existing.billingStrategy != Other && newCC.billingStrategy == Other {
        cc := cc.(spendingLimit := defaultSpendingLimit, billingCycleStart := Set(now),
                  nextBillingTime := Set(AddMonth(now)));
      }
      if existing.billingStrategy != Stripe && newCC.billingStrategy == Stripe {
        BalanceOutUsage(newCC.id, 0);
        cc := cc.(billingCycleStart := Set(now), nextBillingTime := Set(AddMonth(now)));
      }
      MillisFollowNanos(now, clock);
      AddMonthIsLater(now);
      EarlierYear(now, AddMonth(now));
      Save(cc);
    }

    // ----- The periodic reset

    /** The current records that are not managed by Stripe and whose cycle ended before the given time. */
    method ListManagedCostCentersWithBillingTimeBefore(before: Time) returns (results: set<CostCenter>)
      requires Valid() && before.year <= 9999
      ensures forall cc: CostCenter :: cc in results <==>
                && cc.id in current && current[cc.id] == cc
                && cc.billingStrategy != Stripe && cc.nextBillingTime.Set? && Millis(cc.nextBillingTime.t) < Millis(before)
    {
      var timestamp := TimeToISO8601(before);
      results := set key | key in centers && IsMax(centers, key)
                           && centers[key].billingStrategy != Stripe
                           && centers[key].nextBillingTime.String() != ""
                           && Less(centers[key].nextBillingTime.String(), timestamp) :: centers[key];
      forall cc | cc in results
        ensures cc.id in current && current[cc.id] == cc && ListedBefore(cc, before)
      {
        var key :| key in centers && IsMax(centers, key) && centers[key] == cc
                   && cc.billingStrategy != Stripe && cc.nextBillingTime.String() != ""
                   && Less(cc.nextBillingTime.String(), timestamp);
        assert WellKept(cfg, clock, key, cc);
        MaxIsLatest(centers, key);
        LatestIs(centers, current, key.id, key.creationTime);
        TimestampsSortLikeTimes(cc.nextBillingTime.t, before);
      }
      forall cc: CostCenter | cc.id in current && current[cc.id] == cc && ListedBefore(cc, before)
        ensures cc in results
      {
        CurrentHasAVersion(centers, current, cc.id);
        var c :| IsLatest(centers, cc.id, c);
        LatestIs(centers, current, cc.id, c);
        var key := Key(cc.id, c);
        assert WellKept(cfg, clock, key, cc);
        MaxIsLatest(centers, key);
        TimestampsSortLikeTimes(cc.nextBillingTime.t, before);
        TimestampIsNotEmpty(cc.nextBillingTime.t);
      }
    }

    method ResetListed(cc: CostCenter, ghost at: Time)
      requires Valid() && cc.id in current && current[cc.id] == cc
      requires ListedBefore(cc, at) && Nanos(at) <= Nanos(clock)
      modifies this
      ensures Valid() && Nanos(old(clock)) <= Nanos(clock)
      ensures cc.id in current && current == old(current)[cc.id := current[cc.id]] && WasReset(cc, current[cc.id])
      ensures Owed(cc.id) == Covered(old(Owed(cc.id)), CreditCents(cc.spendingLimit))
      ensures OthersOweTheSame(cc.id)
    {
      CurrentIsWellKept(cfg, clock, centers, current, cc.id);
      var r;
      ghost var resetAt;
      r, resetAt := ResetUsage(cc.id);
      ListedIsDue(cc, at, resetAt);
      ResetIsStored(cc, r.value.creationTime.Time());
    }

    /** How far a run of the reset job has come: the records in `done` have been reset, all others are as before. */
    ghost predicate Progress(before: map<string, CostCenter>, ledgerBefore: seq<Usage>, done: set<string>)
      reads this
    {
      && current.Keys == before.Keys
      && (forall id :: id in done && id in before ==>
            WasReset(before[id], current[id])
            && Owed(id) == Covered(Balance(ledgerBefore, id), CreditCents(before[id].spendingLimit)))
      && (forall id :: id !in done ==> Owed(id) == Balance(ledgerBefore, id))
      && (forall id :: id !in done && id in before ==> current[id] == before[id])
    }

    method ResetNext(cc: CostCenter, ghost at: Time, ghost before: map<string, CostCenter>,
                     ghost ledgerBefore: seq<Usage>, ghost done: set<string>)
      requires Valid() && Progress(before, ledgerBefore, done)
      requires cc.id in before && before[cc.id] == cc && cc.id !in done
      requires ListedBefore(cc, at) && Nanos(at) <= Nanos(clock)
      modifies this
      ensures Valid() && Nanos(old(clock)) <= Nanos(clock)
      ensures Progress(before, ledgerBefore, done + {cc.id})
    {
      ResetListed(cc, at);
    }

    /** One run of the reset job: every record listed at time `at` gets exactly one reset, however the list
        is ordered, and nothing happens to any other record. */
    method ResetAllExpired() returns (ghost at: Time, ghost done: set<string>)
      requires Valid()
      modifies this
      ensures Valid() && Nanos(old(clock)) <= Nanos(at) <= Nanos(clock)
      ensures forall id :: id in done <==>
                && id in old(current) && old(current)[id].billingStrategy != Stripe
                && old(current)[id].nextBillingTime.Set? && Millis(old(current)[id].nextBillingTime.t) < Millis(at)
      ensures Progress(old(current), old(ledger), done)
    {
      var now := Now();
      at, done := now, {};
      var todo := ListManagedCostCentersWithBillingTimeBefore(now);
      ghost var before := current;
      forall id | id in before
        ensures before[id].id == id
      {
        CurrentIsWellKept(cfg, clock, centers, current, id);
      }
      while todo != {}
        invariant Valid() && Nanos(at) <= Nanos(clock)
        invariant Progress(before, old(ledger), done)
        invariant forall cc: CostCenter :: cc in todo ==>
                    cc.id in before && before[cc.id] == cc && ListedBefore(cc, at) && cc.id !in done
        invariant forall id :: id in done ==> id in before && ListedBefore(before[id], at)
        invariant forall id :: id in before && ListedBefore(before[id], at) ==> id in done || before[id] in todo
      {
        var cc :| cc in todo;
        ResetNext(cc, at, before, old(ledger), done);
        todo, done := todo - {cc}, done + {cc.id};
      }
    }
  }
}
