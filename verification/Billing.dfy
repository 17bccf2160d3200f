/** The records of the billing tables and the queries over them. */
module Billing {
  import opened Timestamps
  import Strings
  import opened Wrappers

  datatype Error = NotFound | NegativeLimit | BelowMinimum | UnknownEntity | ManagedByStripe

  datatype Result<+T> = Ok(value: T) | Err(error: Error)

  type int32 = x: int | -0x8000_0000 <= x < 0x8000_0000

  datatype BillingStrategy = Stripe | Other | Unrecognized(name: string)

  /** A timestamp column: the empty string when not set. */
  datatype VarcharTime = Unset | Set(t: Time) {
    function Time(): Time {
      if Unset? then ZERO_TIME else t
    }

    function String(): string {
      if Unset? then "" else TimeToISO8601(t)
    }

    /** What is read back after the value has been written; the zero time reads as not set. */
    function Stored(): VarcharTime {
      if Unset? || Truncate(t) == ZERO_TIME then Unset else Set(Truncate(t))
    }
  }

  datatype CostCenter = CostCenter(
    id: string,
    creationTime: VarcharTime,
    spendingLimit: int32,
    billingStrategy: BillingStrategy,
    billingCycleStart: VarcharTime,
    nextBillingTime: VarcharTime)
  {
    function Stored(): CostCenter {
      this.(creationTime := creationTime.Stored(),
            billingCycleStart := billingCycleStart.Stored(),
            nextBillingTime := nextBillingTime.Stored())
    }

    predicate RunsAt(now: Time) {
      Before(now, nextBillingTime.Time())
    }

    predicate DueAt(now: Time) {
      nextBillingTime.Set? && Before(nextBillingTime.t, now)
    }
  }

  datatype DefaultSpendingLimit = DefaultSpendingLimit(forTeams: int32, forUsers: int32, minForUsersOnStripe: int32)

  // ----- Attribution ids

  function Entity(id: string): string {
    var tokens := Strings.Split(id, ':');
    if |tokens| == 2 then tokens[0] else ""
  }

  predicate IsUser(id: string) {
    Entity(id) == "user"
  }

  predicate IsTeam(id: string) {
    Entity(id) == "team"
  }

  ghost predicate HasKind(id: string, kind: string, rest: string) {
    id == kind + ":" + rest && Strings.Free(rest, ':')
  }

  /** An id is of a kind exactly if it is the kind, a colon, and anything without another colon. */
  lemma KindOfId(id: string, kind: string)
    requires kind != "" && Strings.Free(kind, ':')
    ensures Entity(id) == kind <==> exists rest :: HasKind(id, kind, rest)
  {
    if rest :| HasKind(id, kind, rest) {
      Strings.SplitAtFirst(kind, ':', rest);
      Strings.SplitPart(rest, ':');
    }
    if Entity(id) == kind {
      var tokens := Strings.Split(id, ':');
      Strings.JoinSplit(id, ':');
      assert tokens[1..] == [tokens[1]];
      assert HasKind(id, kind, tokens[1]);
    }
  }

  lemma UsersAndTeams(id: string)
    ensures IsUser(id) <==> exists rest :: HasKind(id, "user", rest)
    ensures IsTeam(id) <==> exists rest :: HasKind(id, "team", rest)
    ensures !(IsUser(id) && IsTeam(id))
  {
    KindOfId(id, "user");
    KindOfId(id, "team");
  }

  // ----- The cost center table: every version of every record, keyed by id and creation time

  datatype Key = Key(id: string, creationTime: string)

  type CostCenterTable = map<Key, CostCenter>

  ghost predicate IsLatest(table: CostCenterTable, id: string, c: string) {
    Key(id, c) in table && forall d :: Key(id, d) in table ==> d == c || Less(d, c)
  }

  ghost predicate HasLatest(table: CostCenterTable, id: string, row: CostCenter) {
    exists c :: IsLatest(table, id, c) && table[Key(id, c)] == row
  }

  /** The table stands for one current record per id: the version whose creation time string is greatest. */
  ghost predicate Refines(table: CostCenterTable, current: map<string, CostCenter>) {
    && (forall id, c {:trigger Key(id, c) in table} :: Key(id, c) in table ==> id in current)
    && (forall id {:trigger HasLatest(table, id, current[id])} :: id in current ==> HasLatest(table, id, current[id]))
  }

  /** `c` is the latest version of the record outside `todo`. */
  ghost predicate IsLatestBut(table: CostCenterTable, todo: set<Key>, id: string, c: string) {
    && Key(id, c) in table
    && forall d :: Key(id, d) in table && Key(id, d) !in todo ==> d == c || Less(d, c)
  }

  lemma LaterVersion(table: CostCenterTable, todo: set<Key>, id: string, c: string, d: string)
    requires IsLatestBut(table, todo, id, c) && Key(id, d) in table
    ensures Less(c, d) ==> IsLatestBut(table, todo - {Key(id, d)}, id, d)
    ensures !Less(c, d) ==> IsLatestBut(table, todo - {Key(id, d)}, id, c)
  {
    LessIsTotal(c, d);
    if Less(c, d) {
      forall e | Key(id, e) in table && Key(id, e) !in todo - {Key(id, d)}
        ensures e == d || Less(e, d)
      {
        if Less(e, c) {
          LessIsTransitive(e, c, d);
        }
      }
    }
  }

  lemma CurrentHasAVersion(table: CostCenterTable, current: map<string, CostCenter>, id: string)
    requires Refines(table, current) && id in current
    ensures exists c :: IsLatest(table, id, c)
  {
    assert HasLatest(table, id, current[id]);
  }

  lemma LatestIs(table: CostCenterTable, current: map<string, CostCenter>, id: string, c: string)
    requires Refines(table, current) && IsLatest(table, id, c)
    ensures id in current && current[id] == table[Key(id, c)]
  {
    assert HasLatest(table, id, current[id]);
    var d :| IsLatest(table, id, d) && table[Key(id, d)] == current[id];
    LessIsTotal(c, d);
  }

  lemma {:induction false} LessIsTransitive(a: string, b: string, c: string)
    requires Less(a, b) && Less(b, c)
    ensures Less(a, c)
  {
    if a != "" && a[0] == b[0] && b[0] == c[0] {
      LessIsTransitive(a[1..], b[1..], c[1..]);
    }
  }

  /** What every row of the table satisfies: it is filed under its own id and creation time, was created
      no later than `clock`, and respects the spending limits. */
  ghost predicate WellKept(cfg: DefaultSpendingLimit, clock: Time, key: Key, row: CostCenter) {
    && row.id == key.id
    && row.creationTime.Set? && 1970 <= row.creationTime.t.year <= 9999
    && key.creationTime == row.creationTime.String()
    && Millis(row.creationTime.t) <= Millis(clock)
    && row.Stored() == row
    && (row.nextBillingTime.Set? ==> 1970 <= row.nextBillingTime.t.year <= 9999)
    && row.spendingLimit >= 0
    && (row.billingStrategy == Stripe && IsUser(row.id) ==> row.spendingLimit >= cfg.minForUsersOnStripe)
  }

  /** The same for a record that is about to be stored. */
  ghost predicate Keepable(cfg: DefaultSpendingLimit, clock: Time, cc: CostCenter) {
    && cc.creationTime.Set? && 1970 <= cc.creationTime.t.year <= 9999
    && Millis(cc.creationTime.t) <= Millis(clock)
    && (cc.nextBillingTime.Set? ==> 1970 <= cc.nextBillingTime.t.year <= 9999)
    && cc.spendingLimit >= 0
    && (cc.billingStrategy == Stripe && IsUser(cc.id) ==> cc.spendingLimit >= cfg.minForUsersOnStripe)
  }

  lemma StoringIsStable(v: VarcharTime)
    ensures v.Stored().Stored() == v.Stored()
    ensures v.Set? && v.t.year >= 1970 ==> v.Stored() == Set(Truncate(v.t))
  {
    if v.Set? {
      TruncateKeepsMillis(v.t);
    }
  }

  lemma StoredIsWellKept(cfg: DefaultSpendingLimit, clock: Time, cc: CostCenter)
    requires Keepable(cfg, clock, cc)
    ensures cc.Stored().creationTime.String() == cc.creationTime.String()
    ensures WellKept(cfg, clock, Key(cc.id, cc.creationTime.String()), cc.Stored())
  {
    StoringIsStable(cc.creationTime);
    StoringIsStable(cc.billingCycleStart);
    StoringIsStable(cc.nextBillingTime);
    TruncateKeepsMillis(cc.creationTime.t);
    TimestampsSortLikeTimes(cc.creationTime.t, Truncate(cc.creationTime.t));
  }

  ghost predicate AllWellKept(cfg: DefaultSpendingLimit, clock: Time, table: CostCenterTable) {
    forall key {:trigger WellKept(cfg, clock, key, table[key])} :: key in table ==> WellKept(cfg, clock, key, table[key])
  }

  /** No version of the record is newer than `now`. */
  ghost predicate NoneNewer(table: CostCenterTable, id: string, now: Time) {
    forall c :: Key(id, c) in table ==> table[Key(id, c)].creationTime.Set? && Millis(table[Key(id, c)].creationTime.t) <= Millis(now)
  }

  lemma CurrentIsWellKept(cfg: DefaultSpendingLimit, clock: Time, table: CostCenterTable,
                          current: map<string, CostCenter>, id: string)
    requires AllWellKept(cfg, clock, table) && Refines(table, current) && id in current
    ensures current[id].id == id
    ensures WellKept(cfg, clock, Key(id, current[id].creationTime.String()), current[id])
  {
    CurrentHasAVersion(table, current, id);
    var c :| IsLatest(table, id, c);
    LatestIs(table, current, id, c);
    assert WellKept(cfg, clock, Key(id, c), table[Key(id, c)]);
  }

  lemma ClockMayAdvance(cfg: DefaultSpendingLimit, clock: Time, now: Time, table: CostCenterTable)
    requires AllWellKept(cfg, clock, table) && Millis(clock) <= Millis(now)
    ensures AllWellKept(cfg, now, table)
  {
    forall key | key in table
      ensures WellKept(cfg, now, key, table[key])
    {
      assert WellKept(cfg, clock, key, table[key]);
    }
  }

  lemma ClockIsNewest(cfg: DefaultSpendingLimit, clock: Time, table: CostCenterTable, id: string, now: Time)
    requires AllWellKept(cfg, clock, table) && Millis(clock) <= Millis(now)
    ensures NoneNewer(table, id, now)
  {
    forall c | Key(id, c) in table
      ensures table[Key(id, c)].creationTime.Set? && Millis(table[Key(id, c)].creationTime.t) <= Millis(now)
    {
      assert WellKept(cfg, clock, Key(id, c), table[Key(id, c)]);
    }
  }

  lemma SavedIsLatest(cfg: DefaultSpendingLimit, clock: Time, table: CostCenterTable, cc: CostCenter)
    requires AllWellKept(cfg, clock, table)
    requires cc.creationTime.Set? && cc.creationTime.t.year <= 9999
    requires NoneNewer(table, cc.id, cc.creationTime.t)
    ensures IsLatest(table[Key(cc.id, cc.creationTime.String()) := cc.Stored()], cc.id, cc.creationTime.String())
  {
    var c := cc.creationTime.String();
    forall d | Key(cc.id, d) in table && d != c
      ensures Less(d, c)
    {
      var row := table[Key(cc.id, d)];
      assert WellKept(cfg, clock, Key(cc.id, d), row);
      TimestampsSortLikeTimes(row.creationTime.t, cc.creationTime.t);
    }
  }

  lemma NewLatestRefines(table: CostCenterTable, current: map<string, CostCenter>, key: Key, row: CostCenter)
    requires Refines(table, current) && IsLatest(table[key := row], key.id, key.creationTime)
    ensures Refines(table[key := row], current[key.id := row])
  {
    var table', current' := table[key := row], current[key.id := row];
    forall id | id in current'
      ensures HasLatest(table', id, current'[id])
    {
      if id == key.id {
        assert Key(id, key.creationTime) == key;
      } else {
        assert HasLatest(table, id, current[id]);
        var c :| IsLatest(table, id, c) && table[Key(id, c)] == current[id];
        assert IsLatest(table', id, c);
      }
    }
  }

  /** Saving a record under the current time makes it the one that counts and touches no other record. */
  lemma SaveRefines(cfg: DefaultSpendingLimit, clock: Time, table: CostCenterTable,
                    current: map<string, CostCenter>, cc: CostCenter)
    requires AllWellKept(cfg, clock, table) && Refines(table, current)
    requires cc.creationTime.Set? && cc.creationTime.t.year <= 9999
    requires NoneNewer(table, cc.id, cc.creationTime.t)
    ensures Refines(table[Key(cc.id, cc.creationTime.String()) := cc.Stored()], current[cc.id := cc.Stored()])
  {
    SavedIsLatest(cfg, clock, table, cc);
    NewLatestRefines(table, current, Key(cc.id, cc.creationTime.String()), cc.Stored());
  }

  // ----- The usage ledger

  datatype UsageKind = WorkspaceInstanceUsage | InvoiceUsage | CreditNote

  datatype Usage = Usage(
    id: nat,
    attributionId: string,
    description: string,
    creditCents: int,
    effectiveTime: VarcharTime,
    kind: UsageKind,
    draft: bool)

  /** What an account owes: the sum over its ledger entries. */
  function Balance(ledger: seq<Usage>, id: string): int {
    if ledger == [] then 0
    else
      var last := ledger[|ledger| - 1];
      Balance(ledger[..|ledger| - 1], id) + (if last.attributionId == id then last.creditCents else 0)
  }

  function CreditCents(credits: int32): int {
    credits * 100
  }

  /** What is left of a balance after an invoice that covers at most `cap`; a cap of zero covers everything. */
  function Covered(balance: int, cap: int): int {
    if balance <= 0 then balance
    else if cap != 0 && balance > cap then balance - cap
    else 0
  }

  /** An invoice with a cap that is not negative never raises a balance, never drives a positive one
      below zero, and never touches one that is not positive. */
  lemma CoveredIsMonotone(balance: int, cap: nat)
    ensures Covered(balance, cap) <= balance
    ensures balance > 0 ==> 0 <= Covered(balance, cap) < balance
    ensures balance <= 0 ==> Covered(balance, cap) == balance
    ensures Covered(balance, 0) <= 0
  {
  }

  // ----- Repeated resets of one account at a fixed time

  datatype Account = Account(start: Time, next: Time, limit: nat, balance: int)

  predicate IsDue(a: Account, now: Time) {
    Before(a.next, now)
  }

  /** One effective reset: the new cycle starts where the old one ended and lasts a month, and the limit
      is taken off the balance. */
  function ResetOnce(a: Account): Account {
    Account(a.next, AddMonth(a.next), a.limit, Covered(a.balance, 100 * a.limit))
  }

  function ResetTimes(a: Account, k: nat): (r: Account)
    ensures r.limit == a.limit
  {
    if k == 0 then a else ResetOnce(ResetTimes(a, k - 1))
  }

  /** How many resets at time `now` have an effect. */
  function EffectiveResets(a: Account, now: Time): (k: nat)
    decreases Nanos(now) - Nanos(a.next)
  {
    if IsDue(a, now) then
      AddMonthIsLater(a.next);
      1 + EffectiveResets(ResetOnce(a), now)
    else 0
  }

  lemma {:induction false} ResetTimesShift(a: Account, k: nat)
    ensures ResetTimes(ResetOnce(a), k) == ResetTimes(a, k + 1)
  {
    if k > 0 {
      ResetTimesShift(a, k - 1);
    }
  }

  /** Whatever moves ahead by 28 to 31 with every month moves ahead accordingly with `k` resets. */
  lemma {:induction false} ResetsAdvanceBy(a: Account, k: nat, days: Time -> int)
    requires forall t :: days(t) + 28 <= days(AddMonth(t)) <= days(t) + 31
    ensures days(a.next) + 28 * k <= days(ResetTimes(a, k).next) <= days(a.next) + 31 * k
  {
    if k > 0 {
      ResetsAdvanceBy(a, k - 1, days);
      var t := ResetTimes(a, k - 1).next;
      assert days(t) + 28 <= days(AddMonth(t)) <= days(t) + 31;
    }
  }

  lemma ResetsAdvance(a: Account, k: nat)
    ensures DayNumber(a.next) + 28 * k <= DayNumber(ResetTimes(a, k).next) <= DayNumber(a.next) + 31 * k
  {
    var days := (t: Time) => DayNumber(t);
    forall t: Time
      ensures days(t) + 28 <= days(AddMonth(t)) <= days(t) + 31
    {
      AddMonthAdvances(t);
    }
    ResetsAdvanceBy(a, k, days);
  }

  lemma StillDue(a: Account, k: nat, now: Time)
    requires IsDue(a, now) && forall i: nat :: i < k ==> IsDue(ResetTimes(ResetOnce(a), i), now)
    ensures forall i: nat :: i < k + 1 ==> IsDue(ResetTimes(a, i), now)
  {
    forall i: nat | i < k + 1
      ensures IsDue(ResetTimes(a, i), now)
    {
      if i > 0 {
        ResetTimesShift(a, i - 1);
        assert IsDue(ResetTimes(ResetOnce(a), i - 1), now);
      }
    }
  }

  lemma {:induction false} NotDueAfterwards(a: Account, now: Time)
    ensures !IsDue(ResetTimes(a, EffectiveResets(a, now)), now)
    decreases Nanos(now) - Nanos(a.next)
  {
    if IsDue(a, now) {
      AddMonthIsLater(a.next);
      NotDueAfterwards(ResetOnce(a), now);
      ResetTimesShift(a, EffectiveResets(ResetOnce(a), now));
    }
  }

  lemma {:induction false} DueUntilThen(a: Account, now: Time)
    ensures forall i: nat :: i < EffectiveResets(a, now) ==> IsDue(ResetTimes(a, i), now)
    decreases Nanos(now) - Nanos(a.next)
  {
    if IsDue(a, now) {
      AddMonthIsLater(a.next);
      DueUntilThen(ResetOnce(a), now);
      StillDue(a, EffectiveResets(ResetOnce(a), now), now);
    }
  }

  /** Resetting over and over comes to rest: the first `EffectiveResets` resets all find the account due,
      and after them it is not due any more. */
  lemma ResetsComeToRest(a: Account, now: Time)
    ensures !IsDue(ResetTimes(a, EffectiveResets(a, now)), now)
    ensures forall i: nat :: i < EffectiveResets(a, now) ==> IsDue(ResetTimes(a, i), now)
  {
    NotDueAfterwards(a, now);
    DueUntilThen(a, now);
  }

  /** The number of effective resets is that of the months gone by. */
  lemma ResetsCountMonths(a: Account, now: Time)
    ensures var k := EffectiveResets(a, now);
            DayNumber(now) <= DayNumber(a.next) + 31 * k
            && (k > 0 ==> DayNumber(a.next) + 28 * (k - 1) <= DayNumber(now))
  {
    var k := EffectiveResets(a, now);
    ResetsComeToRest(a, now);
    ResetsAdvance(a, k);
    if k > 0 {
      assert IsDue(ResetTimes(a, k - 1), now);
      ResetsAdvance(a, k - 1);
    }
  }

  lemma EffectiveResetsAre(a: Account, now: Time, k: nat)
    requires forall i: nat :: i < k ==> IsDue(ResetTimes(a, i), now)
    requires !IsDue(ResetTimes(a, k), now)
    ensures k == EffectiveResets(a, now)
  {
    ResetsComeToRest(a, now);
  }

  function Max(a: int, b: int): int {
    if a < b then b else a
  }

  /** What is left of a balance after `k` times the limit has been taken off; without a limit the first time covers
      everything. */
  function BalanceAfter(balance: int, limit: int, k: nat): int {
    if balance <= 0 || k == 0 then balance
    else if limit == 0 then 0
    else Max(0, balance - k * (100 * limit))
  }

  /** That is what `k` effective resets leave when no new usage comes in. */
  lemma {:induction false} BalanceAfterResets(a: Account, k: nat)
    ensures ResetTimes(a, k).balance == BalanceAfter(a.balance, a.limit, k)
  {
    if k > 0 {
      BalanceAfterResets(a, k - 1);
      var c := 100 * a.limit;
      assert k * c == (k - 1) * c + c;
      assert c >= 0;
    }
  }
}
