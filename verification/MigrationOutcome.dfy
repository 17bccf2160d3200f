/** What becomes of a migrated user beside the rows: the attribution of future usage, and the role in the new team. */
module MigrationOutcome {
  import opened Migration

  // ----- What a call carries along by itself

  /** The record that a call works on: as loaded until the attribution is dealt with, and attributed to the new team from
      then on if it had no attribution or the user's own. */
  ghost predicate KeepsAttribution(call: Call) {
    && (BeforeCreating(call.pc) || 0 < Progress(call.pc) <= 6 ==> call.me.usageAttribution == call.loaded.usageAttribution)
    && (call.pc.Rechecking? ==> call.me == call.loaded)
    && (Progress(call.pc) >= 7 ==>
          call.me.usageAttribution ==
          if call.loaded.usageAttribution in {UserOwner(call.user), Nobody} then TeamOwner(call.team)
          else call.loaded.usageAttribution)
  }

  lemma EffectKeepsAttribution(db: Db, call: Call, pick: nat)
    requires call.user in db.users && KeepsAttribution(call)
    ensures KeepsAttribution(Effect(db, call, pick).1)
  {
  }

  lemma ActKeepsAttribution(db: Db, call: Call, answer: Answer, pick: nat)
    requires call.user in db.users && KeepsAttribution(call)
    ensures KeepsAttribution(Act(db, call, answer, pick).1)
  {
    EffectKeepsAttribution(db, call, pick);
  }

  lemma StepKeepsAttributions(s: State, s': State)
    requires Next(s, s') && forall c :: c in s.calls ==> KeepsAttribution(s.calls[c])
    ensures forall c :: c in s'.calls ==> KeepsAttribution(s'.calls[c])
  {
    var c :| StepOf(s, s', c);
    if answer, pick :| Query(s, s', c, answer, pick) {
      ActKeepsAttribution(s.db, s.calls[c], answer, pick);
    }
  }

  lemma {:induction false} CallsKeepAttributions(run: seq<State>, i: nat)
    requires IsRun(run) && i < |run|
    ensures forall c :: c in run[i].calls ==> KeepsAttribution(run[i].calls[c])
  {
    if i > 0 {
      CallsKeepAttributions(run, i - 1);
      assert Next(run[i - 1], run[i]);
      StepKeepsAttributions(run[i - 1], run[i]);
    }
  }

  /** In every run, whatever fails elsewhere: a call that has come through has given its user record the new team's
      attribution if the record it loaded had none or the user's own, and has left any other as it was. */
  lemma SuccessAttributesToTheTeam(run: seq<State>, i: nat, c: nat)
    requires IsRun(run) && i < |run|
    requires c in run[i].calls && run[i].calls[c].pc == Releasing(true)
    ensures var call := run[i].calls[c];
            call.me.usageAttribution ==
            if call.loaded.usageAttribution in {UserOwner(call.user), Nobody} then TeamOwner(call.team)
            else call.loaded.usageAttribution
  {
    CallsKeepAttributions(run, i);
  }

  // ----- The role in the team

  ghost predicate OwnsItsTeam(db: Db, call: Call) {
    Progress(call.pc) >= 2 ==> (call.user, call.team) in db.roles && db.roles[(call.user, call.team)] == TeamOwnerRole
  }

  lemma EffectKeepsOwner(db: Db, call: Call, pick: nat)
    requires call.user in db.users && OwnsItsTeam(db, call)
    ensures var (db', call') := Effect(db, call, pick); OwnsItsTeam(db', call')
  {
  }

  lemma ActKeepsOwner(db: Db, call: Call, answer: Answer, pick: nat)
    requires call.user in db.users && OwnsItsTeam(db, call)
    ensures var (db', call') := Act(db, call, answer, pick); OwnsItsTeam(db', call')
  {
    EffectKeepsOwner(db, call, pick);
  }

  lemma OtherCallOwns(db: Db, db': Db, u: nat, call: Call)
    requires ActsFor(db, db', u) && call.user != u && OwnsItsTeam(db, call)
    ensures OwnsItsTeam(db', call)
  {
  }

  lemma IdleQueryChangesNothing(db: Db, call: Call, answer: Answer, pick: nat)
    requires call.user in db.users && MayAct(call.pc) && !Critical(call.pc)
    ensures Act(db, call, answer, pick).0 == db
  {
  }

  lemma QueryKeepsOwners(s: State, s': State, c: nat, answer: Answer, pick: nat, d: nat)
    requires LocksAgree(s) && Query(s, s', c, answer, pick) && d in s.calls
    requires OwnsItsTeam(s.db, s.calls[d]) && OwnsItsTeam(s.db, s.calls[c])
    ensures OwnsItsTeam(s'.db, s'.calls[d])
  {
    if d == c {
      ActKeepsOwner(s.db, s.calls[c], answer, pick);
    } else if s.calls[d].user != s.calls[c].user {
      QueryActsFor(s, s', c, answer, pick);
      OtherCallOwns(s.db, s'.db, s.calls[c].user, s.calls[d]);
    } else if !Critical(s.calls[c].pc) {
      IdleQueryChangesNothing(s.db, s.calls[c], answer, pick);
    }
  }

  lemma StepKeepsOwners(s: State, s': State)
    requires LocksAgree(s) && Next(s, s') && forall c :: c in s.calls ==> OwnsItsTeam(s.db, s.calls[c])
    ensures forall c :: c in s'.calls ==> OwnsItsTeam(s'.db, s'.calls[c])
  {
    var c :| StepOf(s, s', c);
    if answer, pick :| Query(s, s', c, answer, pick) {
      forall d | d in s'.calls
        ensures OwnsItsTeam(s'.db, s'.calls[d])
      {
        QueryKeepsOwners(s, s', c, answer, pick, d);
      }
    }
  }

  lemma RunsKeepLocks(run: seq<State>, i: nat)
    requires IsRun(run) && i < |run|
    ensures LocksAgree(run[i])
  {
    RunsAreSafe(run, i);
  }

  lemma {:induction false} CallsKeepOwners(run: seq<State>, i: nat)
    requires IsRun(run) && i < |run|
    ensures forall c :: c in run[i].calls ==> OwnsItsTeam(run[i].db, run[i].calls[c])
  {
    if i > 0 {
      CallsKeepOwners(run, i - 1);
      RunsKeepLocks(run, i - 1);
      assert Next(run[i - 1], run[i]);
      StepKeepsOwners(run[i - 1], run[i]);
    }
  }

  /** And the user owns the team. */
  lemma SuccessMakesTheUserOwner(run: seq<State>, i: nat, c: nat)
    requires IsRun(run) && i < |run|
    requires c in run[i].calls && run[i].calls[c].pc == Releasing(true)
    ensures var m := (run[i].calls[c].user, run[i].calls[c].team); m in run[i].db.roles && run[i].db.roles[m] == TeamOwnerRole
  {
    CallsKeepOwners(run, i);
  }

  // ----- The stored record, in runs without errors

  ghost predicate AtRest(db0: Db, db: Db, u: nat) {
    && u in db0.users && u in db.users
    && var before, now := db0.users[u].usageAttribution, db.users[u].usageAttribution;
       || (NewTeams(db0, db, u) == {} && now == before)
       || (exists t :: NewTeams(db0, db, u) == {t}
                       && now == if before in {UserOwner(u), Nobody} then TeamOwner(t) else before)
  }

  /** Where the stored attribution of a user stands, by the query the holder of the lock is about to make. */
  ghost predicate AttributedAt(db0: Db, db: Db, u: nat, call: Call) {
    && u in db0.users && u in db.users
    && var before, now := db0.users[u].usageAttribution, db.users[u].usageAttribution;
       if call.pc.Marking? || call.pc.Creating? then
         NewTeams(db0, db, u) == {} && now == before == call.loaded.usageAttribution
       else if 0 < Progress(call.pc) <= 6 then
         NewTeams(db0, db, u) == {call.team} && now == before == call.loaded.usageAttribution
       else if Progress(call.pc) >= 7 then
         NewTeams(db0, db, u) == {call.team} && before == call.loaded.usageAttribution && now == call.me.usageAttribution
       else AtRest(db0, db, u)
  }

  ghost predicate Attributed(db0: Db, s: State, u: nat) {
    if u in s.locks && s.locks[u] in s.calls then AttributedAt(db0, s.db, u, s.calls[s.locks[u]]) else AtRest(db0, s.db, u)
  }

  lemma SameNewTeams(db0: Db, db: Db, db': Db, u: nat)
    requires db'.teams == db.teams
    ensures NewTeams(db0, db', u) == NewTeams(db0, db, u)
  {
  }

  lemma OneNewTeam(db0: Db, db: Db, u: nat, t: nat)
    requires NewTeams(db0, db, u) == {} && t !in db.teams && t !in db0.teams
    ensures NewTeams(db0, db.(teams := db.teams[t := u]), u) == {t}
  {
    var db' := db.(teams := db.teams[t := u]);
    forall x | x in NewTeams(db0, db', u)
      ensures x == t
    {
      assert x != t ==> x in NewTeams(db0, db, u);
    }
  }

  lemma CreatingAttributes(db0: Db, db: Db, call: Call, pick: nat)
    requires call.user in db.users && FreshPick(db, call.pc, pick) && call.pc.Creating?
    requires forall t :: t in db0.teams ==> t in db.teams
    requires StandsAt(db0, db, call.user, call) && KeepsAttribution(call) && AttributedAt(db0, db, call.user, call)
    ensures var (db', call') := Effect(db, call, pick); AttributedAt(db0, db', call.user, call')
  {
    OneNewTeam(db0, db, call.user, pick);
  }

  lemma EarlierAttributes(db0: Db, db: Db, call: Call, pick: nat)
    requires call.user in db.users && FreshPick(db, call.pc, pick) && (call.pc.Loading? || call.pc.Rechecking? || call.pc.Marking?)
    requires forall t :: t in db0.teams ==> t in db.teams
    requires StandsAt(db0, db, call.user, call) && KeepsAttribution(call) && AttributedAt(db0, db, call.user, call)
    ensures var (db', call') := Effect(db, call, pick); AttributedAt(db0, db', call.user, call')
  {
    var (db', call') := Effect(db, call, pick);
    SameNewTeams(db0, db, db', call.user);
  }

  lemma MiddleAttributes(db0: Db, db: Db, call: Call, pick: nat)
    requires call.user in db.users && FreshPick(db, call.pc, pick) && 0 < Progress(call.pc) < 6
    requires forall t :: t in db0.teams ==> t in db.teams
    requires StandsAt(db0, db, call.user, call) && KeepsAttribution(call) && AttributedAt(db0, db, call.user, call)
    ensures var (db', call') := Effect(db, call, pick); AttributedAt(db0, db', call.user, call')
  {
    var (db', call') := Effect(db, call, pick);
    SameNewTeams(db0, db, db', call.user);
  }

  lemma AttributingAttributes(db0: Db, db: Db, call: Call, pick: nat)
    requires call.user in db.users && FreshPick(db, call.pc, pick) && call.pc.Attributing?
    requires forall t :: t in db0.teams ==> t in db.teams
    requires StandsAt(db0, db, call.user, call) && KeepsAttribution(call) && AttributedAt(db0, db, call.user, call)
    ensures var (db', call') := Effect(db, call, pick); AttributedAt(db0, db', call.user, call')
  {
    var (db', call') := Effect(db, call, pick);
    SameNewTeams(db0, db, db', call.user);
  }

  lemma LaterAttributes(db0: Db, db: Db, call: Call, pick: nat)
    requires call.user in db.users && FreshPick(db, call.pc, pick) && Progress(call.pc) >= 7 && MayAct(call.pc)
    requires forall t :: t in db0.teams ==> t in db.teams
    requires StandsAt(db0, db, call.user, call) && KeepsAttribution(call) && AttributedAt(db0, db, call.user, call)
    ensures var (db', call') := Effect(db, call, pick); AttributedAt(db0, db', call.user, call')
  {
    var (db', call') := Effect(db, call, pick);
    SameNewTeams(db0, db, db', call.user);
  }

  lemma OwnQueryKeepsAttributed(db0: Db, db: Db, call: Call, answer: Answer, pick: nat)
    requires call.user in db.users && FreshPick(db, call.pc, pick) && GoesWell(call.pc, answer)
    requires forall t :: t in db0.teams ==> t in db.teams
    requires Critical(call.pc) && MayAct(call.pc) && StandsAt(db0, db, call.user, call)
    requires KeepsAttribution(call) && AttributedAt(db0, db, call.user, call)
    ensures var (db', call') := Act(db, call, answer, pick); AttributedAt(db0, db', call.user, call')
  {
    if answer == Fine {
      if call.pc.Creating? {
        CreatingAttributes(db0, db, call, pick);
      } else if Progress(call.pc) == 0 {
        EarlierAttributes(db0, db, call, pick);
      } else if Progress(call.pc) < 6 {
        MiddleAttributes(db0, db, call, pick);
      } else if call.pc.Attributing? {
        AttributingAttributes(db0, db, call, pick);
      } else {
        LaterAttributes(db0, db, call, pick);
      }
    }
  }

  lemma QueryKeepsAttributed(db0: Db, s: State, s': State, c: nat, answer: Answer, pick: nat, v: nat)
    requires Orderly(db0, s) && Safe(db0, s) && Query(s, s', c, answer, pick) && GoesWell(s.calls[c].pc, answer)
    requires KeepsAttribution(s.calls[c]) && v in s.db.users && Attributed(db0, s, v)
    ensures Attributed(db0, s', v)
  {
    var call := s.calls[c];
    assert UserStands(db0, s, v);
    QueryActsFor(s, s', c, answer, pick);
    if v != call.user {
      OthersStand(db0, s.db, s'.db, call.user, v);
    } else if Critical(call.pc) {
      OwnQueryKeepsAttributed(db0, s.db, call, answer, pick);
    }
  }

  lemma LockStepKeepsAttributed(db0: Db, s: State, s': State, c: nat, v: nat)
    requires LocksAgree(s) && (Acquire(s, s', c) || Release(s, s', c) || exists u, candidate :: Start(s, s', c, u, candidate))
    requires Attributed(db0, s, v) && (v in s.locks && s.locks[v] in s.calls ==> KeepsAttribution(s.calls[s.locks[v]]))
    ensures Attributed(db0, s', v)
  {
  }

  lemma StepKeepsAttributed(db0: Db, s: State, s': State)
    requires Orderly(db0, s) && Safe(db0, s) && NextWithoutError(s, s')
    requires forall c :: c in s.calls ==> KeepsAttribution(s.calls[c])
    requires forall v :: v in s.db.users ==> Attributed(db0, s, v)
    ensures forall v :: v in s'.db.users ==> Attributed(db0, s', v)
  {
    var c :| StepWithoutError(s, s', c);
    if answer, pick :| Query(s, s', c, answer, pick) && GoesWell(s.calls[c].pc, answer) {
      QueryActsFor(s, s', c, answer, pick);
      forall v | v in s'.db.users
        ensures Attributed(db0, s', v)
      {
        QueryKeepsAttributed(db0, s, s', c, answer, pick, v);
      }
    } else {
      if u, candidate :| StartInTime(s, s', c, u, candidate) {
        assert Start(s, s', c, u, candidate);
      }
      forall v | v in s'.db.users
        ensures Attributed(db0, s', v)
      {
        LockStepKeepsAttributed(db0, s, s', c, v);
      }
    }
  }

  lemma InitIsAttributed(s: State, v: nat)
    requires Init(s) && v in s.db.users
    ensures Attributed(s.db, s, v)
  {
  }

  /** What is known of a state of a run without errors. */
  lemma StateOfRun(run: seq<State>, i: nat)
    requires IsRunWithoutError(run) && i < |run|
    ensures Orderly(run[0].db, run[i]) && Safe(run[0].db, run[i])
    ensures forall c :: c in run[i].calls ==> KeepsAttribution(run[i].calls[c])
  {
    RunsWithoutErrorAreOrderly(run, i);
    RunsWithoutErrorAreRuns(run);
    CallsKeepAttributions(run, i);
  }

  lemma {:induction false} RunsKeepAttributed(run: seq<State>, i: nat)
    requires IsRunWithoutError(run) && i < |run|
    ensures forall v :: v in run[i].db.users ==> Attributed(run[0].db, run[i], v)
  {
    if i == 0 {
      forall v | v in run[0].db.users
        ensures Attributed(run[0].db, run[0], v)
      {
        InitIsAttributed(run[0], v);
      }
    } else {
      RunsKeepAttributed(run, i - 1);
      StateOfRun(run, i - 1);
      assert NextWithoutError(run[i - 1], run[i]);
      StepKeepsAttributed(run[0].db, run[i - 1], run[i]);
    }
  }

  /** Without errors, once a call has come through, the user's stored record is attributed to the new team if the user had
      no attribution or the own one at the start of the run, and as at the start otherwise. */
  lemma MigratedUserIsAttributed(run: seq<State>, i: nat, c: nat)
    requires IsRunWithoutError(run) && i < |run|
    requires c in run[i].calls && run[i].calls[c].pc == Releasing(true)
    ensures var u, t := run[i].calls[c].user, run[i].calls[c].team;
            && u in run[0].db.users && u in run[i].db.users
            && run[i].db.users[u].usageAttribution ==
               if run[0].db.users[u].usageAttribution in {UserOwner(u), Nobody} then TeamOwner(t)
               else run[0].db.users[u].usageAttribution
  {
    RunsWithoutErrorAreRuns(run);
    RunsWithoutErrorAreOrderly(run, i);
    RunsKeepAttributed(run, i);
    CallsKeepAttributions(run, i);
    var u := run[i].calls[c].user;
    assert Attributed(run[0].db, run[i], u);
  }

  /** And so it is for good: whenever nobody works on a user, either no team has been created and the attribution is the one
      at the start, or one has been, and the attribution is the team's if it was none or the user's own. */
  lemma AttributionAtRest(run: seq<State>, i: nat, u: nat)
    requires IsRunWithoutError(run) && i < |run| && u in run[i].db.users && u !in run[i].locks
    ensures u in run[0].db.users
    ensures var before, now := run[0].db.users[u].usageAttribution, run[i].db.users[u].usageAttribution;
            || (NewTeams(run[0].db, run[i].db, u) == {} && now == before)
            || (exists t :: NewTeams(run[0].db, run[i].db, u) == {t}
                            && now == if before in {UserOwner(u), Nobody} then TeamOwner(t) else before)
  {
    RunsKeepAttributed(run, i);
    assert Attributed(run[0].db, run[i], u);
  }

  // ----- After a failure

  /** Whatever goes wrong from the creation of the team on, a name that stays taken after ten tries among it, leads to
      undoing the mark; and so a call that has begun to migrate does not give back the lock before it has come through or
      has tried to undo. */
  lemma FailureLeadsToUndoing(s: State, s': State, c: nat, answer: Answer, pick: nat)
    requires Query(s, s', c, answer, pick) && (s.calls[c].pc.Creating? || Progress(s.calls[c].pc) > 0)
    ensures answer in {Fails, Lost} || (answer == Conflict && s.calls[c].pc.Creating? && s.calls[c].pc.tries >= 10) ==>
              s'.calls[c].pc == Unmarking
    ensures s'.calls[c].pc.Releasing? ==> s'.calls[c].pc == Releasing(true) && s.calls[c].pc == MovingCustomers
    ensures !s'.calls[c].pc.Done?
  {
  }

  /** A call that undoes the mark, if it can, leaves the user unmarked, so that the next call tries again. */
  lemma FailureUnmarks(s: State, s': State, c: nat, answer: Answer, pick: nat)
    requires Query(s, s', c, answer, pick) && s.calls[c].pc.Unmarking? && answer in {Fine, Lost}
    ensures !s'.db.users[s.calls[c].user].migrated && s'.calls[c].pc == Releasing(false)
    ensures NeedsMigration(s'.db, s.calls[c].user, s'.db.users[s.calls[c].user])
  {
  }
}
