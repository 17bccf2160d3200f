/** The migration of one user as it is carried out, query by query, by a call that shares its database with any number
    of others: every query turns out to be a step of the interleaved calls. */
module MigrationService {
  import opened Migration
  import opened Wrappers

  /** What a call does: a query, with the database and the call before and after; or a step at the lock. */
  datatype Event =
    | Asked(db: Db, call: Call, answer: Answer, pick: nat, db': Db, call': Call)
    | AtLock(call: Call, call': Call)

  ghost predicate IsQuery(e: Event) {
    && e.Asked? && e.call.user in e.db.users && MayAct(e.call.pc) && FreshPick(e.db, e.call.pc, e.pick)
    && Act(e.db, e.call, e.answer, e.pick) == (e.db', e.call')
  }

  /** A call that waits for the lock gets it or gives up waiting; one that is to release it gives it back. */
  ghost predicate IsLockStep(e: Event) {
    && e.AtLock?
    && ((e.call.pc.WantLock? && e.call' in {e.call.(pc := Loading), e.call.(pc := Done)})
        || (e.call.pc.Releasing? && e.call' == e.call.(pc := Done)))
  }

  ghost predicate IsTrace(first: Call, made: seq<Event>, last: Call) {
    && (forall i :: 0 <= i < |made| ==> IsQuery(made[i]) || IsLockStep(made[i]))
    && (forall i, j :: 0 <= i < j < |made| && j == i + 1 ==> made[i].call' == made[j].call)
    && (if made == [] then last == first else made[0].call == first && made[|made| - 1].call' == last)
  }

  /** A state in which the event can happen: the call has come as far, the database is as the query found it, and the
      lock is free if the call is given it. */
  ghost predicate IsStateFor(s: State, c: nat, e: Event) {
    && c in s.calls && s.calls[c] == e.call
    && (e.Asked? ==> s.db == e.db)
    && (e.AtLock? && e.call'.pc.Loading? ==> e.call.user !in s.locks)
  }

  /** All that a trace holds are steps of the state machine, whatever the other calls are. */
  lemma TracedEventIsAStep(first: Call, made: seq<Event>, last: Call, i: nat, s: State, c: nat) returns (s': State)
    requires IsTrace(first, made, last) && i < |made| && IsStateFor(s, c, made[i])
    ensures StepOf(s, s', c) && Next(s, s')
    ensures s'.calls == s.calls[c := made[i].call'] && s'.db == if made[i].Asked? then made[i].db' else s.db
  {
    var e := made[i];
    if IsQuery(e) {
      s' := s.(db := e.db', calls := s.calls[c := e.call']);
      assert Query(s, s', c, e.answer, e.pick);
    } else if e.call'.pc.Loading? {
      s' := s.(calls := s.calls[c := e.call'], locks := s.locks[e.call.user := c]);
      assert Acquire(s, s', c);
    } else if e.call.pc.WantLock? {
      s' := s.(calls := s.calls[c := e.call']);
      assert GiveUp(s, s', c);
    } else {
      s' := s.(calls := s.calls[c := e.call'], locks := s.locks - {e.call.user});
      assert Release(s, s', c);
    }
    assert StepOf(s, s', c);
  }

  lemma {:induction false} Unused(used: set<nat>) returns (id: nat)
    ensures forall k :: k in used ==> k < id
  {
    if used == {} {
      id := 0;
    } else {
      var k :| k in used;
      var rest := Unused(used - {k});
      id := if rest <= k then k + 1 else rest;
      forall j | j in used ensures j < id {
        assert j == k || j in used - {k};
      }
    }
  }

  lemma UnusedRow(rows: map<Row, Owner>, table: Table) returns (id: nat)
    ensures Row(table, id) !in rows
  {
    var ids := set r | r in rows :: r.id;
    id := Unused(ids);
    assert forall r :: r in rows ==> r.id in ids;
  }

  /** Where the call goes once the rows of a table have been moved. */
  ghost function AfterMoving(db: Db, call: Call, table: Table): Pc {
    match table
    case CostCenters => if Owned(db.rows, CostCenters, UserOwner(call.user)) == {} then InsertingCostCenter else MovingInstances
    case Instances => MovingUsage
    case Usage => MovingCustomers
    case _ => Releasing(true)
  }

  /** The point at which a call moves the rows of a table. */
  ghost predicate IsMoving(pc: Pc, table: Table) {
    match table
    case CostCenters => pc.MovingCostCenters?
    case Instances => pc.MovingInstances?
    case Usage => pc.MovingUsage?
    case Customers => pc.MovingCustomers?
    case Projects => false
  }

  lemma MovingNothing(rows: map<Row, Owner>, table: Table, from: Owner, to: Owner)
    requires forall r :: r in rows && r.table == table ==> rows[r] != from
    ensures Move(rows, table, from, to) == rows
  {
  }

  lemma MovingCostCentersIs(db: Db, call: Call)
    requires call.user in db.users && call.pc.MovingCostCenters?
    ensures Effect(db, call, 0) == (db.(rows := Move(db.rows, CostCenters, UserOwner(call.user), TeamOwner(call.team))),
                                    call.(pc := AfterMoving(db, call, CostCenters)))
  {
    var mine := UserOwner(call.user);
    var rows := Owned(db.rows, CostCenters, mine);
    if r :| r in db.rows && r.table == CostCenters && db.rows[r] == mine {
      assert r in rows;
    } else {
      MovingNothing(db.rows, CostCenters, mine, TeamOwner(call.team));
      assert rows == {};
    }
  }

  lemma MovingIs(db: Db, call: Call, table: Table, answer: Answer)
    requires call.user in db.users && IsMoving(call.pc, table) && answer != Conflict
    ensures Act(db, call, answer, 0) ==
              (if answer == Fails then db
               else db.(rows := Move(db.rows, table, UserOwner(call.user), TeamOwner(call.team))),
               call.(pc := if answer == Fine then AfterMoving(db, call, table) else Unmarking))
  {
    if table == CostCenters {
      MovingCostCentersIs(db, call);
    }
  }

  lemma CreatingIs(db: Db, call: Call, answer: Answer, id: nat)
    requires call.user in db.users && call.pc.Creating?
    ensures Act(db, call, answer, id).0 ==
              if answer == Fine || answer == Lost then db.(teams := db.teams[id := call.user]) else db
    ensures Act(db, call, answer, id).1 ==
              match answer
              case Fine => call.(pc := Joining, team := id)
              case Conflict => call.(pc := if call.pc.tries < MAX_TRIES then Creating(call.pc.tries + 1) else Unmarking)
              case _ => call.(pc := Unmarking, team := id)
  {
  }

  lemma InsertingIs(db: Db, call: Call, answer: Answer, id: nat)
    requires call.user in db.users && call.pc.InsertingCostCenter? && answer != Conflict
    ensures Act(db, call, answer, id) ==
              (if answer == Fails then db else db.(rows := db.rows[Row(CostCenters, id) := TeamOwner(call.team)]),
               call.(pc := if answer == Fine then MovingInstances else Unmarking))
  {
  }

  lemma ExtendTrace(first: Call, made: seq<Event>, e: Event)
    requires IsTrace(first, made, e.call) && (IsQuery(e) || IsLockStep(e))
    ensures IsTrace(first, made + [e], e.call')
  {
    var more := made + [e];
    forall i, j | 0 <= i < j < |more| && j == i + 1 ensures more[i].call' == more[j].call {
      assert j < |made| ==> made[i].call' == made[j].call;
    }
    forall i | 0 <= i < |more| ensures IsQuery(more[i]) || IsLockStep(more[i]) {
      assert i < |made| ==> IsQuery(made[i]) || IsLockStep(made[i]);
    }
  }

  class UserToTeamMigrationService {
    var db: Db
    /** The call under way, as the state machine sees it, and all it has done since it began. */
    ghost var first: Call
    ghost var call: Call
    ghost var made: seq<Event>

    ghost predicate Valid()
      reads this
    {
      call.user in db.users && call.user == first.user && IsTrace(first, made, call)
    }

    /** Others change the database between any two queries of a call. */
    method Interfere()
      requires Valid()
      modifies this`db
      ensures Valid()
    {
      var before := db;
      db := *;
      if !(forall u :: u in before.users ==> u in db.users) {
        db := before;
      }
    }

    /** The database's answer to a query that cannot conflict. */
    method Answered() returns (answer: Answer)
      ensures answer != Conflict
    {
      answer := *;
      if answer == Conflict {
        answer := Fails;
      }
    }

    /** Puts a query that has been made on record. */
    ghost method Record(before: Db, answer: Answer, pick: nat)
      requires call.user in before.users && call.user == first.user && IsTrace(first, made, call)
      requires MayAct(call.pc) && FreshPick(before, call.pc, pick)
      requires Act(before, call, answer, pick).0 == db && call.user in db.users
      requires Act(before, call, answer, pick).1.user == call.user
      modifies this`call, this`made
      ensures Valid() && call == Act(before, old(call), answer, pick).1
      ensures made != [] && made[|made| - 1].call == old(call)
    {
      var call' := Act(before, call, answer, pick).1;
      ExtendTrace(first, made, Asked(before, call, answer, pick, db, call'));
      made := made + [Asked(before, call, answer, pick, db, call')];
      call := call';
    }

    /** Puts on record that the call has got the lock, has given up waiting for it, or has given it back. */
    ghost method MoveOn(next: Pc)
      requires Valid() && IsLockStep(AtLock(call, call.(pc := next)))
      modifies this`call, this`made
      ensures Valid() && call == old(call).(pc := next) && made == old(made) + [AtLock(old(call), call)]
    {
      var e := AtLock(call, call.(pc := next));
      ExtendTrace(first, made, e);
      call, made := e.call', made + [e];
    }

    method NeedsMigration(u: nat, user: User) returns (r: Option<bool>)
      requires Valid() && u == call.user
      requires (call.pc.QuickCheck? && user == call.candidate) || (call.pc.Rechecking? && user == call.me)
      modifies this
      ensures Valid() && first == old(first) && made != [] && made[|made| - 1].call == old(call)
      ensures r.None? ==> call.pc == AfterError(old(call).pc)
      ensures old(call).pc.QuickCheck? && r.Some? ==> call == old(call).(pc := if r.value then WantLock else Done)
      ensures old(call).pc.Rechecking? && r.Some? ==>
                call == if r.value then old(call).(pc := Marking, me := user.(migrated := true))
                        else old(call).(pc := Releasing(false))
    {
      Interfere();
      var answer := Answered();
      r := if answer == Fine then Some(Migration.NeedsMigration(db, u, user)) else None;
      Record(db, answer, 0);
    }

    method FindUserById(u: nat) returns (r: Option<User>)
      requires Valid() && u == call.user && call.pc.Loading?
      modifies this
      ensures Valid() && first == old(first)
      ensures r.None? ==> call.pc == AfterError(Loading)
      ensures r.Some? ==> call.pc == Rechecking && call.me == call.loaded == r.value
      ensures call.user == old(call).user && call.candidate == old(call).candidate
    {
      Interfere();
      var answer := Answered();
      r := if answer == Fine then Some(db.users[u]) else None;
      Record(db, answer, 0);
    }

    /** The record that the call means to store at this point. */
    ghost predicate MeansToStore(user: User)
      reads this
    {
      match call.pc
      case Marking => user == call.me
      case Attributing => OwnAttribution(call.user, call.me) && user == call.me.(usageAttribution := TeamOwner(call.team))
      case Unmarking => user == call.me.(migrated := false)
      case _ => false
    }

    static predicate OwnAttribution(u: nat, user: User) {
      user.usageAttribution == UserOwner(u) || user.usageAttribution == Nobody
    }

    method StoreUser(u: nat, user: User) returns (ok: bool)
      requires Valid() && u == call.user && MeansToStore(user)
      modifies this
      ensures Valid() && first == old(first)
      ensures !ok ==> call.pc == AfterError(old(call).pc)
      ensures ok ==> call.pc == match old(call).pc
                                case Marking => Creating(1)
                                case Attributing => MovingCostCenters
                                case _ => Releasing(false)
      ensures call == old(call).(pc := call.pc, me := call.me) && (ok || old(call).pc.Attributing? ==> call.me == user)
    {
      Interfere();
      var answer := Answered();
      var before := db;
      if answer != Fails {
        db := db.(users := db.users[u := user]);
      }
      ok := answer == Fine;
      Record(before, answer, 0);
    }

    /** The row of a new team, under an id of its own, unless its name is taken. */
    method StoreTeam(u: nat) returns (id: nat, answer: Answer)
      requires Valid() && u == call.user && call.pc.Creating?
      modifies this
      ensures Valid() && first == old(first)
      ensures answer == Fine ==> call == old(call).(pc := Joining, team := id)
      ensures answer != Fine ==> call == old(call).(pc := call.pc, team := call.team)
      ensures answer == Conflict ==> call.pc == if old(call).pc.tries < MAX_TRIES then Creating(old(call).pc.tries + 1) else Unmarking
      ensures answer == Fails || answer == Lost ==> call.pc == Unmarking
    {
      Interfere();
      ghost var unused := Unused(db.teams.Keys);
      assert unused !in db.teams;
      id :| id !in db.teams;
      answer := *;
      var before := db;
      if answer == Fine || answer == Lost {
        db := db.(teams := db.teams[id := u]);
      }
      CreatingIs(before, call, answer, id);
      Record(before, answer, id);
    }

    method StoreMembership(u: nat, id: nat) returns (ok: bool)
      requires Valid() && u == call.user && id == call.team && call.pc.Joining?
      modifies this
      ensures Valid() && first == old(first) && call == old(call).(pc := if ok then AddingMember else Unmarking)
    {
      Interfere();
      var answer := Answered();
      var before := db;
      if answer != Fails {
        db := db.(roles := db.roles[(u, id) := TeamOwnerRole]);
      }
      ok := answer == Fine;
      Record(before, answer, 0);
    }

    /** A team and the membership of the user it is created for: two rows, one after the other. */
    method CreateTeam(u: nat) returns (t: Option<nat>, conflict: bool)
      requires Valid() && u == call.user && call.pc.Creating?
      modifies this
      ensures Valid() && first == old(first) && call == old(call).(pc := call.pc, team := call.team)
      ensures t.Some? ==> !conflict && call.pc == AddingMember && call.team == t.value
      ensures t.None? ==> call.pc == if conflict && old(call).pc.tries < MAX_TRIES then Creating(old(call).pc.tries + 1) else Unmarking
    {
      var id, answer := StoreTeam(u);
      if answer != Fine {
        return None, answer == Conflict;
      }
      var stored := StoreMembership(u, id);
      return if stored then Some(id) else None, false;
    }

    method AddMemberToTeam(u: nat, t: nat) returns (ok: bool)
      requires Valid() && u == call.user && t == call.team && call.pc.AddingMember?
      modifies this
      ensures Valid() && first == old(first) && call == old(call).(pc := call.pc)
      ensures call.pc == if ok then SettingRole else Unmarking
    {
      Interfere();
      var answer := Answered();
      var before := db;
      if answer != Fails && (u, t) !in db.roles {
        db := db.(roles := db.roles[(u, t) := Member]);
      }
      ok := answer == Fine;
      Record(before, answer, 0);
    }

    method SetTeamMemberRole(u: nat, t: nat, role: Role) returns (ok: bool)
      requires Valid() && u == call.user && t == call.team && call.pc.SettingRole? && role == TeamOwnerRole
      modifies this
      ensures Valid() && first == old(first) && call == old(call).(pc := call.pc)
      ensures call.pc == if ok then FindingProjects else Unmarking
    {
      Interfere();
      var answer := Answered();
      var before := db;
      if answer != Fails {
        db := db.(roles := db.roles[(u, t) := role]);
      }
      ok := answer == Fine;
      Record(before, answer, 0);
    }

    method FindUserProjects(u: nat) returns (projects: Option<set<Row>>)
      requires Valid() && u == call.user && call.pc.FindingProjects?
      modifies this
      ensures Valid() && first == old(first) && call == old(call).(pc := call.pc)
      ensures call.pc == if projects.Some? then StoringProjects(projects.value) else Unmarking
      ensures projects.Some? ==> forall p :: p in projects.value ==> p.table == Projects
    {
      Interfere();
      var answer := Answered();
      projects := if answer == Fine then Some(LiveProjects(db, u)) else None;
      Record(db, answer, 0);
    }

    method StoreProject(p: Row, t: nat) returns (ok: bool)
      requires Valid() && t == call.team && call.pc.StoringProjects? && p in call.pc.todo && p.table == Projects
      modifies this
      ensures Valid() && first == old(first) && call == old(call).(pc := call.pc)
      ensures call.pc == if ok then StoringProjects(old(call).pc.todo - {p}) else Unmarking
    {
      Interfere();
      var answer := Answered();
      var before := db;
      if answer != Fails {
        db := db.(rows := db.rows[p := TeamOwner(t)]);
      }
      ok := answer == Fine;
      assert p == Row(Projects, p.id);
      Record(before, answer, p.id);
    }

    /** An UPDATE statement; returns the number of rows affected. */
    method UpdateOwner(table: Table, to: Owner, from: Owner) returns (affected: Option<nat>)
      requires Valid() && IsMoving(call.pc, table) && from == UserOwner(call.user) && to == TeamOwner(call.team)
      modifies this
      ensures Valid() && first == old(first) && call == old(call).(pc := call.pc)
      ensures call.pc == if affected.None? then Unmarking
                         else match table
                              case CostCenters => if affected.value == 0 then InsertingCostCenter else MovingInstances
                              case Instances => MovingUsage
                              case Usage => MovingCustomers
                              case _ => Releasing(true)
    {
      Interfere();
      var answer := Answered();
      var before := db;
      var rows := set r | r in db.rows && r.table == table && db.rows[r] == from;
      assert rows == Owned(db.rows, table, from);
      MovingIs(db, call, table, answer);
      if answer != Fails {
        db := db.(rows := Move(db.rows, table, from, to));
      }
      affected := if answer == Fine then Some(|rows|) else None;
      Record(before, answer, 0);
    }

    method InsertCostCenter(owner: Owner) returns (ok: bool)
      requires Valid() && call.pc.InsertingCostCenter? && owner == TeamOwner(call.team)
      modifies this
      ensures Valid() && first == old(first) && call == old(call).(pc := call.pc)
      ensures call.pc == if ok then MovingInstances else Unmarking
    {
      Interfere();
      ghost var unused := UnusedRow(db.rows, CostCenters);
      var id: nat :| Row(CostCenters, id) !in db.rows;
      var answer := Answered();
      var before := db;
      if answer != Fails {
        db := db.(rows := db.rows[Row(CostCenters, id) := owner]);
      }
      ok := answer == Fine;
      InsertingIs(before, call, answer, id);
      Record(before, answer, id);
    }

    // ----- The migration itself

    /** Tries ten names; whatever else fails ends the migration. */
    method CreateTeamOfOne(u: nat) returns (team: Option<nat>)
      requires Valid() && u == call.user && call.pc == Creating(1)
      modifies this
      ensures Valid() && first == old(first) && call == old(call).(pc := call.pc, team := call.team)
      ensures if team.Some? then call.pc == AddingMember && call.team == team.value else call.pc == Unmarking
    {
      team := None;
      var tries := 0;
      while team.None? && tries < 10
        invariant Valid() && first == old(first) && call == old(call).(pc := call.pc, team := call.team)
        invariant tries <= 10
        invariant if team.Some? then call.pc == AddingMember && call.team == team.value
                  else call.pc == if tries < 10 then Creating(tries + 1) else Unmarking
        decreases 10 - tries
      {
        tries := tries + 1;
        var conflict;
        team, conflict := CreateTeam(u);
        if team.None? && !conflict {
          return None;
        }
      }
    }

    method StoreProjects(u: nat, t: nat) returns (ok: bool)
      requires Valid() && u == call.user && t == call.team && call.pc.FindingProjects?
      modifies this
      ensures Valid() && first == old(first) && call == old(call).(pc := call.pc)
      ensures call.pc == if ok then Attributing else Unmarking
    {
      var projects := FindUserProjects(u);
      if projects.None? {
        return false;
      }
      var todo := projects.value;
      while todo != {}
        invariant Valid() && first == old(first) && call == old(call).(pc := StoringProjects(todo))
        invariant forall p :: p in todo ==> p.table == Projects
      {
        var p :| p in todo;
        var stored := StoreProject(p, t);
        if !stored {
          return false;
        }
        todo := todo - {p};
      }
      Record(db, Fine, 0);
      return true;
    }

    /** The user record is changed on the way, and only if it has no attribution but the user's own. */
    method MoveAttribution(u: nat, t: nat, user: User) returns (ok: bool, user': User)
      requires Valid() && u == call.user && t == call.team && user == call.me && call.pc.Attributing?
      modifies this
      ensures Valid() && first == old(first) && call == old(call).(pc := call.pc, me := user')
      ensures call.pc == if ok then MovingCostCenters else Unmarking
      ensures user'.usageAttribution ==
                if user.usageAttribution == UserOwner(u) || user.usageAttribution == Nobody then TeamOwner(t) else user.usageAttribution
      ensures user'.migrated == user.migrated
    {
      user' := user;
      if OwnAttribution(u, user) {
        user' := user.(usageAttribution := TeamOwner(t));
        ok := StoreUser(u, user');
      } else {
        Record(db, Fine, 0);
        ok := true;
      }
    }

    method MoveRows(u: nat, t: nat) returns (ok: bool)
      requires Valid() && u == call.user && t == call.team && call.pc.MovingCostCenters?
      modifies this
      ensures Valid() && first == old(first) && call == old(call).(pc := call.pc)
      ensures call.pc == if ok then Releasing(true) else Unmarking
    {
      var oldAttribution, newAttribution := UserOwner(u), TeamOwner(t);
      var result := UpdateOwner(CostCenters, newAttribution, oldAttribution);
      if result.None? {
        return false;
      }
      if result.value == 0 {
        var inserted := InsertCostCenter(newAttribution);
        if !inserted {
          return false;
        }
      }
      result := UpdateOwner(Instances, newAttribution, oldAttribution);
      if result.None? {
        return false;
      }
      result := UpdateOwner(Usage, newAttribution, oldAttribution);
      if result.None? {
        return false;
      }
      result := UpdateOwner(Customers, newAttribution, oldAttribution);
      return result.Some?;
    }

    method InternalMigrateUser(u: nat, user: User) returns (ok: bool, user': User)
      requires Valid() && u == call.user && user == call.me && call.pc == Creating(1)
      modifies this
      ensures Valid() && first == old(first) && call == old(call).(pc := call.pc, team := call.team, me := user')
      ensures call.pc == if ok then Releasing(true) else Unmarking
      ensures user'.migrated == user.migrated
      ensures ok && user.usageAttribution in {UserOwner(u), Nobody} ==> user'.usageAttribution == TeamOwner(call.team)
      ensures ok && user.usageAttribution !in {UserOwner(u), Nobody} ==> user'.usageAttribution == user.usageAttribution
    {
      user' := user;
      var team := CreateTeamOfOne(u);
      if team.None? {
        return false, user';
      }
      var t := team.value;
      ok := AddMemberToTeam(u, t);
      if !ok {
        return;
      }
      ok := SetTeamMemberRole(u, t, TeamOwnerRole);
      if !ok {
        return;
      }
      ok := StoreProjects(u, t);
      if !ok {
        return;
      }
      ok, user' := MoveAttribution(u, t, user);
      if !ok {
        return;
      }
      ok := MoveRows(u, t);
    }

    /** What is returned for a call that came through: the user as loaded, marked as migrated, and attributed to the new
        team if the user had no attribution or the own one. */
    ghost predicate IsMigrated(r: Option<User>, done: Call) {
      && r == Some(done.me) && done.me.migrated
      && (done.loaded.usageAttribution in {UserOwner(done.user), Nobody} ==> done.me.usageAttribution == TeamOwner(done.team))
      && (done.loaded.usageAttribution !in {UserOwner(done.user), Nobody} ==>
            done.me.usageAttribution == done.loaded.usageAttribution)
    }

    /** The synchronized part, under the lock; throws if it fails outside the migration itself. */
    method MigrateUnderLock(u: nat) returns (r: Option<User>)
      requires Valid() && u == call.user && call.pc.Loading?
      modifies this
      ensures Valid() && first == old(first) && call.user == u && call.pc.Releasing?
      ensures call.pc == Releasing(true) ==> IsMigrated(r, call)
    {
      var found := FindUserById(u);
      if found.None? {
        return None;
      }
      var user := found.value;
      var needed := NeedsMigration(u, user);
      if needed.None? {
        return None;
      }
      if !needed.value {
        return Some(user);
      }
      user := user.(migrated := true);
      var stored := StoreUser(u, user);
      if !stored {
        return None;
      }
      var migrated;
      migrated, user := InternalMigrateUser(u, user);
      if !migrated {
        user := user.(migrated := false);
        stored := StoreUser(u, user);
        if !stored {
          return None;
        }
      }
      return Some(user);
    }

    /** A call for a user. All it does to the database, whatever others do meanwhile and wherever it fails, is a sequence
        of steps that the state machine allows it, from the first check to the end. */
    method MigrateUser(u: nat, candidate: User) returns (r: Option<User>)
      requires u in db.users
      modifies this
      ensures Valid() && first == Call(u, candidate, QuickCheck, candidate, 0, {}, candidate) && call.pc.Done?
      ensures made != [] && IsTrace(first, made, call)
      ensures var last := made[|made| - 1].call; last.pc == Releasing(true) ==> IsMigrated(r, last)
    {
      first := Call(u, candidate, QuickCheck, candidate, 0, {}, candidate);
      call, made := first, [];
      var needed := NeedsMigration(u, candidate);
      if needed.None? {
        return None;
      }
      if !needed.value {
        return Some(candidate);
      }
      r := Synchronized(u);
    }

    /** Waits for the lock, perhaps in vain, and gives it back in the end. */
    method Synchronized(u: nat) returns (r: Option<User>)
      requires Valid() && u == call.user && call.pc.WantLock?
      modifies this
      ensures Valid() && first == old(first) && call.pc.Done? && made != []
      ensures var last := made[|made| - 1].call; last.pc == Releasing(true) ==> IsMigrated(r, last)
    {
      var locked: bool := *;
      if !locked {
        MoveOn(Done);
        return None;
      }
      MoveOn(Loading);
      r := MigrateUnderLock(u);
      MoveOn(Done);
    }
  }
}
