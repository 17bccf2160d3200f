/** Moving users to teams of their own: any number of calls for any number of users, each a sequence of
    database queries, interleaved in any order. A lock per user guards the part that moves data; nothing
    else makes the queries atomic, and any of them may fail. */
module Migration {

  // ----- The database

  /** Whom a row is attributed to. */
  datatype Owner = Nobody | UserOwner(user: nat) | TeamOwner(team: nat)

  datatype Table = Projects | CostCenters | Instances | Usage | Customers

  datatype Row = Row(table: Table, id: nat)

  datatype User = User(usageAttribution: Owner, migrated: bool)

  datatype Role = Member | TeamOwnerRole

  /** `teams` maps a team to the user it was created for; `deleted` are the projects marked as deleted;
      `credits` are the amounts of the usage rows. */
  datatype Db = Db(
    users: map<nat, User>,
    teams: map<nat, nat>,
    roles: map<(nat, nat), Role>,
    rows: map<Row, Owner>,
    deleted: set<nat>,
    credits: map<nat, int>)

  predicate HasTeam(db: Db, u: nat) {
    exists m :: m in db.roles && m.0 == u
  }

  predicate NeedsMigration(db: Db, u: nat, user: User) {
    !HasTeam(db, u) || !user.migrated
  }

  ghost function Owned(rows: map<Row, Owner>, table: Table, o: Owner): set<Row> {
    set r | r in rows && r.table == table && rows[r] == o
  }

  /** One UPDATE statement: every row of the table that belongs to `from` goes to `to`. */
  function Move(rows: map<Row, Owner>, table: Table, from: Owner, to: Owner): map<Row, Owner> {
    map r | r in rows :: if r.table == table && rows[r] == from then to else rows[r]
  }

  function LiveProjects(db: Db, u: nat): set<Row> {
    set r | r in db.rows && r.table == Projects && db.rows[r] == UserOwner(u) && r.id !in db.deleted
  }

  // ----- The calls

  /** The query a call is about to make. */
  datatype Pc =
    | QuickCheck
    | WantLock
    | Loading
    | Rechecking
    | Marking
    | Creating(tries: nat)
    | Joining
    | AddingMember
    | SettingRole
    | FindingProjects
    | StoringProjects(todo: set<Row>)
    | Attributing
    | MovingCostCenters
    | InsertingCostCenter
    | MovingInstances
    | MovingUsage
    | MovingCustomers
    | Unmarking
    | Releasing(moved: bool)
    | Done

  /** `candidate` is the user record the caller passed in, `me` the record the call works on, `team` the
      team it has created; `mine` are the rows that belonged to the user, and `loaded` is the user's record, when the
      call began to work. */
  datatype Call = Call(user: nat, candidate: User, pc: Pc, me: User, team: nat, mine: set<Row>, loaded: User)

  datatype State = State(db: Db, calls: map<nat, Call>, locks: map<nat, nat>)

  /** How the database answers: as asked; that the team name is taken; or with an error, the query having
      had no effect (`Fails`) or having had its effect all the same (`Lost`). */
  datatype Answer = Fine | Conflict | Fails | Lost

  const MAX_TRIES := 10

  ghost predicate MayAct(pc: Pc) {
    !pc.WantLock? && !pc.Releasing? && !pc.Done?
  }

  /** The effect of a call's next query on the database, and where the call goes from there. `pick` is the
      id of a new row, or the project to store next. */
  function Effect(db: Db, call: Call, pick: nat): (Db, Call)
    requires call.user in db.users
  {
    var u, t, mine := call.user, call.team, UserOwner(call.user);
    match call.pc
    case QuickCheck =>
      (db, call.(pc := if NeedsMigration(db, u, call.candidate) then WantLock else Done))
    case Loading =>
      (db, call.(pc := Rechecking, me := db.users[u], loaded := db.users[u], mine := set r | r in db.rows && db.rows[r] == mine))
    case Rechecking =>
      if NeedsMigration(db, u, call.me) then (db, call.(pc := Marking, me := call.me.(migrated := true)))
      else (db, call.(pc := Releasing(false)))
    case Marking =>
      (db.(users := db.users[u := call.me]), call.(pc := Creating(1)))
    case Creating(tries) =>
      (db.(teams := db.teams[pick := u]), call.(pc := Joining, team := pick))
    case Joining =>
      (db.(roles := db.roles[(u, t) := TeamOwnerRole]), call.(pc := AddingMember))
    case AddingMember =>
      (if (u, t) in db.roles then db else db.(roles := db.roles[(u, t) := Member]), call.(pc := SettingRole))
    case SettingRole =>
      (db.(roles := db.roles[(u, t) := TeamOwnerRole]), call.(pc := FindingProjects))
    case FindingProjects =>
      (db, call.(pc := StoringProjects(LiveProjects(db, u))))
    case StoringProjects(todo) =>
      if todo == {} then (db, call.(pc := Attributing))
      else if Row(Projects, pick) in todo then
        (db.(rows := db.rows[Row(Projects, pick) := TeamOwner(t)]), call.(pc := StoringProjects(todo - {Row(Projects, pick)})))
      else (db, call)
    case Attributing =>
      if call.me.usageAttribution == mine || call.me.usageAttribution == Nobody then
        var me := call.me.(usageAttribution := TeamOwner(t));
        (db.(users := db.users[u := me]), call.(pc := MovingCostCenters, me := me))
      else (db, call.(pc := MovingCostCenters))
    case MovingCostCenters =>
      if exists r :: r in db.rows && r.table == CostCenters && db.rows[r] == mine then
        (db.(rows := Move(db.rows, CostCenters, mine, TeamOwner(t))), call.(pc := MovingInstances))
      else (db, call.(pc := InsertingCostCenter))
    case InsertingCostCenter =>
      (db.(rows := db.rows[Row(CostCenters, pick) := TeamOwner(t)]), call.(pc := MovingInstances))
    case MovingInstances =>
      (db.(rows := Move(db.rows, Instances, mine, TeamOwner(t))), call.(pc := MovingUsage))
    case MovingUsage =>
      (db.(rows := Move(db.rows, Usage, mine, TeamOwner(t))), call.(pc := MovingCustomers))
    case MovingCustomers =>
      (db.(rows := Move(db.rows, Customers, mine, TeamOwner(t))), call.(pc := Releasing(true)))
    case Unmarking =>
      var me := call.me.(migrated := false);
      (db.(users := db.users[u := me]), call.(pc := Releasing(false), me := me))
    case _ => (db, call)
  }

  /** Where an error sends a call: out, before it holds the lock; to the release, before it is inside the
      handler and once more if the handler itself fails; and otherwise to the handler. */
  function AfterError(pc: Pc): Pc {
    match pc
    case QuickCheck => Done
    case Loading => Releasing(false)
    case Rechecking => Releasing(false)
    case Marking => Releasing(false)
    case Unmarking => Releasing(false)
    case _ => Unmarking
  }

  /** One query and what the call does with the answer. */
  function Act(db: Db, call: Call, answer: Answer, pick: nat): (Db, Call)
    requires call.user in db.users
  {
    var (db', call') := Effect(db, call, pick);
    match answer
    case Fine => (db', call')
    case Conflict =>
      if call.pc.Creating? then
        (db, call.(pc := if call.pc.tries < MAX_TRIES then Creating(call.pc.tries + 1) else Unmarking))
      else (db, call)
    case Fails => (db, call'.(pc := AfterError(call.pc)))
    case Lost => (db', call'.(pc := AfterError(call.pc)))
  }

  /** The ids a new row gets are not in use. */
  ghost predicate FreshPick(db: Db, pc: Pc, pick: nat) {
    && (pc.Creating? ==> pick !in db.teams)
    && (pc.InsertingCostCenter? ==> Row(CostCenters, pick) !in db.rows)
  }

  // ----- Steps and runs

  /** A call for some user, with any record of that user that the caller may hold. */
  ghost predicate Start(s: State, s': State, c: nat, u: nat, candidate: User) {
    && c !in s.calls && u in s.db.users
    && s' == s.(calls := s.calls[c := Call(u, candidate, QuickCheck, candidate, 0, {}, candidate)])
  }

  ghost predicate Acquire(s: State, s': State, c: nat) {
    && c in s.calls && s.calls[c].pc.WantLock? && s.calls[c].user !in s.locks
    && s' == s.(calls := s.calls[c := s.calls[c].(pc := Loading)], locks := s.locks[s.calls[c].user := c])
  }

  ghost predicate GiveUp(s: State, s': State, c: nat) {
    && c in s.calls && s.calls[c].pc.WantLock?
    && s' == s.(calls := s.calls[c := s.calls[c].(pc := Done)])
  }

  ghost predicate Query(s: State, s': State, c: nat, answer: Answer, pick: nat) {
    && c in s.calls && MayAct(s.calls[c].pc) && s.calls[c].user in s.db.users
    && FreshPick(s.db, s.calls[c].pc, pick)
    && var (db, call) := Act(s.db, s.calls[c], answer, pick);
       s' == s.(db := db, calls := s.calls[c := call])
  }

  ghost predicate Release(s: State, s': State, c: nat) {
    && c in s.calls && s.calls[c].pc.Releasing?
    && s' == s.(calls := s.calls[c := s.calls[c].(pc := Done)], locks := s.locks - {s.calls[c].user})
  }

  /** One step of call `c`. */
  ghost predicate StepOf(s: State, s': State, c: nat) {
    || (exists u, candidate :: Start(s, s', c, u, candidate))
    || Acquire(s, s', c)
    || GiveUp(s, s', c)
    || (exists answer, pick :: Query(s, s', c, answer, pick))
    || Release(s, s', c)
  }

  ghost predicate Next(s: State, s': State) {
    exists c :: StepOf(s, s', c)
  }

  /** A database whose rows belong to existing teams, and no call yet. */
  ghost predicate Init(s: State) {
    && s.calls == map[] && s.locks == map[]
    && (forall r :: r in s.db.rows && s.db.rows[r].TeamOwner? ==> s.db.rows[r].team in s.db.teams)
    && (forall m :: m in s.db.roles ==> m.1 in s.db.teams)
  }

  ghost predicate IsRun(run: seq<State>) {
    && run != [] && Init(run[0])
    && forall i, j :: 0 <= i < j < |run| && j == i + 1 ==> Next(run[i], run[j])
  }

  // ----- What every step keeps

  /** Between taking and giving back the lock. */
  ghost predicate Critical(pc: Pc) {
    !pc.QuickCheck? && !pc.WantLock? && !pc.Done?
  }

  /** How far a call has come with the team it has created; zero before that and after a failure. */
  function Progress(pc: Pc): nat {
    match pc
    case Joining => 1
    case AddingMember => 2
    case SettingRole => 3
    case FindingProjects => 4
    case StoringProjects(_) => 5
    case Attributing => 6
    case MovingCostCenters => 7
    case InsertingCostCenter => 8
    case MovingInstances => 9
    case MovingUsage => 10
    case MovingCustomers => 11
    case Releasing(moved) => if moved then 12 else 0
    case _ => 0
  }

  ghost predicate BeforeCreating(pc: Pc) {
    pc.Rechecking? || pc.Marking? || pc.Creating?
  }

  ghost predicate LocksAgree(s: State) {
    && (forall c :: c in s.calls && Critical(s.calls[c].pc) ==> s.calls[c].user in s.locks && s.locks[s.calls[c].user] == c)
    && (forall u :: u in s.locks ==> s.locks[u] in s.calls && s.calls[s.locks[u]].user == u && Critical(s.calls[s.locks[u]].pc))
  }

  ghost predicate TeamsAgree(db0: Db, s: State) {
    && (forall t :: t in db0.teams ==> t in s.db.teams && s.db.teams[t] == db0.teams[t])
    && (forall m :: m in s.db.roles ==> m.1 in s.db.teams)
    && (forall r :: r in s.db.rows && s.db.rows[r].TeamOwner? ==> s.db.rows[r].team in s.db.teams)
    && (forall c :: c in s.calls && Progress(s.calls[c].pc) > 0 ==> FoundedFor(db0, s.db, s.calls[c].team, s.calls[c].user))
  }

  /** `t` is a team that a call has created for `u`. */
  ghost predicate FoundedFor(db0: Db, db: Db, t: nat, u: nat) {
    t in db.teams && db.teams[t] == u && t !in db0.teams
  }

  /** A row belongs to its first owner still, or it was a user's and has gone to a team created for that user. */
  ghost predicate MovedFairly(db0: Db, db: Db, o0: Owner, o: Owner) {
    o == o0 || (o0.UserOwner? && o.TeamOwner? && FoundedFor(db0, db, o.team, o0.user))
  }

  /** No row is lost, none changes hands but from a user to that user's team, new rows are cost centers of
      new teams, and no amount and no deletion mark changes. */
  ghost predicate Conserved(db0: Db, db: Db) {
    && db.users.Keys == db0.users.Keys && db.credits == db0.credits && db.deleted == db0.deleted
    && (forall r :: r in db0.rows ==> r in db.rows && MovedFairly(db0, db, db0.rows[r], db.rows[r]))
    && (forall r :: r in db.rows && r !in db0.rows ==>
          r.table == CostCenters && db.rows[r].TeamOwner? && db.rows[r].team !in db0.teams)
  }

  // ----- What the holder of a lock has moved so far

  ghost function Part(mine: set<Row>, table: Table): set<Row> {
    set r | r in mine && r.table == table
  }

  /** The user's rows that have not been moved yet; projects marked as deleted never are. */
  ghost function Left(pc: Pc, table: Table, mine: set<Row>, deleted: set<nat>): set<Row> {
    match table
    case Projects =>
      set r | r in Part(mine, Projects)
              && (r.id in deleted || Progress(pc) < 5 || (pc.StoringProjects? && r in pc.todo))
    case CostCenters => if Progress(pc) < 8 then Part(mine, CostCenters) else {}
    case Instances => if Progress(pc) < 10 then Part(mine, Instances) else {}
    case Usage => if Progress(pc) < 11 then Part(mine, Usage) else {}
    case Customers => if Progress(pc) < 12 then Part(mine, Customers) else {}
  }

  ghost predicate CostCentersCarried(db: Db, call: Call) {
    var there := Owned(db.rows, CostCenters, TeamOwner(call.team));
    && (Progress(call.pc) <= 8 ==> there == {})
    && (Progress(call.pc) == 8 ==> Part(call.mine, CostCenters) == {})
    && (Progress(call.pc) > 8 ==> Part(call.mine, CostCenters) <= there && there != {})
  }

  /** Of the table's rows that the user had when the call began, those not moved yet are the user's
      still and the others belong to the new team; neither owns any other. */
  ghost predicate CarriedAt(db: Db, call: Call, table: Table) {
    && Owned(db.rows, table, UserOwner(call.user)) == Left(call.pc, table, call.mine, db.deleted)
    && (table != CostCenters ==>
          Owned(db.rows, table, TeamOwner(call.team)) == Part(call.mine, table) - Left(call.pc, table, call.mine, db.deleted))
  }

  ghost predicate UntouchedAt(db: Db, call: Call, table: Table) {
    Owned(db.rows, table, UserOwner(call.user)) == Part(call.mine, table)
  }

  ghost predicate Carrying(db: Db, call: Call) {
    && (BeforeCreating(call.pc) ==> forall table :: UntouchedAt(db, call, table))
    && (Progress(call.pc) > 0 ==> CostCentersCarried(db, call) && forall table :: CarriedAt(db, call, table))
    && (call.pc.StoringProjects? ==>
          call.pc.todo <= Part(call.mine, Projects) && forall r :: r in call.pc.todo ==> r.id !in db.deleted)
  }

  /** What one query may do to the rows: hand some from a user to a team, and add cost centers for the team. */
  ghost predicate Transfers(rows: map<Row, Owner>, rows': map<Row, Owner>, u: nat, t: nat) {
    && (forall r :: r in rows ==> r in rows' && (rows'[r] == rows[r] || (rows[r] == UserOwner(u) && rows'[r] == TeamOwner(t))))
    && (forall r :: r in rows' && r !in rows ==> r.table == CostCenters && rows'[r] == TeamOwner(t))
  }

  lemma EffectTransfers(db: Db, call: Call, pick: nat)
    requires call.user in db.users && Carrying(db, call) && FreshPick(db, call.pc, pick)
    ensures Transfers(db.rows, Effect(db, call, pick).0.rows, call.user, call.team)
    ensures Effect(db, call, pick).0.rows != db.rows ==> Progress(call.pc) > 0
  {
    if call.pc.StoringProjects? && Row(Projects, pick) in call.pc.todo {
      assert CarriedAt(db, call, Projects);
      assert Row(Projects, pick) in Left(call.pc, Projects, call.mine, db.deleted);
      assert Row(Projects, pick) in Owned(db.rows, Projects, UserOwner(call.user));
    }
  }

  lemma EffectKeeps(db: Db, call: Call, pick: nat)
    requires call.user in db.users
    ensures var (db', call') := Effect(db, call, pick);
            db'.users.Keys == db.users.Keys && db'.deleted == db.deleted && db'.credits == db.credits && call'.user == call.user
  {
  }

  lemma EffectOnTeams(db: Db, call: Call, pick: nat)
    requires call.user in db.users && FreshPick(db, call.pc, pick)
    ensures var (db', call') := Effect(db, call, pick);
            && (forall t :: t in db.teams ==> t in db'.teams && db'.teams[t] == db.teams[t])
            && (Progress(call'.pc) > 0 ==> (if call.pc.Creating? then call'.team !in db.teams && call'.team in db'.teams && db'.teams[call'.team] == call.user
                                            else Progress(call.pc) > 0 && call'.team == call.team))
            && (forall m :: m in db'.roles && m !in db.roles ==> m == (call.user, call.team) && Progress(call.pc) > 0)
  {
  }

  lemma MoveOwned(rows: map<Row, Owner>, moved: Table, u: nat, t: nat, table: Table)
    ensures var rows' := Move(rows, moved, UserOwner(u), TeamOwner(t));
            && Owned(rows', table, UserOwner(u)) == (if table == moved then {} else Owned(rows, table, UserOwner(u)))
            && Owned(rows', table, TeamOwner(t)) ==
               Owned(rows, table, TeamOwner(t)) + (if table == moved then Owned(rows, table, UserOwner(u)) else {})
  {
  }

  lemma StoreOwned(rows: map<Row, Owner>, row: Row, u: nat, t: nat, table: Table)
    ensures var rows' := rows[row := TeamOwner(t)];
            && Owned(rows', table, UserOwner(u)) == Owned(rows, table, UserOwner(u)) - {row}
            && Owned(rows', table, TeamOwner(t)) == Owned(rows, table, TeamOwner(t)) + (if row.table == table then {row} else {})
  {
  }

  predicate MovesTable(pc: Pc) {
    pc.MovingCostCenters? || pc.MovingInstances? || pc.MovingUsage? || pc.MovingCustomers?
  }

  function MovedTable(pc: Pc): Table
    requires MovesTable(pc)
  {
    match pc
    case MovingCostCenters => CostCenters
    case MovingInstances => Instances
    case MovingUsage => Usage
    case MovingCustomers => Customers
  }

  lemma MoveShiftsTheRest(pc: Pc, pc': Pc, table: Table, mine: set<Row>, deleted: set<nat>)
    requires MovesTable(pc) && Progress(pc') >= Progress(pc) + 1 && !pc'.InsertingCostCenter?
    requires Progress(pc') <= (if pc.MovingCostCenters? then 9 else Progress(pc) + 1)
    ensures Left(pc', table, mine, deleted) == if table == MovedTable(pc) then {} else Left(pc, table, mine, deleted)
    ensures table == MovedTable(pc) ==> Left(pc, table, mine, deleted) == Part(mine, table)
  {
  }

  lemma MovingCarriesAt(db: Db, call: Call, pick: nat, table: Table)
    requires call.user in db.users && MovesTable(call.pc) && CarriedAt(db, call, table)
    requires Effect(db, call, pick).0.rows == Move(db.rows, MovedTable(call.pc), UserOwner(call.user), TeamOwner(call.team))
    requires !Effect(db, call, pick).1.pc.InsertingCostCenter?
    ensures var (db', call') := Effect(db, call, pick); CarriedAt(db', call', table)
  {
    var (db', call') := Effect(db, call, pick);
    MoveOwned(db.rows, MovedTable(call.pc), call.user, call.team, table);
    MoveShiftsTheRest(call.pc, call'.pc, table, call.mine, db.deleted);
    assert Owned(db'.rows, table, UserOwner(call.user)) == Left(call'.pc, table, call.mine, db'.deleted);
  }

  lemma MovingCarries(db: Db, call: Call, pick: nat)
    requires call.user in db.users && Carrying(db, call) && MovesTable(call.pc)
    requires Effect(db, call, pick).1.pc != InsertingCostCenter
    ensures var (db', call') := Effect(db, call, pick); Carrying(db', call')
  {
    var (db', call') := Effect(db, call, pick);
    forall table
      ensures CarriedAt(db', call', table)
    {
      assert CarriedAt(db, call, table);
      MovingCarriesAt(db, call, pick, table);
    }
    MoveOwned(db.rows, MovedTable(call.pc), call.user, call.team, CostCenters);
    if call.pc.MovingCostCenters? {
      assert CarriedAt(db, call, CostCenters);
      var r :| r in db.rows && r.table == CostCenters && db.rows[r] == UserOwner(call.user);
      assert r in Owned(db.rows, CostCenters, UserOwner(call.user));
    }
  }

  lemma NoCostCentersCarries(db: Db, call: Call, pick: nat)
    requires call.user in db.users && Carrying(db, call) && call.pc.MovingCostCenters?
    requires Effect(db, call, pick).1.pc == InsertingCostCenter
    ensures var (db', call') := Effect(db, call, pick); Carrying(db', call')
  {
    var (db', call') := Effect(db, call, pick);
    assert CarriedAt(db, call, CostCenters);
    assert Owned(db.rows, CostCenters, UserOwner(call.user)) == {};
    forall table
      ensures CarriedAt(db', call', table)
    {
      assert CarriedAt(db, call, table);
    }
  }

  lemma InsertingCarries(db: Db, call: Call, pick: nat)
    requires call.user in db.users && Carrying(db, call) && call.pc.InsertingCostCenter?
    requires FreshPick(db, call.pc, pick)
    ensures var (db', call') := Effect(db, call, pick); Carrying(db', call')
  {
    var (db', call') := Effect(db, call, pick);
    forall table
      ensures CarriedAt(db', call', table)
    {
      assert CarriedAt(db, call, table);
      StoreOwned(db.rows, Row(CostCenters, pick), call.user, call.team, table);
    }
    StoreOwned(db.rows, Row(CostCenters, pick), call.user, call.team, CostCenters);
  }

  lemma StoringCarriesAt(db: Db, call: Call, pick: nat, table: Table)
    requires call.user in db.users && Carrying(db, call) && call.pc.StoringProjects?
    ensures var (db', call') := Effect(db, call, pick); CarriedAt(db', call', table)
  {
    assert CarriedAt(db, call, table);
    StoreOwned(db.rows, Row(Projects, pick), call.user, call.team, table);
  }

  lemma StoringCarries(db: Db, call: Call, pick: nat)
    requires call.user in db.users && Carrying(db, call) && call.pc.StoringProjects?
    ensures var (db', call') := Effect(db, call, pick); Carrying(db', call')
  {
    var (db', call') := Effect(db, call, pick);
    forall table
      ensures CarriedAt(db', call', table)
    {
      StoringCarriesAt(db, call, pick, table);
    }
    StoreOwned(db.rows, Row(Projects, pick), call.user, call.team, CostCenters);
  }

  lemma FindingCarries(db: Db, call: Call, pick: nat)
    requires call.user in db.users && Carrying(db, call) && call.pc.FindingProjects?
    ensures var (db', call') := Effect(db, call, pick); Carrying(db', call')
  {
    var (db', call') := Effect(db, call, pick);
    assert CarriedAt(db, call, Projects);
    assert LiveProjects(db, call.user) == set r | r in Owned(db.rows, Projects, UserOwner(call.user)) && r.id !in db.deleted;
    forall table
      ensures CarriedAt(db', call', table)
    {
      assert CarriedAt(db, call, table);
    }
  }

  /** The queries that leave the rows alone. */
  predicate LeavesRows(pc: Pc) {
    pc.Joining? || pc.AddingMember? || pc.SettingRole? || pc.Attributing? || pc.Marking? || pc.Rechecking?
  }

  lemma QuietCarries(db: Db, call: Call, pick: nat)
    requires call.user in db.users && Carrying(db, call) && LeavesRows(call.pc)
    ensures var (db', call') := Effect(db, call, pick); Carrying(db', call')
  {
    var (db', call') := Effect(db, call, pick);
    forall table | Progress(call.pc) > 0
      ensures CarriedAt(db', call', table)
    {
      assert CarriedAt(db, call, table);
    }
    forall table | BeforeCreating(call.pc)
      ensures UntouchedAt(db', call', table)
    {
      assert UntouchedAt(db, call, table);
    }
  }

  lemma LoadingCarries(db: Db, call: Call, pick: nat)
    requires call.user in db.users && call.pc.Loading?
    ensures var (db', call') := Effect(db, call, pick); Carrying(db', call')
  {
  }

  /** A new team owns nothing yet. */
  lemma CreatingCarries(db: Db, call: Call, pick: nat)
    requires call.user in db.users && Carrying(db, call) && call.pc.Creating? && FreshPick(db, call.pc, pick)
    requires forall r :: r in db.rows && db.rows[r].TeamOwner? ==> db.rows[r].team in db.teams
    ensures var (db', call') := Effect(db, call, pick); Carrying(db', call')
  {
    var (db', call') := Effect(db, call, pick);
    forall table
      ensures CarriedAt(db', call', table)
      ensures Owned(db'.rows, table, TeamOwner(pick)) == {}
    {
      assert UntouchedAt(db, call, table);
    }
  }

  lemma EffectCarries(db: Db, call: Call, pick: nat)
    requires call.user in db.users && Carrying(db, call) && FreshPick(db, call.pc, pick)
    requires forall r :: r in db.rows && db.rows[r].TeamOwner? ==> db.rows[r].team in db.teams
    ensures var (db', call') := Effect(db, call, pick); Carrying(db', call')
  {
    if MovesTable(call.pc) {
      if Effect(db, call, pick).1.pc == InsertingCostCenter {
        NoCostCentersCarries(db, call, pick);
      } else {
        MovingCarries(db, call, pick);
      }
    } else if LeavesRows(call.pc) {
      QuietCarries(db, call, pick);
    } else {
      match call.pc
      case InsertingCostCenter => InsertingCarries(db, call, pick);
      case StoringProjects(_) => StoringCarries(db, call, pick);
      case FindingProjects => FindingCarries(db, call, pick);
      case Loading => LoadingCarries(db, call, pick);
      case Creating(_) => CreatingCarries(db, call, pick);
      case _ => EffectEndsCarrying(db, call, pick);
    }
  }

  lemma EffectEndsCarrying(db: Db, call: Call, pick: nat)
    requires call.user in db.users && (call.pc.QuickCheck? || call.pc.WantLock? || call.pc.Unmarking? || call.pc.Releasing? || call.pc.Done?)
    requires Carrying(db, call)
    ensures var (db', call') := Effect(db, call, pick); Carrying(db', call')
  {
  }

  // ----- Every run is safe

  ghost predicate AllCarrying(s: State) {
    forall c {:trigger Carrying(s.db, s.calls[c])} :: c in s.calls ==> Carrying(s.db, s.calls[c])
  }

  ghost predicate Safe(db0: Db, s: State) {
    && LocksAgree(s) && TeamsAgree(db0, s) && Conserved(db0, s.db) && AllCarrying(s)
    && (forall c :: c in s.calls ==> s.calls[c].user in s.db.users)
  }

  lemma InitIsSafe(s: State)
    requires Init(s)
    ensures Safe(s.db, s)
  {
  }

  /** An answer either leaves the database as it was or lets the query have its effect. */
  lemma AnswerMeans(db: Db, call: Call, answer: Answer, pick: nat)
    requires call.user in db.users
    ensures Act(db, call, answer, pick).0 == db || Act(db, call, answer, pick).0 == Effect(db, call, pick).0
    ensures Act(db, call, answer, pick).1.user == call.user
    ensures MayAct(call.pc) ==> (Critical(Act(db, call, answer, pick).1.pc) <==> Critical(call.pc))
  {
  }

  lemma ErrorEndsCarrying(db: Db, call: Call, pc: Pc)
    requires call.pc == AfterError(pc)
    ensures Progress(call.pc) == 0 && Carrying(db, call)
  {
  }

  lemma ActCarries(db: Db, call: Call, answer: Answer, pick: nat)
    requires call.user in db.users && Carrying(db, call) && FreshPick(db, call.pc, pick)
    requires forall r :: r in db.rows && db.rows[r].TeamOwner? ==> db.rows[r].team in db.teams
    ensures var (db', call') := Act(db, call, answer, pick); Carrying(db', call')
  {
    var (db', call') := Act(db, call, answer, pick);
    if answer == Fine {
      EffectCarries(db, call, pick);
    } else if answer == Conflict {
      if call.pc.Creating? {
        forall table
          ensures UntouchedAt(db, call', table)
        {
          assert UntouchedAt(db, call, table);
        }
      }
    } else {
      ErrorEndsCarrying(db', call', call.pc);
    }
  }

  lemma OthersKeepCarrying(db: Db, db': Db, u: nat, t: nat, call: Call)
    requires Carrying(db, call) && db'.deleted == db.deleted
    requires Transfers(db.rows, db'.rows, u, t) && u != call.user && (Progress(call.pc) > 0 ==> t != call.team)
    ensures Carrying(db', call)
  {
    forall table
      ensures Owned(db'.rows, table, UserOwner(call.user)) == Owned(db.rows, table, UserOwner(call.user))
      ensures Progress(call.pc) > 0 ==>
                Owned(db'.rows, table, TeamOwner(call.team)) == Owned(db.rows, table, TeamOwner(call.team))
    {
    }
    forall table | Progress(call.pc) > 0
      ensures CarriedAt(db', call, table)
    {
      assert CarriedAt(db, call, table);
    }
    forall table | BeforeCreating(call.pc)
      ensures UntouchedAt(db', call, table)
    {
      assert UntouchedAt(db, call, table);
    }
  }

  /** A call that is not between lock and release carries nothing, and changes no row. */
  lemma IdleCarriesNothing(db: Db, call: Call)
    requires !Critical(call.pc)
    ensures Progress(call.pc) == 0 && Carrying(db, call)
  {
  }

  lemma QueryKeepsCarrying(db0: Db, s: State, s': State, c: nat, answer: Answer, pick: nat)
    requires Safe(db0, s) && Query(s, s', c, answer, pick)
    ensures AllCarrying(s')
  {
    var call := s.calls[c];
    assert Carrying(s.db, call);
    ActCarries(s.db, call, answer, pick);
    AnswerMeans(s.db, call, answer, pick);
    EffectTransfers(s.db, call, pick);
    EffectKeeps(s.db, call, pick);
    forall d | d in s'.calls && d != c
      ensures Carrying(s'.db, s'.calls[d])
    {
      assert Carrying(s.db, s.calls[d]);
      if !Critical(s.calls[d].pc) {
        IdleCarriesNothing(s'.db, s.calls[d]);
      } else if s'.db.rows == s.db.rows {
        SameRowsCarry(s.db, s'.db, s.calls[d]);
      } else {
        assert Progress(call.pc) > 0;
        assert Critical(call.pc);
        OthersKeepCarrying(s.db, s'.db, call.user, call.team, s.calls[d]);
      }
    }
  }

  lemma SameRowsCarry(db: Db, db': Db, call: Call)
    requires Carrying(db, call) && db'.rows == db.rows && db'.deleted == db.deleted
    ensures Carrying(db', call)
  {
    forall table | Progress(call.pc) > 0
      ensures CarriedAt(db', call, table)
    {
      assert CarriedAt(db, call, table);
    }
    forall table | BeforeCreating(call.pc)
      ensures UntouchedAt(db', call, table)
    {
      assert UntouchedAt(db, call, table);
    }
  }

  lemma QueryKeepsLocks(s: State, s': State, c: nat, answer: Answer, pick: nat)
    requires LocksAgree(s) && Query(s, s', c, answer, pick)
    ensures LocksAgree(s')
  {
    AnswerMeans(s.db, s.calls[c], answer, pick);
  }

  lemma ActOnTeams(db: Db, call: Call, answer: Answer, pick: nat)
    requires call.user in db.users && FreshPick(db, call.pc, pick)
    ensures var (db', call') := Act(db, call, answer, pick);
            && (forall t :: t in db.teams ==> t in db'.teams && db'.teams[t] == db.teams[t])
            && (Progress(call'.pc) > 0 ==>
                  if call.pc.Creating? then call'.team !in db.teams && call'.team in db'.teams && db'.teams[call'.team] == call.user
                  else Progress(call.pc) > 0 && call'.team == call.team)
            && (forall m :: m in db'.roles && m !in db.roles ==> m == (call.user, call.team) && Progress(call.pc) > 0)
  {
    EffectOnTeams(db, call, pick);
    if answer == Fails || answer == Lost {
      ErrorEndsCarrying(db, Act(db, call, answer, pick).1, call.pc);
    }
  }

  lemma QueryKeepsTeams(db0: Db, s: State, s': State, c: nat, answer: Answer, pick: nat)
    requires TeamsAgree(db0, s) && Query(s, s', c, answer, pick) && Carrying(s.db, s.calls[c])
    ensures TeamsAgree(db0, s')
  {
    var call := s.calls[c];
    ActOnTeams(s.db, call, answer, pick);
    AnswerMeans(s.db, call, answer, pick);
    EffectTransfers(s.db, call, pick);
    forall r | r in s'.db.rows && s'.db.rows[r].TeamOwner?
      ensures s'.db.rows[r].team in s'.db.teams
    {
      if r !in s.db.rows || s'.db.rows[r] != s.db.rows[r] {
        assert s'.db.rows[r] == TeamOwner(call.team);
      }
    }
  }

  lemma QueryConserves(db0: Db, s: State, s': State, c: nat, answer: Answer, pick: nat)
    requires TeamsAgree(db0, s) && Conserved(db0, s.db) && Query(s, s', c, answer, pick) && Carrying(s.db, s.calls[c])
    ensures Conserved(db0, s'.db)
  {
    var call := s.calls[c];
    ActOnTeams(s.db, call, answer, pick);
    AnswerMeans(s.db, call, answer, pick);
    EffectTransfers(s.db, call, pick);
    EffectKeeps(s.db, call, pick);
    assert forall t, u :: FoundedFor(db0, s.db, t, u) ==> FoundedFor(db0, s'.db, t, u);
    forall r | r in db0.rows
      ensures r in s'.db.rows && MovedFairly(db0, s'.db, db0.rows[r], s'.db.rows[r])
    {
      assert MovedFairly(db0, s.db, db0.rows[r], s.db.rows[r]);
      if s'.db.rows[r] != s.db.rows[r] {
        assert FoundedFor(db0, s.db, call.team, call.user);
      }
    }
    forall r | r in s'.db.rows && r !in db0.rows
      ensures r.table == CostCenters && s'.db.rows[r].TeamOwner? && s'.db.rows[r].team !in db0.teams
    {
      if r !in s.db.rows {
        assert FoundedFor(db0, s.db, call.team, call.user);
      }
    }
  }

  lemma NextIsSafe(db0: Db, s: State, s': State)
    requires Safe(db0, s) && Next(s, s')
    ensures Safe(db0, s')
  {
    var c :| StepOf(s, s', c);
    if answer, pick :| Query(s, s', c, answer, pick) {
      assert Carrying(s.db, s.calls[c]);
      QueryKeepsLocks(s, s', c, answer, pick);
      QueryKeepsTeams(db0, s, s', c, answer, pick);
      QueryConserves(db0, s, s', c, answer, pick);
      QueryKeepsCarrying(db0, s, s', c, answer, pick);
      AnswerMeans(s.db, s.calls[c], answer, pick);
      EffectKeeps(s.db, s.calls[c], pick);
    } else {
      OtherStepIsSafe(db0, s, s', c);
    }
  }

  /** Starting, locking and releasing change neither the database nor what anybody carries. */
  lemma BookkeepingIsSafe(db0: Db, s: State, s': State, c: nat, call: Call)
    requires Safe(db0, s) && LocksAgree(s') && call.user in s.db.users
    requires s'.db == s.db && s'.calls == s.calls[c := call]
    requires call.pc.QuickCheck? || call.pc.Loading? || call.pc.Done?
    ensures Safe(db0, s')
  {
    assert Progress(call.pc) == 0 && Carrying(s.db, call);
    forall d | d in s'.calls
      ensures Carrying(s'.db, s'.calls[d])
    {
      if d != c {
        assert Carrying(s.db, s.calls[d]);
      }
    }
  }

  lemma OtherStepIsSafe(db0: Db, s: State, s': State, c: nat)
    requires Safe(db0, s) && StepOf(s, s', c) && !exists answer, pick :: Query(s, s', c, answer, pick)
    ensures Safe(db0, s') && s'.db == s.db
  {
    if u, candidate :| Start(s, s', c, u, candidate) {
      assert LocksAgree(s');
    } else if Acquire(s, s', c) {
      assert LocksAgree(s');
    } else if GiveUp(s, s', c) {
      assert LocksAgree(s');
    } else {
      assert Release(s, s', c) && LocksAgree(s');
    }
    BookkeepingIsSafe(db0, s, s', c, s'.calls[c]);
  }

  /** Whatever fails and however the calls interleave, every state of every run is safe: at most one call
      works on a user, and no row is lost, changed or handed to anybody but its user's new team. */
  lemma {:induction false} RunsAreSafe(run: seq<State>, i: nat)
    requires IsRun(run) && i < |run|
    ensures Safe(run[0].db, run[i])
  {
    if i == 0 {
      InitIsSafe(run[0]);
    } else {
      RunsAreSafe(run, i - 1);
      assert Next(run[i - 1], run[i]);
      NextIsSafe(run[0].db, run[i - 1], run[i]);
    }
  }

  // ----- Consequences

  ghost function RowsOf(db: Db, table: Table): set<Row> {
    set r | r in db.rows && r.table == table
  }

  /** The credits of a set of usage rows. */
  ghost function TotalCredits(credits: map<nat, int>, rows: set<Row>): int
    decreases |rows|
  {
    if rows == {} then 0
    else
      var r :| r in rows;
      (if r.id in credits then credits[r.id] else 0) + TotalCredits(credits, rows - {r})
  }

  /** At every step, also of runs cut short by failures: the projects, instances, customers and usage rows
      are the same rows as at the start, with the same credits in all, and a row that has changed hands
      was a user's and belongs to a team that was created for that user in this run. */
  lemma MigrationConserves(run: seq<State>, i: nat)
    requires IsRun(run) && i < |run|
    ensures forall table :: table != CostCenters ==> RowsOf(run[i].db, table) == RowsOf(run[0].db, table)
    ensures RowsOf(run[0].db, CostCenters) <= RowsOf(run[i].db, CostCenters)
    ensures TotalCredits(run[i].db.credits, RowsOf(run[i].db, Usage)) == TotalCredits(run[0].db.credits, RowsOf(run[0].db, Usage))
    ensures forall r :: r in run[0].db.rows ==>
              r in run[i].db.rows && MovedFairly(run[0].db, run[i].db, run[0].db.rows[r], run[i].db.rows[r])
  {
    RunsAreSafe(run, i);
    assert RowsOf(run[i].db, Usage) == RowsOf(run[0].db, Usage);
  }

  lemma AtMostOneWorksOnAUser(run: seq<State>, i: nat, c: nat, d: nat)
    requires IsRun(run) && i < |run|
    requires c in run[i].calls && Critical(run[i].calls[c].pc)
    requires d in run[i].calls && Critical(run[i].calls[d].pc)
    requires run[i].calls[c].user == run[i].calls[d].user
    ensures c == d
  {
    RunsAreSafe(run, i);
  }

  /** A call that has come through has left the user nothing but the projects marked as deleted, which it leaves all of;
      its team holds exactly the instances, customers and usage the user had, and at least one cost center. */
  lemma SuccessMovesEverything(run: seq<State>, i: nat, c: nat)
    requires IsRun(run) && i < |run|
    requires c in run[i].calls && run[i].calls[c].pc == Releasing(true)
    ensures var call, db := run[i].calls[c], run[i].db;
            && FoundedFor(run[0].db, db, call.team, call.user)
            && db.deleted == run[0].db.deleted && LiveProjects(db, call.user) == {}
            && Owned(db.rows, Projects, UserOwner(call.user)) == (set r | r in Part(call.mine, Projects) && r.id in db.deleted)
            && (forall table :: table != Projects ==> Owned(db.rows, table, UserOwner(call.user)) == {})
            && (forall table :: table == Instances || table == Usage || table == Customers ==>
                  Owned(db.rows, table, TeamOwner(call.team)) == Part(call.mine, table))
            && Owned(db.rows, Projects, TeamOwner(call.team)) == (set r | r in Part(call.mine, Projects) && r.id !in db.deleted)
            && Part(call.mine, CostCenters) <= Owned(db.rows, CostCenters, TeamOwner(call.team)) != {}
            && TotalCredits(db.credits, Owned(db.rows, Usage, TeamOwner(call.team))) ==
               TotalCredits(run[0].db.credits, Part(call.mine, Usage))
  {
    RunsAreSafe(run, i);
    var call, db := run[i].calls[c], run[i].db;
    assert Carrying(db, call);
    forall table
      ensures Owned(db.rows, table, UserOwner(call.user)) == Left(call.pc, table, call.mine, db.deleted)
      ensures table != CostCenters ==> Owned(db.rows, table, TeamOwner(call.team)) ==
                                       Part(call.mine, table) - Left(call.pc, table, call.mine, db.deleted)
    {
      assert CarriedAt(db, call, table);
    }
    assert LiveProjects(db, call.user) == set r | r in Owned(db.rows, Projects, UserOwner(call.user)) && r.id !in db.deleted;
  }

  /** So a user is left without any project exactly if none of those the user had was marked as deleted. */
  lemma NoProjectStaysExactlyWhen(run: seq<State>, i: nat, c: nat)
    requires IsRun(run) && i < |run|
    requires c in run[i].calls && run[i].calls[c].pc == Releasing(true)
    ensures var call := run[i].calls[c];
            Owned(run[i].db.rows, Projects, UserOwner(call.user)) == {} <==>
            forall r :: r in Part(call.mine, Projects) ==> r.id !in run[0].db.deleted
  {
    SuccessMovesEverything(run, i, c);
    var call := run[i].calls[c];
    var left := Owned(run[i].db.rows, Projects, UserOwner(call.user));
    assert forall r :: r in Part(call.mine, Projects) && r.id in run[0].db.deleted ==> r in left;
  }

  // ----- A run that leaves a project behind

  ghost predicate EndsWith(run: seq<State>, db: Db, call: Call) {
    IsRun(run) && run[|run| - 1].db == db && run[|run| - 1].calls == map[0 := call]
  }

  lemma Append(run: seq<State>, s: State)
    requires IsRun(run) && Next(run[|run| - 1], s)
    ensures IsRun(run + [s])
  {
    var more := run + [s];
    forall i, j | 0 <= i < j < |more| && j == i + 1
      ensures Next(more[i], more[j])
    {
      assert j < |run| ==> Next(run[i], run[j]);
    }
  }

  /** The only call makes its next query, and all goes well. */
  lemma Ask(run: seq<State>, db: Db, call: Call, pick: nat) returns (more: seq<State>)
    requires EndsWith(run, db, call) && MayAct(call.pc) && call.user in db.users && FreshPick(db, call.pc, pick)
    ensures EndsWith(more, Effect(db, call, pick).0, Effect(db, call, pick).1) && run <= more
  {
    var s := run[|run| - 1];
    var (db', call') := Act(db, call, Fine, pick);
    var s' := s.(db := db', calls := s.calls[0 := call']);
    assert Query(s, s', 0, Fine, pick);
    assert StepOf(s, s', 0);
    Append(run, s');
    more := run + [s'];
    assert s'.calls == map[0 := call'];
  }

  /** Up to the lock, for a user who is alone and has never been migrated. */
  lemma BeginAlone(db: Db) returns (run: seq<State>)
    requires 0 in db.users && !db.users[0].migrated && Init(State(db, map[], map[]))
    ensures EndsWith(run, db, Call(0, db.users[0], Loading, db.users[0], 0, {}, db.users[0])) && run[0].db == db
  {
    var call := Call(0, db.users[0], QuickCheck, db.users[0], 0, {}, db.users[0]);
    var s0 := State(db, map[], map[]);
    var s1 := State(db, map[0 := call], map[]);
    assert Start(s0, s1, 0, 0, db.users[0]);
    assert StepOf(s0, s1, 0);
    Append([s0], s1);
    run := Ask([s0, s1], db, call, 0);
    assert [s0] + [s1] == [s0, s1];
    var s2 := run[|run| - 1];
    var waiting := call.(pc := WantLock);
    assert s2.calls == map[0 := waiting];
    AloneWithoutLock(run);
    var s3 := s2.(calls := s2.calls[0 := waiting.(pc := Loading)], locks := s2.locks[0 := 0]);
    assert Acquire(s2, s3, 0);
    assert StepOf(s2, s3, 0);
    Append(run, s3);
    run := run + [s3];
    assert s3.calls == map[0 := waiting.(pc := Loading)];
  }

  /** As long as the only call waits for the lock, nobody holds it. */
  lemma AloneWithoutLock(run: seq<State>)
    requires IsRun(run) && run[|run| - 1].calls.Keys == {0} && run[|run| - 1].calls[0].pc.WantLock?
    ensures 0 !in run[|run| - 1].locks
  {
    RunsAreSafe(run, |run| - 1);
  }

  /** How many queries a call that all goes well for has still to make. */
  function QueriesLeft(pc: Pc): nat {
    match pc
    case Loading => 15
    case Rechecking => 14
    case Marking => 13
    case Creating(_) => 12
    case Releasing(_) => 0
    case _ => 12 - Progress(pc)
  }

  /** The migration of a user who had nothing but one project marked as deleted. */
  ghost predicate OnItsWay(db: Db, call: Call) {
    && call.user == 0 && 0 in db.users && db.deleted == {5}
    && (if Progress(call.pc) > 0 then true
        else call.pc.Loading? || call.pc.Creating? || call.pc.Marking? || (call.pc.Rechecking? && !call.me.migrated))
    && (Progress(call.pc) == 0 ==> db.teams == map[] && !HasTeam(db, 0) && (call.pc.Loading? ==> !db.users[0].migrated))
    && (Progress(call.pc) <= 8 ==> db.rows == map[Row(Projects, 5) := UserOwner(0)])
    && Owned(db.rows, Projects, UserOwner(0)) == {Row(Projects, 5)}
    && (call.pc.StoringProjects? ==> call.pc.todo == {})
  }

  lemma StartsOnItsWay(db: Db, call: Call)
    requires OnItsWay(db, call) && Progress(call.pc) == 0 && !call.pc.Releasing?
    ensures MayAct(call.pc) && FreshPick(db, call.pc, 1)
    ensures var (db', call') := Effect(db, call, 1); OnItsWay(db', call') && QueriesLeft(call'.pc) < QueriesLeft(call.pc)
  {
  }

  lemma ProjectsOnItsWay(db: Db, call: Call)
    requires OnItsWay(db, call) && 0 < Progress(call.pc) <= 6
    ensures MayAct(call.pc) && FreshPick(db, call.pc, 1)
    ensures var (db', call') := Effect(db, call, 1); OnItsWay(db', call') && QueriesLeft(call'.pc) < QueriesLeft(call.pc)
  {
  }

  lemma InsertsOnItsWay(db: Db, call: Call)
    requires OnItsWay(db, call) && 7 <= Progress(call.pc) <= 8
    ensures MayAct(call.pc) && FreshPick(db, call.pc, 1)
    ensures var (db', call') := Effect(db, call, 1); OnItsWay(db', call') && QueriesLeft(call'.pc) < QueriesLeft(call.pc)
  {
    var (db', call') := Effect(db, call, 1);
    assert forall r :: r in db'.rows && r.table == Projects ==> r in db.rows && db'.rows[r] == db.rows[r];
  }

  lemma MovesOnItsWay(db: Db, call: Call)
    requires OnItsWay(db, call) && 8 < Progress(call.pc) && !call.pc.Releasing?
    ensures MayAct(call.pc) && FreshPick(db, call.pc, 1)
    ensures var (db', call') := Effect(db, call, 1); OnItsWay(db', call') && QueriesLeft(call'.pc) < QueriesLeft(call.pc)
  {
    MoveOwned(db.rows, MovedTable(call.pc), 0, call.team, Projects);
  }

  lemma StaysOnItsWay(db: Db, call: Call)
    requires OnItsWay(db, call) && !call.pc.Releasing?
    ensures MayAct(call.pc) && FreshPick(db, call.pc, 1)
    ensures var (db', call') := Effect(db, call, 1); OnItsWay(db', call') && QueriesLeft(call'.pc) < QueriesLeft(call.pc)
  {
    if Progress(call.pc) == 0 {
      StartsOnItsWay(db, call);
    } else if Progress(call.pc) <= 6 {
      ProjectsOnItsWay(db, call);
    } else if Progress(call.pc) <= 8 {
      InsertsOnItsWay(db, call);
    } else {
      MovesOnItsWay(db, call);
    }
  }

  /** A user whose only project is marked as deleted has it still when a migration has come through. */
  lemma DeletedProjectStays() returns (run: seq<State>)
    ensures IsRun(run) && 0 in run[|run| - 1].calls && run[|run| - 1].calls[0].pc == Releasing(true)
    ensures var db := run[|run| - 1].db; Owned(db.rows, Projects, UserOwner(0)) == {Row(Projects, 5)}
  {
    var db := Db(map[0 := User(Nobody, false)], map[], map[], map[Row(Projects, 5) := UserOwner(0)], {5}, map[]);
    run := BeginAlone(db);
    var call := Call(0, db.users[0], Loading, db.users[0], 0, {}, db.users[0]);
    assert Row(Projects, 5) in Owned(db.rows, Projects, UserOwner(0));
    while !call.pc.Releasing?
      invariant EndsWith(run, db, call) && OnItsWay(db, call)
      decreases QueriesLeft(call.pc)
    {
      StaysOnItsWay(db, call);
      run := Ask(run, db, call, 1);
      var next := Effect(db, call, 1);
      db, call := next.0, next.1;
    }
  }

  // ----- Runs without errors: exactly one team

  /** The record that the caller holds says migrated only if the stored one does. */
  ghost predicate StartInTime(s: State, s': State, c: nat, u: nat, candidate: User) {
    Start(s, s', c, u, candidate) && (candidate.migrated ==> s.db.users[u].migrated)
  }

  /** A step of call `c` in which no query fails, and a team name is found in time. */
  ghost predicate StepWithoutError(s: State, s': State, c: nat) {
    || (exists u, candidate :: StartInTime(s, s', c, u, candidate))
    || Acquire(s, s', c)
    || (exists answer, pick :: Query(s, s', c, answer, pick) && GoesWell(s.calls[c].pc, answer))
    || Release(s, s', c)
  }

  ghost predicate NextWithoutError(s: State, s': State) {
    exists c :: StepWithoutError(s, s', c)
  }

  ghost predicate GoesWell(pc: Pc, answer: Answer) {
    answer == Fine || (answer == Conflict && pc.Creating? && pc.tries < MAX_TRIES)
  }

  ghost predicate IsRunWithoutError(run: seq<State>) {
    && run != [] && Init(run[0])
    && forall i, j :: 0 <= i < j < |run| && j == i + 1 ==> NextWithoutError(run[i], run[j])
  }

  /** The teams the run has created for a user. */
  ghost function NewTeams(db0: Db, db: Db, u: nat): set<nat> {
    set t | t in db.teams && FoundedFor(db0, db, t, u)
  }

  ghost predicate NeededAtFirst(db0: Db, u: nat) {
    u in db0.users && NeedsMigration(db0, u, db0.users[u])
  }

  ghost predicate Untouched(db0: Db, db: Db, u: nat) {
    && u in db.users && u in db0.users && NewTeams(db0, db, u) == {}
    && HasTeam(db, u) == HasTeam(db0, u) && db.users[u].migrated == db0.users[u].migrated
  }

  ghost predicate Migrated(db0: Db, db: Db, u: nat) {
    && NeededAtFirst(db0, u) && u in db.users && (exists t :: NewTeams(db0, db, u) == {t})
    && HasTeam(db, u) && db.users[u].migrated
  }

  ghost predicate Underway(db0: Db, db: Db, u: nat, teams: set<nat>) {
    NeededAtFirst(db0, u) && u in db.users && NewTeams(db0, db, u) == teams && db.users[u].migrated
  }

  /** Where a user stands, by the query the holder of the user's lock is about to make. */
  ghost predicate StandsAt(db0: Db, db: Db, u: nat, call: Call) {
    match call.pc
    case Loading => Untouched(db0, db, u) || Migrated(db0, db, u)
    case Rechecking => (Untouched(db0, db, u) || Migrated(db0, db, u)) && call.me == db.users[u]
    case Marking => Untouched(db0, db, u) && NeededAtFirst(db0, u) && call.me.migrated
    case Creating(_) => Underway(db0, db, u, {}) && call.me.migrated
    case Joining => Underway(db0, db, u, {call.team}) && call.me.migrated
    case Unmarking => false
    case Releasing(_) => (Untouched(db0, db, u) && !NeededAtFirst(db0, u)) || Migrated(db0, db, u)
    case _ => Migrated(db0, db, u) && call.me.migrated
  }

  ghost predicate UserStands(db0: Db, s: State, u: nat) {
    if u in s.locks then s.locks[u] in s.calls && StandsAt(db0, s.db, u, s.calls[s.locks[u]])
    else Untouched(db0, s.db, u) || Migrated(db0, s.db, u)
  }

  /** Somebody has marked the user as migrated and is about to create the team, or has created it. */
  ghost predicate Begun(db0: Db, s: State, u: nat) {
    NewTeams(db0, s.db, u) != {} || (u in s.locks && s.locks[u] in s.calls && s.calls[s.locks[u]].pc.Creating?)
  }

  ghost predicate CallStands(db0: Db, s: State, call: Call) {
    && call.user in s.db.users
    && (call.pc.QuickCheck? && call.candidate.migrated ==> s.db.users[call.user].migrated)
    && (call.pc.Done? && NeededAtFirst(db0, call.user) ==> Begun(db0, s, call.user))
  }

  ghost predicate Orderly(db0: Db, s: State) {
    && LocksAgree(s) && s.db.users.Keys == db0.users.Keys
    && (forall u {:trigger UserStands(db0, s, u)} :: u in s.db.users ==> UserStands(db0, s, u))
    && (forall c {:trigger CallStands(db0, s, s.calls[c])} :: c in s.calls ==> CallStands(db0, s, s.calls[c]))
  }

  lemma InitIsOrderly(s: State)
    requires Init(s)
    ensures Orderly(s.db, s)
  {
    forall u | u in s.db.users
      ensures UserStands(s.db, s, u)
    {
      assert NewTeams(s.db, s.db, u) == {};
    }
  }

  lemma RolesMakeTeams(db: Db, db': Db, u: nat, t: nat)
    requires (u, t) in db'.roles
    ensures HasTeam(db', u)
  {
  }

  lemma CreatingStands(db0: Db, db: Db, call: Call, pick: nat)
    requires call.user in db.users && pick !in db.teams && call.pc.Creating?
    requires forall t :: t in db0.teams ==> t in db.teams
    requires StandsAt(db0, db, call.user, call)
    ensures var (db', call') := Effect(db, call, pick); StandsAt(db0, db', call.user, call')
  {
    var (db', call') := Effect(db, call, pick);
    assert pick in NewTeams(db0, db', call.user);
    assert NewTeams(db0, db', call.user) == NewTeams(db0, db, call.user) + {pick};
  }

  lemma JoiningStands(db0: Db, db: Db, call: Call, pick: nat)
    requires call.user in db.users && call.pc.Joining? && StandsAt(db0, db, call.user, call)
    ensures var (db', call') := Effect(db, call, pick); StandsAt(db0, db', call.user, call')
  {
    var (db', call') := Effect(db, call, pick);
    RolesMakeTeams(db, db', call.user, call.team);
    assert NewTeams(db0, db', call.user) == {call.team};
  }

  /** Beyond the first membership the query changes neither the teams nor whether the user has one. */
  lemma LaterStands(db0: Db, db: Db, call: Call, pick: nat)
    requires call.user in db.users && Progress(call.pc) > 1 && MayAct(call.pc) && StandsAt(db0, db, call.user, call)
    ensures var (db', call') := Effect(db, call, pick); StandsAt(db0, db', call.user, call')
  {
    var (db', call') := Effect(db, call, pick);
    assert NewTeams(db0, db', call.user) == NewTeams(db0, db, call.user);
    var m :| m in db.roles && m.0 == call.user;
    assert m in db'.roles;
  }

  lemma EarlierStands(db0: Db, db: Db, call: Call, pick: nat)
    requires call.user in db.users && (call.pc.Loading? || call.pc.Rechecking? || call.pc.Marking?)
    requires StandsAt(db0, db, call.user, call)
    ensures var (db', call') := Effect(db, call, pick); StandsAt(db0, db', call.user, call')
  {
    var (db', call') := Effect(db, call, pick);
    assert NewTeams(db0, db', call.user) == NewTeams(db0, db, call.user);
  }

  /** What a query that goes well does to the user it works on. */
  lemma OwnQueryStands(db0: Db, db: Db, call: Call, answer: Answer, pick: nat)
    requires call.user in db.users && FreshPick(db, call.pc, pick) && GoesWell(call.pc, answer)
    requires forall t :: t in db0.teams ==> t in db.teams
    requires Critical(call.pc) && MayAct(call.pc) && StandsAt(db0, db, call.user, call)
    ensures var (db', call') := Act(db, call, answer, pick); StandsAt(db0, db', call.user, call')
  {
    if answer == Fine {
      if call.pc.Creating? {
        CreatingStands(db0, db, call, pick);
      } else if call.pc.Joining? {
        JoiningStands(db0, db, call, pick);
      } else if Progress(call.pc) > 1 {
        LaterStands(db0, db, call, pick);
      } else {
        EarlierStands(db0, db, call, pick);
      }
    }
  }

  ghost predicate ActsOnUser(db: Db, db': Db, u: nat) {
    db'.users.Keys == db.users.Keys && forall v :: v in db.users && v != u ==> db'.users[v] == db.users[v]
  }

  ghost predicate ActsOnTeamsOf(db: Db, db': Db, u: nat) {
    && (forall t :: t in db.teams ==> t in db'.teams && db'.teams[t] == db.teams[t])
    && (forall t :: t in db'.teams && t !in db.teams ==> db'.teams[t] == u)
  }

  ghost predicate ActsOnRolesOf(db: Db, db': Db, u: nat) {
    && (forall m :: m in db.roles ==> m in db'.roles)
    && (forall m :: m in db'.roles && m !in db.roles ==> m.0 == u)
    && (forall m :: m in db.roles && m.0 != u ==> db'.roles[m] == db.roles[m])
  }

  /** What a call may change beside rows: its own user's record, teams for its user, memberships of its user. */
  ghost predicate ActsFor(db: Db, db': Db, u: nat) {
    ActsOnUser(db, db', u) && ActsOnTeamsOf(db, db', u) && ActsOnRolesOf(db, db', u)
  }

  lemma EffectActsOnUser(db: Db, call: Call, pick: nat)
    requires call.user in db.users
    ensures ActsOnUser(db, Effect(db, call, pick).0, call.user)
  {
  }

  lemma EffectActsOnTeams(db: Db, call: Call, pick: nat)
    requires call.user in db.users && FreshPick(db, call.pc, pick)
    ensures ActsOnTeamsOf(db, Effect(db, call, pick).0, call.user)
  {
  }

  lemma EffectActsOnRoles(db: Db, call: Call, pick: nat)
    requires call.user in db.users
    ensures ActsOnRolesOf(db, Effect(db, call, pick).0, call.user)
  {
  }

  lemma QueryActsFor(s: State, s': State, c: nat, answer: Answer, pick: nat)
    requires Query(s, s', c, answer, pick)
    ensures ActsFor(s.db, s'.db, s.calls[c].user)
  {
    var call := s.calls[c];
    AnswerMeans(s.db, call, answer, pick);
    EffectActsOnUser(s.db, call, pick);
    EffectActsOnTeams(s.db, call, pick);
    EffectActsOnRoles(s.db, call, pick);
  }

  /** No query of a call touches where another user stands. */
  lemma OthersStand(db0: Db, db: Db, db': Db, u: nat, v: nat)
    requires ActsFor(db, db', u) && v != u
    ensures NewTeams(db0, db', v) == NewTeams(db0, db, v)
    ensures HasTeam(db', v) == HasTeam(db, v)
    ensures (v in db'.users <==> v in db.users) && (v in db.users ==> db'.users[v] == db.users[v])
  {
    forall t
      ensures t in NewTeams(db0, db', v) <==> t in NewTeams(db0, db, v)
    {
    }
    if HasTeam(db, v) {
      var m :| m in db.roles && m.0 == v;
      assert m in db'.roles;
    }
    if HasTeam(db', v) {
      var m :| m in db'.roles && m.0 == v;
      assert m in db.roles;
    }
  }

  lemma OthersStandAt(db0: Db, db: Db, db': Db, u: nat, v: nat, call: Call)
    requires ActsFor(db, db', u) && v != u && StandsAt(db0, db, v, call)
    ensures StandsAt(db0, db', v, call)
  {
    OthersStand(db0, db, db', u, v);
  }

  // ----- The order that a step without error keeps

  lemma QueryKeepsUsersOrderly(db0: Db, s: State, s': State, c: nat, answer: Answer, pick: nat, v: nat)
    requires Orderly(db0, s) && Query(s, s', c, answer, pick) && GoesWell(s.calls[c].pc, answer)
    requires forall t :: t in db0.teams ==> t in s.db.teams
    requires v in s.db.users
    ensures UserStands(db0, s', v)
  {
    var call := s.calls[c];
    assert UserStands(db0, s, v);
    QueryActsFor(s, s', c, answer, pick);
    if v != call.user {
      OthersStand(db0, s.db, s'.db, call.user, v);
      if v in s.locks {
        OthersStandAt(db0, s.db, s'.db, call.user, v, s.calls[s.locks[v]]);
      }
    } else if Critical(call.pc) {
      OwnQueryStands(db0, s.db, call, answer, pick);
    } else {
      assert s'.db == s.db;
    }
  }

  /** In such runs nobody's mark is ever taken back. */
  lemma MarkStays(db0: Db, s: State, s': State, c: nat, answer: Answer, pick: nat, v: nat)
    requires Orderly(db0, s) && Query(s, s', c, answer, pick) && GoesWell(s.calls[c].pc, answer)
    requires v in s.db.users && s.db.users[v].migrated
    ensures v in s'.db.users && s'.db.users[v].migrated
  {
    var call := s.calls[c];
    QueryActsFor(s, s', c, answer, pick);
    if v == call.user && Critical(call.pc) {
      assert UserStands(db0, s, v);
      assert StandsAt(db0, s.db, v, call);
    }
  }

  lemma BegunStays(db0: Db, s: State, s': State, c: nat, answer: Answer, pick: nat, v: nat)
    requires Orderly(db0, s) && Query(s, s', c, answer, pick) && GoesWell(s.calls[c].pc, answer)
    requires forall t :: t in db0.teams ==> t in s.db.teams
    requires Begun(db0, s, v) && v in s.db.users
    ensures Begun(db0, s', v)
  {
    QueryActsFor(s, s', c, answer, pick);
    if NewTeams(db0, s.db, v) != {} {
      var t :| t in NewTeams(db0, s.db, v);
      assert t in NewTeams(db0, s'.db, v);
    } else {
      assert UserStands(db0, s, v);
      QueryKeepsUsersOrderly(db0, s, s', c, answer, pick, v);
    }
  }

  /** A quick check that finds nothing to do is right, or somebody else has begun. */
  lemma QuickCheckIsRight(db0: Db, s: State, call: Call)
    requires Orderly(db0, s) && CallStands(db0, s, call) && call.pc.QuickCheck?
    requires !NeedsMigration(s.db, call.user, call.candidate) && NeededAtFirst(db0, call.user)
    ensures Begun(db0, s, call.user)
  {
    assert UserStands(db0, s, call.user);
  }

  lemma QueryKeepsCallsOrderly(db0: Db, s: State, s': State, c: nat, answer: Answer, pick: nat, d: nat)
    requires Orderly(db0, s) && Query(s, s', c, answer, pick) && GoesWell(s.calls[c].pc, answer)
    requires forall t :: t in db0.teams ==> t in s.db.teams
    requires d in s.calls
    ensures CallStands(db0, s', s'.calls[d])
  {
    var call, call' := s.calls[d], s'.calls[d];
    assert CallStands(db0, s, call);
    QueryActsFor(s, s', c, answer, pick);
    AnswerMeans(s.db, s.calls[c], answer, pick);
    if call'.pc.QuickCheck? && call'.candidate.migrated {
      assert call == call';
      MarkStays(db0, s, s', c, answer, pick, call.user);
    }
    if call'.pc.Done? && NeededAtFirst(db0, call.user) {
      if d == c {
        assert call.pc.QuickCheck?;
        QuickCheckIsRight(db0, s, call);
      }
      BegunStays(db0, s, s', c, answer, pick, call.user);
    }
  }

  lemma QueryKeepsOrder(db0: Db, s: State, s': State, c: nat, answer: Answer, pick: nat)
    requires Orderly(db0, s) && Query(s, s', c, answer, pick) && GoesWell(s.calls[c].pc, answer)
    requires forall t :: t in db0.teams ==> t in s.db.teams
    ensures Orderly(db0, s')
  {
    QueryActsFor(s, s', c, answer, pick);
    QueryKeepsLocks(s, s', c, answer, pick);
    forall v | v in s'.db.users
      ensures UserStands(db0, s', v)
    {
      QueryKeepsUsersOrderly(db0, s, s', c, answer, pick, v);
    }
    forall d | d in s'.calls
      ensures CallStands(db0, s', s'.calls[d])
    {
      QueryKeepsCallsOrderly(db0, s, s', c, answer, pick, d);
    }
  }

  lemma StartKeepsOrder(db0: Db, s: State, s': State, c: nat, u: nat, candidate: User)
    requires Orderly(db0, s) && StartInTime(s, s', c, u, candidate)
    ensures Orderly(db0, s')
  {
    forall v | v in s'.db.users
      ensures UserStands(db0, s', v)
    {
      assert UserStands(db0, s, v);
    }
    forall d | d in s'.calls
      ensures CallStands(db0, s', s'.calls[d])
    {
      if d != c {
        assert CallStands(db0, s, s.calls[d]);
      }
    }
  }

  lemma AcquireKeepsCallOrderly(db0: Db, s: State, s': State, c: nat, d: nat)
    requires LocksAgree(s) && Acquire(s, s', c) && d in s.calls && CallStands(db0, s, s.calls[d])
    ensures CallStands(db0, s', s'.calls[d])
  {
    assert s'.calls[d].user == s.calls[d].user && s'.calls[d].candidate == s.calls[d].candidate;
    assert s'.calls[d].pc == s.calls[d].pc || s'.calls[d].pc.Loading?;
  }

  lemma AcquireKeepsLocks(s: State, s': State, c: nat)
    requires LocksAgree(s) && Acquire(s, s', c)
    ensures LocksAgree(s')
  {
  }

  lemma AcquireKeepsOrder(db0: Db, s: State, s': State, c: nat)
    requires Orderly(db0, s) && Acquire(s, s', c)
    ensures Orderly(db0, s')
  {
    AcquireKeepsLocks(s, s', c);
    forall v | v in s'.db.users
      ensures UserStands(db0, s', v)
    {
      assert UserStands(db0, s, v);
    }
    forall d | d in s'.calls
      ensures CallStands(db0, s', s'.calls[d])
    {
      assert CallStands(db0, s, s.calls[d]);
      AcquireKeepsCallOrderly(db0, s, s', c, d);
    }
  }

  lemma ReleaseKeepsOrder(db0: Db, s: State, s': State, c: nat)
    requires Orderly(db0, s) && Release(s, s', c)
    ensures Orderly(db0, s')
  {
    var u := s.calls[c].user;
    assert CallStands(db0, s, s.calls[c]);
    assert UserStands(db0, s, u) && StandsAt(db0, s.db, u, s.calls[c]);
    forall v | v in s'.db.users
      ensures UserStands(db0, s', v)
    {
      assert UserStands(db0, s, v);
    }
    forall d | d in s'.calls
      ensures CallStands(db0, s', s'.calls[d])
    {
      assert CallStands(db0, s, s.calls[d]);
    }
  }

  lemma {:induction false} RunsWithoutErrorAreOrderly(run: seq<State>, i: nat)
    requires IsRunWithoutError(run) && i < |run|
    ensures Orderly(run[0].db, run[i]) && Safe(run[0].db, run[i])
  {
    if i == 0 {
      InitIsOrderly(run[0]);
      InitIsSafe(run[0]);
    } else {
      RunsWithoutErrorAreOrderly(run, i - 1);
      var s, s' := run[i - 1], run[i];
      assert NextWithoutError(s, s');
      NextWithoutErrorKeepsOrder(run[0].db, s, s');
      NextIsSafe(run[0].db, s, s');
    }
  }

  lemma NextWithoutErrorKeepsOrder(db0: Db, s: State, s': State)
    requires Orderly(db0, s) && Safe(db0, s) && NextWithoutError(s, s')
    ensures Orderly(db0, s') && Next(s, s')
  {
    var c :| StepWithoutError(s, s', c);
    assert StepOf(s, s', c) by {
      if u, candidate :| StartInTime(s, s', c, u, candidate) {
        assert Start(s, s', c, u, candidate);
      }
    }
    if u, candidate :| StartInTime(s, s', c, u, candidate) {
      StartKeepsOrder(db0, s, s', c, u, candidate);
    } else if Acquire(s, s', c) {
      AcquireKeepsOrder(db0, s, s', c);
    } else if answer, pick :| Query(s, s', c, answer, pick) && GoesWell(s.calls[c].pc, answer) {
      QueryKeepsOrder(db0, s, s', c, answer, pick);
    } else {
      ReleaseKeepsOrder(db0, s, s', c);
    }
  }

  /** Without errors, whatever the interleaving: never more than one team is created for a user, none if the user had a
      team and was marked at the start, and otherwise exactly one as soon as every call for the user has returned. */
  lemma ExactlyOneTeam(run: seq<State>, i: nat, u: nat)
    requires IsRunWithoutError(run) && i < |run| && u in run[i].db.users
    ensures |NewTeams(run[0].db, run[i].db, u)| <= 1
    ensures u in run[0].db.users
    ensures (exists m :: m in run[0].db.roles && m.0 == u) && run[0].db.users[u].migrated ==> NewTeams(run[0].db, run[i].db, u) == {}
    ensures !((exists m :: m in run[0].db.roles && m.0 == u) && run[0].db.users[u].migrated)
            && (exists c :: c in run[i].calls && run[i].calls[c].user == u)
            && (forall c :: c in run[i].calls && run[i].calls[c].user == u ==> run[i].calls[c].pc.Done?)
            ==> |NewTeams(run[0].db, run[i].db, u)| == 1
  {
    RunsWithoutErrorAreOrderly(run, i);
    var db0, s := run[0].db, run[i];
    assert UserStands(db0, s, u);
    assert |NewTeams(db0, s.db, u)| <= 1;
    if c :| c in s.calls && s.calls[c].user == u && s.calls[c].pc.Done? {
      assert CallStands(db0, s, s.calls[c]);
    }
  }

  lemma RunsWithoutErrorAreRuns(run: seq<State>)
    requires IsRunWithoutError(run)
    ensures IsRun(run)
  {
    forall i, j | 0 <= i < j < |run| && j == i + 1
      ensures Next(run[i], run[j])
    {
      RunsWithoutErrorAreOrderly(run, i);
      NextWithoutErrorKeepsOrder(run[0].db, run[i], run[j]);
    }
  }

  /** What the team of a user has been given was that user's at the start of the run. */
  lemma TeamHasWhatTheUserHad(run: seq<State>, i: nat, t: nat, u: nat, r: Row)
    requires IsRun(run) && i < |run| && FoundedFor(run[0].db, run[i].db, t, u)
    requires r in run[i].db.rows && run[i].db.rows[r] == TeamOwner(t) && r.table != CostCenters
    ensures r in run[0].db.rows && run[0].db.rows[r] == UserOwner(u)
  {
    RunsAreSafe(run, i);
    assert r in run[0].db.rows;
    assert MovedFairly(run[0].db, run[i].db, run[0].db.rows[r], run[i].db.rows[r]);
  }

  /** And what the user had at the start is still the user's or the one new team's. */
  lemma UserOrTeamHasIt(run: seq<State>, i: nat, t: nat, u: nat, r: Row)
    requires IsRunWithoutError(run) && i < |run| && u in run[i].db.users && FoundedFor(run[0].db, run[i].db, t, u)
    requires r in run[0].db.rows && run[0].db.rows[r] == UserOwner(u)
    ensures r in run[i].db.rows && run[i].db.rows[r] in {UserOwner(u), TeamOwner(t)}
  {
    RunsWithoutErrorAreOrderly(run, i);
    assert MovedFairly(run[0].db, run[i].db, run[0].db.rows[r], run[i].db.rows[r]);
    var o := run[i].db.rows[r];
    if o.TeamOwner? {
      OnlyNewTeam(run, i, u, t, o.team);
    }
  }

  lemma OnlyNewTeam(run: seq<State>, i: nat, u: nat, t: nat, t': nat)
    requires IsRunWithoutError(run) && i < |run| && u in run[i].db.users
    requires FoundedFor(run[0].db, run[i].db, t, u) && FoundedFor(run[0].db, run[i].db, t', u)
    ensures t == t'
  {
    RunsWithoutErrorAreOrderly(run, i);
    assert UserStands(run[0].db, run[i], u);
    assert t in NewTeams(run[0].db, run[i].db, u) && t' in NewTeams(run[0].db, run[i].db, u);
  }

  /** Without errors, a call that has come through has given the team exactly the instances, usage and customers that the
      user had at the start of the run, with all the credits, all cost centers and all projects but those marked as
      deleted; and those are all that is left to the user. */
  lemma SuccessMovesAllThereWas(run: seq<State>, i: nat, c: nat)
    requires IsRunWithoutError(run) && i < |run|
    requires c in run[i].calls && run[i].calls[c].pc == Releasing(true)
    ensures var call, db, db0 := run[i].calls[c], run[i].db, run[0].db;
            && (forall table :: table == Instances || table == Usage || table == Customers ==>
                  Owned(db.rows, table, TeamOwner(call.team)) == Owned(db0.rows, table, UserOwner(call.user)))
            && TotalCredits(db.credits, Owned(db.rows, Usage, TeamOwner(call.team))) ==
               TotalCredits(db0.credits, Owned(db0.rows, Usage, UserOwner(call.user)))
            && Owned(db0.rows, CostCenters, UserOwner(call.user)) <= Owned(db.rows, CostCenters, TeamOwner(call.team)) != {}
            && Owned(db.rows, Projects, TeamOwner(call.team)) == LiveProjects(db0, call.user)
            && Owned(db.rows, Projects, UserOwner(call.user)) == Owned(db0.rows, Projects, UserOwner(call.user)) - LiveProjects(db0, call.user)
  {
    RunsWithoutErrorAreRuns(run);
    SuccessMovesEverything(run, i, c);
    RunsAreSafe(run, i);
    var call, db, db0 := run[i].calls[c], run[i].db, run[0].db;
    var u, t := call.user, call.team;
    forall r | r in db0.rows && db0.rows[r] == UserOwner(u)
      ensures r in db.rows && db.rows[r] == if r.table == Projects && r.id in db.deleted then UserOwner(u) else TeamOwner(t)
    {
      UserOrTeamHasIt(run, i, t, u, r);
      HandedOver(run, i, c, r);
    }
    forall r | r in db.rows && db.rows[r] == TeamOwner(t) && r.table != CostCenters
      ensures r in db0.rows && db0.rows[r] == UserOwner(u)
    {
      TeamHasWhatTheUserHad(run, i, t, u, r);
    }
    forall table | table == Instances || table == Usage || table == Customers
      ensures Owned(db.rows, table, TeamOwner(t)) == Owned(db0.rows, table, UserOwner(u))
    {
    }
  }

  /** Which of the user's rows a call that has come through has handed over. */
  lemma HandedOver(run: seq<State>, i: nat, c: nat, r: Row)
    requires IsRun(run) && i < |run|
    requires c in run[i].calls && run[i].calls[c].pc == Releasing(true)
    requires r in run[i].db.rows && run[i].db.rows[r] in {UserOwner(run[i].calls[c].user), TeamOwner(run[i].calls[c].team)}
    ensures run[i].db.rows[r] == UserOwner(run[i].calls[c].user) ==> r.table == Projects && r.id in run[i].db.deleted
    ensures run[i].db.rows[r] == TeamOwner(run[i].calls[c].team) && r.table == Projects ==> r.id !in run[i].db.deleted
  {
    SuccessMovesEverything(run, i, c);
    var call, db := run[i].calls[c], run[i].db;
    assert r in Owned(db.rows, r.table, db.rows[r]);
  }

  ghost predicate HasNothingToDo(call: Call) {
    call.pc.Loading? || call.pc.Releasing? || (call.pc.Rechecking? && call.me.migrated)
  }

  /** Once a user is marked, has a team and nobody is working on the user, no call for that user changes
      anything, with or without errors; and it stays so. */
  ghost predicate Settled(s: State, u: nat) {
    && u in s.db.users && s.db.users[u].migrated && HasTeam(s.db, u)
    && (u in s.locks ==> s.locks[u] in s.calls && HasNothingToDo(s.calls[s.locks[u]]))
  }

  lemma OwnQueryChangesNothing(s: State, s': State, c: nat, answer: Answer, pick: nat)
    requires LocksAgree(s) && Query(s, s', c, answer, pick) && Settled(s, s.calls[c].user)
    ensures s'.db == s.db && Settled(s', s.calls[c].user)
  {
  }

  lemma LaterCallsChangeNothing(db0: Db, s: State, s': State, c: nat, u: nat)
    requires Safe(db0, s) && Settled(s, u) && StepOf(s, s', c)
    ensures Settled(s', u)
    ensures c in s.calls && s.calls[c].user == u ==> s'.db == s.db
  {
    if answer, pick :| Query(s, s', c, answer, pick) {
      if s.calls[c].user == u {
        OwnQueryChangesNothing(s, s', c, answer, pick);
      } else {
        QueryActsFor(s, s', c, answer, pick);
        QueryKeepsLocks(s, s', c, answer, pick);
        OthersStand(db0, s.db, s'.db, s.calls[c].user, u);
      }
    } else {
      OtherStepIsSafe(db0, s, s', c);
    }
  }

  /** And that is where an error-free run is as soon as the calls for a user have returned, whether or not the user
      was in need of a migration. */
  lemma ReturnedMeansSettled(run: seq<State>, i: nat, c: nat)
    requires IsRunWithoutError(run) && i < |run| && c in run[i].calls
    requires forall d :: d in run[i].calls && run[i].calls[d].user == run[i].calls[c].user ==> run[i].calls[d].pc.Done?
    ensures Settled(run[i], run[i].calls[c].user)
  {
    RunsWithoutErrorAreOrderly(run, i);
    var db0, s := run[0].db, run[i];
    var u := s.calls[c].user;
    assert CallStands(db0, s, s.calls[c]);
    assert UserStands(db0, s, u);
  }
}
