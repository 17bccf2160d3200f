/** Table descriptions and their sorted listing. */
module Tables {
  import opened TopologicalSort
  import opened Wrappers

  datatype TableDescription = TableDescription(
    name: string,
    primaryKeys: seq<string>,
    dependencies: seq<string>,
    deletionColumn: Option<string>)

  /** The first table with the given name; a name without a table gives an undefined node. */
  function Find(tables: seq<TableDescription>, name: string): (r: Option<TableDescription>)
    ensures r.Some? ==> r.value in tables && r.value.name == name
    ensures r.None? <==> forall t :: t in tables ==> t.name != name
  {
    if tables == [] then None
    else if tables[0].name == name then Some(tables[0])
    else Find(tables[1..], name)
  }

  function Name(node: Option<TableDescription>): Option<string> {
    if node.None? then None else Some(node.value.name)
  }

  function FindAll(tables: seq<TableDescription>, names: seq<string>): (r: seq<Option<TableDescription>>)
    ensures |r| == |names| && forall i :: 0 <= i < |names| ==> r[i] == Find(tables, names[i])
  {
    if names == [] then [] else [Find(tables, names[0])] + FindAll(tables, names[1..])
  }

  function Dependencies(tables: seq<TableDescription>): Option<TableDescription> -> seq<Option<TableDescription>> {
    (node: Option<TableDescription>) => if node.None? then [] else FindAll(tables, node.value.dependencies)
  }

  ghost predicate UniqueNames(tables: seq<TableDescription>) {
    forall i, j :: 0 <= i < j < |tables| ==> tables[i].name != tables[j].name
  }

  ghost predicate DependsOn(tables: seq<TableDescription>, a: TableDescription, b: TableDescription) {
    a in tables && b in tables && b.name in a.dependencies
  }

  /** `p` lists tables, each depending on the next. */
  ghost predicate IsChain(tables: seq<TableDescription>, p: seq<TableDescription>) {
    && p != [] && p[0] in tables
    && forall i, j :: 0 <= i < j < |p| && j == i + 1 ==> DependsOn(tables, p[i], p[j])
  }

  /** `a` depends on `b`, directly or through other tables. */
  ghost predicate DependsTransitively(tables: seq<TableDescription>, a: TableDescription, b: TableDescription) {
    exists p :: IsChain(tables, p) && |p| > 1 && p[0] == a && p[|p| - 1] == b
  }

  ghost predicate IsDangling(tables: seq<TableDescription>, t: TableDescription, name: string) {
    t in tables && name in t.dependencies && forall u :: u in tables ==> u.name != name
  }

  ghost predicate HasDanglingDependency(tables: seq<TableDescription>) {
    exists t, name :: IsDangling(tables, t, name)
  }

  ghost predicate HasDependencyCycle(tables: seq<TableDescription>) {
    exists t :: t in tables && DependsTransitively(tables, t, t)
  }

  function Defined(tables: seq<TableDescription>): (r: seq<Option<TableDescription>>)
    ensures |r| == |tables| && forall i :: 0 <= i < |tables| ==> r[i] == Some(tables[i])
  {
    if tables == [] then [] else [Some(tables[0])] + Defined(tables[1..])
  }

  function Values<T>(nodes: seq<Option<T>>): (r: seq<T>)
    requires forall n :: n in nodes ==> n.Some?
    ensures |r| == |nodes| && forall i :: 0 <= i < |nodes| ==> Some(r[i]) == nodes[i]
  {
    if nodes == [] then [] else [nodes[0].value] + Values(nodes[1..])
  }

  lemma FindIsUnique(tables: seq<TableDescription>, t: TableDescription)
    requires UniqueNames(tables) && t in tables
    ensures Find(tables, t.name) == Some(t)
  {
  }

  /** Chains of tables and paths of nodes are the same thing. */
  lemma ChainIsPath(tables: seq<TableDescription>, p: seq<TableDescription>)
    requires UniqueNames(tables) && IsChain(tables, p)
    ensures IsPathFrom(Dependencies(tables), Defined(tables), Defined(p))
  {
    var q := Defined(p);
    forall i, j | 0 <= i < j < |q| && j == i + 1
      ensures q[j] in Dependencies(tables)(q[i])
    {
      assert DependsOn(tables, p[i], p[j]);
      FindIsUnique(tables, p[j]);
      var k :| 0 <= k < |p[i].dependencies| && p[i].dependencies[k] == p[j].name;
      assert FindAll(tables, p[i].dependencies)[k] == q[j];
    }
    var k :| 0 <= k < |tables| && tables[k] == p[0];
    assert Defined(tables)[k] == q[0];
  }

  lemma {:induction false} PathIsChain(tables: seq<TableDescription>, q: seq<Option<TableDescription>>)
    requires IsPathFrom(Dependencies(tables), Defined(tables), q)
    requires forall n :: n in q ==> n.Some?
    ensures IsChain(tables, Values(q))
    decreases |q|
  {
    var p := Values(q);
    var k :| 0 <= k < |tables| && Defined(tables)[k] == q[0];
    assert p[0] == tables[k];
    forall i, j | 0 <= i < j < |p| && j == i + 1
      ensures DependsOn(tables, p[i], p[j])
    {
      if i == 0 {
      } else {
        var front := q[..j];
        forall a, b | 0 <= a < b < |front| && b == a + 1
          ensures front[b] in Dependencies(tables)(front[a])
        {
          assert q[b] in Dependencies(tables)(q[a]);
        }
        PathIsChain(tables, front);
        assert Values(front)[i] == p[i];
        assert DependsOn(tables, Values(front)[i - 1], Values(front)[i]);
      }
      assert q[j] in Dependencies(tables)(q[i]);
    }
  }

  /** A path that meets an undefined node passes a table with a dangling dependency first. */
  lemma {:induction false} UndefinedMeansDangling(tables: seq<TableDescription>, q: seq<Option<TableDescription>>)
    requires IsPathFrom(Dependencies(tables), Defined(tables), q)
    requires None in q
    ensures HasDanglingDependency(tables)
    decreases |q|
  {
    var m := |q| - 1;
    var front := q[..m];
    assert None !in Defined(tables);
    if m > 0 {
      assert IsPathFrom(Dependencies(tables), Defined(tables), front) by {
        forall a, b | 0 <= a < b < |front| && b == a + 1
          ensures front[b] in Dependencies(tables)(front[a])
        {
          assert q[b] in Dependencies(tables)(q[a]);
        }
      }
      if None in front {
        UndefinedMeansDangling(tables, front);
      } else {
        PathIsChain(tables, front);
        var t := Values(front)[m - 1];
        assert q[m] in Dependencies(tables)(q[m - 1]);
        var k :| 0 <= k < |t.dependencies| && FindAll(tables, t.dependencies)[k] == None;
        assert t in tables by {
          if m > 1 {
            assert DependsOn(tables, Values(front)[m - 2], Values(front)[m - 1]);
          }
        }
        assert IsDangling(tables, t, t.dependencies[k]);
      }
    }
  }

  lemma ChainCycle(tables: seq<TableDescription>, p: seq<TableDescription>, i: nat)
    requires IsChain(tables, p) && i < |p| - 1 && p[i] == p[|p| - 1]
    ensures HasDependencyCycle(tables)
  {
    var c := p[i..];
    forall a, b | 0 <= a < b < |c| && b == a + 1
      ensures DependsOn(tables, c[a], c[b])
    {
      assert DependsOn(tables, p[i + a], p[i + b]);
    }
    assert DependsOn(tables, c[0], c[1]);
    assert IsChain(tables, c);
    assert DependsTransitively(tables, p[i], p[i]);
  }

  lemma CycleMeansCycle(tables: seq<TableDescription>, q: seq<Option<TableDescription>>, i: nat)
    requires IsPathFrom(Dependencies(tables), Defined(tables), q)
    requires forall n :: n in q ==> n.Some?
    requires i < |q| - 1 && q[i] == q[|q| - 1]
    ensures HasDependencyCycle(tables)
  {
    PathIsChain(tables, q);
    var p := Values(q);
    assert p[i] == p[|p| - 1];
    ChainCycle(tables, p, i);
  }

  /** What makes the sort throw, in terms of tables alone. */
  lemma ThrowsExactlyWhen(tables: seq<TableDescription>)
    requires UniqueNames(tables)
    ensures ReachesCycle(Dependencies(tables), Defined(tables)) || ReachesUndefined(Name, Dependencies(tables), Defined(tables))
            <==> HasDependencyCycle(tables) || HasDanglingDependency(tables)
  {
    var edge, roots := Dependencies(tables), Defined(tables);
    if ReachesUndefined(Name, edge, roots) {
      var x :| Reachable(edge, roots, x) && Name(x).None?;
      var q :| IsPathFrom(edge, roots, q) && q[|q| - 1] == x;
      UndefinedMeansDangling(tables, q);
    } else if ReachesCycle(edge, roots) {
      var q :| IsPathFrom(edge, roots, q) && ClosesCycle(q);
      if None in q {
        UndefinedMeansDangling(tables, q);
      } else {
        var i :| 0 <= i < |q| - 1 && q[i] == q[|q| - 1];
        CycleMeansCycle(tables, q, i);
      }
    }
    if HasDependencyCycle(tables) {
      var t :| t in tables && DependsTransitively(tables, t, t);
      var p :| IsChain(tables, p) && |p| > 1 && p[0] == t && p[|p| - 1] == t;
      ChainIsPath(tables, p);
      assert ClosesCycle(Defined(p)) by {
        assert Defined(p)[..|p| - 1][0] == Defined(p)[|p| - 1];
      }
    }
    if HasDanglingDependency(tables) {
      var t, name :| IsDangling(tables, t, name);
      DanglingIsReached(tables, t, name);
    }
  }

  lemma DanglingIsReached(tables: seq<TableDescription>, t: TableDescription, name: string)
    requires UniqueNames(tables) && IsDangling(tables, t, name)
    ensures ReachesUndefined(Name, Dependencies(tables), Defined(tables))
  {
    ChainIsPath(tables, [t]);
    var k :| 0 <= k < |t.dependencies| && t.dependencies[k] == name;
    assert FindAll(tables, t.dependencies)[k] == None;
    ExtendPath(Dependencies(tables), Defined(tables), Defined([t]), None);
    assert Name(None).None?;
  }

  /** A list of all tables, each once, in which everything a table depends on comes before it. */
  ghost predicate IsSortedListing(tables: seq<TableDescription>, s: seq<TableDescription>) {
    && NoDuplicates(s)
    && (forall t :: t in s <==> t in tables)
    && (forall i, t :: 0 <= i < |s| && DependsTransitively(tables, s[i], t) ==> t in s[..i])
  }

  lemma TableIsReached(tables: seq<TableDescription>, t: TableDescription)
    requires UniqueNames(tables) && t in tables
    ensures Reachable(Dependencies(tables), Defined(tables), Some(t))
  {
    ChainIsPath(tables, [t]);
    var p := Defined([t]);
    assert p[|p| - 1] == Some(t);
  }

  lemma SortedNodesListTables(tables: seq<TableDescription>, order: seq<Option<TableDescription>>, t: TableDescription)
    requires UniqueNames(tables)
    requires forall x :: x in order <==> Reachable(Dependencies(tables), Defined(tables), x)
    requires forall x :: x in order ==> x.Some?
    ensures t in Values(order) <==> t in tables
  {
    var s := Values(order);
    if t in tables {
      TableIsReached(tables, t);
      var k :| 0 <= k < |order| && order[k] == Some(t);
      assert s[k] == t;
    }
    if t in s {
      var k :| 0 <= k < |s| && s[k] == t;
      assert order[k] in order;
      var q :| IsPathFrom(Dependencies(tables), Defined(tables), q) && q[|q| - 1] == Some(t);
      ReachedTableIsATable(tables, q);
    }
  }

  lemma SortedNodesOrderTables(tables: seq<TableDescription>, order: seq<Option<TableDescription>>,
                               p: seq<TableDescription>, i: nat)
    requires UniqueNames(tables)
    requires DependenciesFirst(Dependencies(tables), order)
    requires IsChain(tables, p) && |p| > 1
    requires i < |order| && order[i] == Some(p[0])
    ensures Some(p[|p| - 1]) in order[..i]
  {
    ChainIsPath(tables, p);
    PathsDescend(Dependencies(tables), order, Defined(p), i);
  }

  lemma SortedNodesAreSortedTables(tables: seq<TableDescription>, order: seq<Option<TableDescription>>)
    requires UniqueNames(tables)
    requires NoDuplicates(order) && DependenciesFirst(Dependencies(tables), order)
    requires forall x :: x in order <==> Reachable(Dependencies(tables), Defined(tables), x)
    requires forall x :: x in order ==> x.Some?
    ensures IsSortedListing(tables, Values(order))
  {
    var s := Values(order);
    forall t
      ensures t in s <==> t in tables
    {
      SortedNodesListTables(tables, order, t);
    }
    forall i, t | 0 <= i < |s| && DependsTransitively(tables, s[i], t)
      ensures t in s[..i]
    {
      var p :| IsChain(tables, p) && |p| > 1 && p[0] == s[i] && p[|p| - 1] == t;
      SortedNodesOrderTables(tables, order, p, i);
      var k :| 0 <= k < i && order[k] == Some(t);
      assert s[k] == t;
    }
  }

  lemma ReachedTableIsATable(tables: seq<TableDescription>, q: seq<Option<TableDescription>>)
    requires IsPathFrom(Dependencies(tables), Defined(tables), q)
    requires q[|q| - 1].Some?
    ensures q[|q| - 1].value in tables
  {
    if |q| > 1 {
      assert q[|q| - 1] in Dependencies(tables)(q[|q| - 2]);
    } else {
      assert q[0] in Defined(tables);
    }
  }

  /** The nodes the sort can meet: every table, and the undefined node. */
  ghost function Universe(tables: seq<TableDescription>): set<Option<TableDescription>> {
    (set t | t in tables :: Some(t)) + {None}
  }

  lemma UniverseIsClosed(tables: seq<TableDescription>)
    requires UniqueNames(tables)
    ensures Closed(Dependencies(tables), Universe(tables)) && UniqueKeys(Name, Universe(tables))
    ensures forall e :: e in Defined(tables) ==> e in Universe(tables)
  {
    forall e, d | e in Universe(tables) && d in Dependencies(tables)(e)
      ensures d in Universe(tables)
    {
      if d.Some? {
        assert d.value in tables;
      }
    }
  }

  /** Throws exactly when some dependency names no table or tables depend on each other in a circle. */
  method GetSortedTables(tables: seq<TableDescription>) returns (outcome: Outcome<TableDescription>)
    requires UniqueNames(tables)
    ensures outcome.Sorted? ==> IsSortedListing(tables, outcome.order)
    ensures outcome.Thrown? <==> HasDependencyCycle(tables) || HasDanglingDependency(tables)
  {
    ThrowsExactlyWhen(tables);
    UniverseIsClosed(tables);
    var sorter := new TopologicalSort<string, Option<TableDescription>>();
    var nodes := sorter.Sort(Defined(tables), Name, Dependencies(tables), Universe(tables));
    if nodes.Thrown? {
      return Thrown;
    }
    forall x | x in nodes.order
      ensures x.Some?
    {
      assert Name(x).None? <==> x.None?;
    }
    SortedNodesAreSortedTables(tables, nodes.order);
    outcome := Sorted(Values(nodes.order));
  }
}

/** The periodic deleter: collect the rows marked as deleted table by table, in sorted order, then
    issue the deletions table by table in the reverse order. */
module PeriodicDeleter {
  import opened TopologicalSort
  import opened Tables
  import opened Wrappers

  type Row = map<string, string>

  datatype Deletion = Deletion(table: string, where: seq<(string, string)>)

  datatype Collected = Collected(table: string, deletions: seq<Deletion>)

  datatype Result<+T> = Ok(value: T) | Err

  /** The database as the deleter sees it: which tables exist, and the rows a table has marked
      through a deletion column (None when that query fails). */
  datatype Database = Database(existing: set<string>, marked: map<(string, string), seq<Row>>)

  function Cell(row: Row, column: string): string {
    if column in row then row[column] else "undefined"
  }

  function WhereClause(primaryKeys: seq<string>, row: Row): (r: seq<(string, string)>)
    ensures |r| == |primaryKeys|
    ensures forall i :: 0 <= i < |r| ==> r[i] == (primaryKeys[i], Cell(row, primaryKeys[i]))
  {
    if primaryKeys == [] then [] else [(primaryKeys[0], Cell(row, primaryKeys[0]))] + WhereClause(primaryKeys[1..], row)
  }

  /** The rows to delete from `t`; the query fails when the table exists but the column does not. */
  ghost predicate QueryFails(db: Database, t: TableDescription) {
    t.name in db.existing && t.deletionColumn.Some? && (t.name, t.deletionColumn.value) !in db.marked
  }

  ghost predicate ShouldDelete(db: Database, t: TableDescription, d: Deletion) {
    && t.name in db.existing && t.deletionColumn.Some?
    && (t.name, t.deletionColumn.value) in db.marked
    && exists row :: row in db.marked[(t.name, t.deletionColumn.value)]
                     && d == Deletion(t.name, WhereClause(t.primaryKeys, row))
  }

  // ----- What the deletions hit

  /** The row is one of those that the table has marked through its deletion column. */
  ghost predicate IsMarked(db: Database, t: TableDescription, row: Row) {
    && t.name in db.existing && t.deletionColumn.Some?
    && (t.name, t.deletionColumn.value) in db.marked && row in db.marked[(t.name, t.deletionColumn.value)]
  }

  ghost predicate HasKeys(t: TableDescription, row: Row) {
    forall k <- t.primaryKeys :: k in row
  }

  /** The database deletes a row of the table if it has all the values that the deletion asks for. */
  ghost predicate Selects(d: Deletion, row: Row) {
    forall i :: 0 <= i < |d.where| ==> d.where[i].0 in row && row[d.where[i].0] == d.where[i].1
  }

  ghost predicate SameKeys(t: TableDescription, row: Row, other: Row) {
    forall k <- t.primaryKeys :: k in row && k in other && row[k] == other[k]
  }

  /** Every marked row that has its keys is hit. */
  ghost predicate HitsAllMarked(db: Database, t: TableDescription, deletions: seq<Deletion>) {
    forall row :: IsMarked(db, t, row) && HasKeys(t, row) ==> exists d <- deletions :: d.table == t.name && Selects(d, row)
  }

  /** Nothing but the marked rows is hit, as far as the keys of the table tell rows apart. */
  ghost predicate HitsOnlyMarked(db: Database, t: TableDescription, deletions: seq<Deletion>) {
    (forall m :: IsMarked(db, t, m) ==> HasKeys(t, m)) ==>
      forall d, row :: d in deletions && d.table == t.name && Selects(d, row) ==>
        exists m :: IsMarked(db, t, m) && SameKeys(t, row, m)
  }

  lemma MarkedRowIsHit(db: Database, t: TableDescription, row: Row)
    requires IsMarked(db, t, row) && HasKeys(t, row)
    ensures var d := Deletion(t.name, WhereClause(t.primaryKeys, row)); ShouldDelete(db, t, d) && Selects(d, row)
  {
  }

  lemma HitRowIsMarked(db: Database, t: TableDescription, d: Deletion, row: Row)
    requires ShouldDelete(db, t, d) && Selects(d, row)
    requires forall m :: IsMarked(db, t, m) ==> HasKeys(t, m)
    ensures exists m :: IsMarked(db, t, m) && SameKeys(t, row, m)
  {
    var m :| m in db.marked[(t.name, t.deletionColumn.value)] && d == Deletion(t.name, WhereClause(t.primaryKeys, m));
    assert IsMarked(db, t, m);
    forall k | k in t.primaryKeys
      ensures k in row && k in m && row[k] == m[k]
    {
      var i :| 0 <= i < |t.primaryKeys| && t.primaryKeys[i] == k;
      assert d.where[i] == (k, m[k]);
    }
    assert SameKeys(t, row, m);
  }

  /** Deletions that are, for this table, those due to it hit exactly what they should. */
  lemma DueDeletionsHit(db: Database, t: TableDescription, deletions: seq<Deletion>)
    requires forall d :: d in deletions && d.table == t.name <==> ShouldDelete(db, t, d)
    ensures HitsAllMarked(db, t, deletions) && HitsOnlyMarked(db, t, deletions)
  {
    forall row | IsMarked(db, t, row) && HasKeys(t, row)
      ensures exists d <- deletions :: d.table == t.name && Selects(d, row)
    {
      MarkedRowIsHit(db, t, row);
      assert Deletion(t.name, WhereClause(t.primaryKeys, row)) in deletions;
    }
    if forall m :: IsMarked(db, t, m) ==> HasKeys(t, m) {
      forall d, row | d in deletions && d.table == t.name && Selects(d, row)
        ensures exists m :: IsMarked(db, t, m) && SameKeys(t, row, m)
      {
        HitRowIsMarked(db, t, d, row);
      }
    }
  }

  method CollectRowsToBeDeleted(db: Database, t: TableDescription) returns (r: Result<Collected>)
    ensures r.Err? <==> QueryFails(db, t)
    ensures r.Ok? ==> r.value.table == t.name
    ensures r.Ok? ==> forall d :: d in r.value.deletions <==> ShouldDelete(db, t, d)
    ensures r.Ok? ==> HitsAllMarked(db, t, r.value.deletions) && HitsOnlyMarked(db, t, r.value.deletions)
  {
    if t.name !in db.existing || t.deletionColumn.None? {
      return Ok(Collected(t.name, []));
    }
    var column := t.deletionColumn.value;
    if (t.name, column) !in db.marked {
      return Err;
    }
    var rows := db.marked[(t.name, column)];
    var deletions: seq<Deletion> := [];
    for i := 0 to |rows|
      invariant |deletions| == i
      invariant forall j :: 0 <= j < i ==> deletions[j] == Deletion(t.name, WhereClause(t.primaryKeys, rows[j]))
    {
      deletions := deletions + [Deletion(t.name, WhereClause(t.primaryKeys, rows[i]))];
    }
    forall d | d in deletions
      ensures ShouldDelete(db, t, d)
    {
      var j :| 0 <= j < |deletions| && deletions[j] == d;
      assert rows[j] in rows;
    }
    forall d | ShouldDelete(db, t, d)
      ensures d in deletions
    {
      var row :| row in rows && d == Deletion(t.name, WhereClause(t.primaryKeys, row));
      var j :| 0 <= j < |rows| && rows[j] == row;
      assert deletions[j] == d;
    }
    DueDeletionsHit(db, t, deletions);
    r := Ok(Collected(t.name, deletions));
  }

  /** No deletion for a table comes after one for a table it depends on. */
  ghost predicate DependentsFirst(tables: seq<TableDescription>, issued: seq<Deletion>) {
    forall a, b, i, j | 0 <= i < |issued| && 0 <= j < |issued| && DependsTransitively(tables, a, b) ::
      issued[i].table == a.name && issued[j].table == b.name ==> i < j
  }

  ghost predicate CollectedFor(db: Database, t: TableDescription, c: Collected) {
    && (forall d :: d in c.deletions <==> ShouldDelete(db, t, d))
    && !QueryFails(db, t)
  }

  /** The deletions are for the tables of `s` from index `low` on, later tables first. */
  ghost predicate InReverse(s: seq<TableDescription>, low: nat, issued: seq<Deletion>) {
    && (forall d :: d in issued ==> exists k :: low <= k < |s| && s[k].name == d.table)
    && (forall i, j, a, b | 0 <= i < j < |issued| && 0 <= a < |s| && 0 <= b < |s| ::
          issued[i].table == s[a].name && issued[j].table == s[b].name ==> b <= a)
  }

  lemma AppendInReverse(s: seq<TableDescription>, low: nat, issued: seq<Deletion>, more: seq<Deletion>)
    requires UniqueNames(s) && low < |s|
    requires InReverse(s, low + 1, issued)
    requires forall d :: d in more ==> d.table == s[low].name
    ensures InReverse(s, low, issued + more)
  {
    var all := issued + more;
    forall i, j, a, b | 0 <= i < j < |all| && 0 <= a < |s| && 0 <= b < |s|
                        && all[i].table == s[a].name && all[j].table == s[b].name
      ensures b <= a
    {
      if j >= |issued| {
        assert all[j] in more;
        assert b == low;
        if i < |issued| {
          assert all[i] in issued;
          var k :| low + 1 <= k < |s| && s[k].name == all[i].table;
          assert k == a;
        } else {
          assert all[i] in more;
        }
      }
    }
  }

  lemma LaterTableComesFirst(s: seq<TableDescription>, issued: seq<Deletion>, m: nat, n: nat, i: nat, j: nat)
    requires UniqueNames(s) && InReverse(s, 0, issued)
    requires n < m < |s| && i < |issued| && j < |issued|
    requires issued[i].table == s[m].name && issued[j].table == s[n].name
    ensures i < j
  {
    assert s[n].name != s[m].name;
  }

  lemma ReverseOfSortedPutsDependentsFirst(tables: seq<TableDescription>, s: seq<TableDescription>, issued: seq<Deletion>)
    requires IsSortedListing(tables, s) && UniqueNames(s)
    requires InReverse(s, 0, issued)
    ensures DependentsFirst(tables, issued)
  {
    forall a, b, i, j | 0 <= i < |issued| && 0 <= j < |issued| && DependsTransitively(tables, a, b)
                        && issued[i].table == a.name && issued[j].table == b.name
      ensures i < j
    {
      DependentIsListed(tables, a, b);
      var m :| 0 <= m < |s| && s[m] == a;
      var n :| 0 <= n < m && s[n] == b;
      LaterTableComesFirst(s, issued, m, n, i, j);
    }
  }

  lemma DependentIsListed(tables: seq<TableDescription>, a: TableDescription, b: TableDescription)
    requires DependsTransitively(tables, a, b)
    ensures a in tables
  {
    var p :| IsChain(tables, p) && |p| > 1 && p[0] == a && p[|p| - 1] == b;
  }

  lemma ListingHasUniqueNames(tables: seq<TableDescription>, s: seq<TableDescription>)
    requires UniqueNames(tables) && NoDuplicates(s)
    requires forall t :: t in s ==> t in tables
    ensures UniqueNames(s)
  {
    forall i, j | 0 <= i < j < |s|
      ensures s[i].name != s[j].name
    {
      assert s[i] in s && s[j] in s;
      var a :| 0 <= a < |tables| && tables[a] == s[i];
      var b :| 0 <= b < |tables| && tables[b] == s[j];
    }
  }

  lemma AllDueDeletionsHit(db: Database, tables: seq<TableDescription>, issued: seq<Deletion>)
    requires UniqueNames(tables)
    requires forall d :: d in issued <==> exists t :: t in tables && ShouldDelete(db, t, d)
    ensures forall t <- tables :: HitsAllMarked(db, t, issued) && HitsOnlyMarked(db, t, issued)
  {
    forall t | t in tables
      ensures HitsAllMarked(db, t, issued) && HitsOnlyMarked(db, t, issued)
    {
      forall d
        ensures d in issued && d.table == t.name <==> ShouldDelete(db, t, d)
      {
        if d in issued && d.table == t.name {
          var u :| u in tables && ShouldDelete(db, u, d);
          FindIsUnique(tables, t);
          FindIsUnique(tables, u);
        }
      }
      DueDeletionsHit(db, t, issued);
    }
  }

  /** One round: fails, issuing nothing, exactly when the tables cannot be sorted or a query for marked
      rows fails; otherwise issues a deletion for every marked row and nothing else, dependents first. */
  method DoSync(db: Database, tables: seq<TableDescription>) returns (issued: Result<seq<Deletion>>)
    requires UniqueNames(tables)
    ensures issued.Err? <==> HasDependencyCycle(tables) || HasDanglingDependency(tables)
                             || exists t :: t in tables && QueryFails(db, t)
    ensures issued.Ok? ==> forall d :: d in issued.value <==> exists t :: t in tables && ShouldDelete(db, t, d)
    ensures issued.Ok? ==> forall t <- tables :: HitsAllMarked(db, t, issued.value) && HitsOnlyMarked(db, t, issued.value)
    ensures issued.Ok? ==> DependentsFirst(tables, issued.value)
  {
    var outcome := GetSortedTables(tables);
    if outcome.Thrown? {
      return Err;
    }
    var sortedTables := outcome.order;
    ListingHasUniqueNames(tables, sortedTables);
    var toBeDeleted: seq<Collected> := [];
    for i := 0 to |sortedTables|
      invariant |toBeDeleted| == i
      invariant forall k :: 0 <= k < i ==> CollectedFor(db, sortedTables[k], toBeDeleted[k])
    {
      var collected := CollectRowsToBeDeleted(db, sortedTables[i]);
      if collected.Err? {
        return Err;
      }
      toBeDeleted := toBeDeleted + [collected.value];
    }
    var pending: seq<Deletion> := [];
    var i := |toBeDeleted|;
    while i > 0
      invariant 0 <= i <= |toBeDeleted|
      invariant forall d :: d in pending ==> exists k :: i <= k < |toBeDeleted| && d in toBeDeleted[k].deletions
      invariant forall k, d :: i <= k < |toBeDeleted| && d in toBeDeleted[k].deletions ==> d in pending
      invariant InReverse(sortedTables, i, pending)
    {
      i := i - 1;
      var deletions := toBeDeleted[i].deletions;
      AppendInReverse(sortedTables, i, pending, deletions);
      pending := pending + deletions;
    }
    ReverseOfSortedPutsDependentsFirst(tables, sortedTables, pending);
    AllDueDeletionsHit(db, tables, pending);
    issued := Ok(pending);
  }
}
