/** Slices of strings that share backing arrays: appending writes into spare capacity when there is any. */
module GoSlices {

  datatype Slice = Slice(arr: array<string>, len: nat) {
    ghost predicate Valid()
      reads arr
    {
      len <= arr.Length
    }

    ghost function Contents(): seq<string>
      requires Valid()
      reads arr
    {
      arr[..len]
    }
  }

  /** Whatever the capacity, the result reads as expected and the elements of `s` stay what they were; but
      anything that another slice holds beyond `s` in the same array may be overwritten. */
  method Append(s: Slice, x: string) returns (r: Slice)
    requires s.Valid()
    modifies s.arr
    ensures r.Valid() && r.Contents() == old(s.Contents()) + [x]
    ensures s.Contents() == old(s.Contents())
    ensures r.arr == s.arr || fresh(r.arr)
    ensures r.arr == s.arr ==> r.len == s.len + 1
  {
    if s.len < s.arr.Length {
      s.arr[s.len] := x;
      r := Slice(s.arr, s.len + 1);
    } else {
      var capacity: nat := *;
      if capacity <= s.len {
        capacity := s.len + 1;
      }
      var grown := new string[capacity](_ => "");
      for i := 0 to s.len
        invariant s.arr[..] == old(s.arr[..])
        invariant forall j :: 0 <= j < i ==> grown[j] == s.arr[j]
      {
        grown[i] := s.arr[i];
      }
      grown[s.len] := x;
      r := Slice(grown, s.len + 1);
    }
  }
}

/** Workspace initializers, the walk over them, and what its visitors make of the passwords in them. */
module Initializers {
  import opened GoSlices
  import Strings

  class GitInitializer {
    var authPassword: string
    const checkoutLocation: string

    constructor (authPassword: string, checkoutLocation: string) {
      this.authPassword, this.checkoutLocation := authPassword, checkoutLocation;
    }
  }

  /** `Nil` is a missing initializer, `Unset` one without a specification. Git initializers are shared by reference. */
  datatype Initializer =
    | Nil
    | Unset
    | Empty
    | Git(git: GitInitializer)
    | Snapshot
    | Prebuild(gits: seq<GitInitializer>)
    | Composite(initializers: seq<Initializer>)
    | Download
    | Backup(checkoutLocation: string)

  const EXTRACTED_SECRET_PREFIX := "extracted-secret/"

  function DigitChar(d: nat): char
    requires d < 10
  {
    ('0' as int + d) as char
  }

  function Itoa(n: nat): (s: string)
    ensures s != "" && Strings.Free(s, '.')
  {
    if n < 10 then [DigitChar(n)] else Itoa(n / 10) + [DigitChar(n % 10)]
  }

  lemma {:induction false} ItoaIsInjective(m: nat, n: nat)
    requires Itoa(m) == Itoa(n)
    ensures m == n
  {
    var s := Itoa(m);
    assert |s| == 1 <==> m < 10;
    assert |s| == 1 <==> n < 10;
    assert s[|s| - 1] == DigitChar(m % 10) && s[|s| - 1] == DigitChar(n % 10);
    if m >= 10 {
      assert s[..|s| - 1] == Itoa(m / 10) && s[..|s| - 1] == Itoa(n / 10);
      ItoaIsInjective(m / 10, n / 10);
    }
  }

  /** The digits are those of the number, without zeros in front. */
  lemma {:induction false} ItoaIsDecimal(n: nat)
    ensures Strings.Decimal(Itoa(n)) == n && (n > 0 ==> Itoa(n)[0] != '0')
  {
    var s := Itoa(n);
    if n >= 10 {
      ItoaIsDecimal(n / 10);
      assert s[..|s| - 1] == Itoa(n / 10);
    } else {
      assert s[..0] == "";
      assert Strings.Decimal(s[..0]) == 0;
    }
  }

  // ----- The walk as a list of visits

  datatype Visit = Visit(path: seq<string>, node: Initializer) {
    function Name(): string {
      Strings.Join(path, '.')
    }
  }

  /** The nodes in the order of the walk, each with its path from the root. A node without a specification
      stands in the list where the walk gives up. */
  function Visits(init: Initializer, path: seq<string>): seq<Visit>
    decreases init, 1
  {
    match init
    case Nil => []
    case Unset => [Visit(path, init)]
    case Empty => [Visit(path + ["empty"], init)]
    case Git(_) => [Visit(path + ["git"], init)]
    case Snapshot => [Visit(path + ["snapshot"], init)]
    case Prebuild(gits) => [Visit(path + ["prebuild"], init)] + GitVisits(gits, path + ["prebuild"], 0)
    case Composite(inits) => [Visit(path + ["composite"], init)] + ListVisits(inits, path + ["composite"], 0)
    case Download => [Visit(path + ["download"], init)]
    case Backup(_) => [Visit(path + ["backup"], init)]
  }

  /** The path element a node adds. */
  function Kind(init: Initializer): string {
    match init
    case Nil => "" case Unset => ""
    case Empty => "empty" case Git(_) => "git" case Snapshot => "snapshot"
    case Prebuild(_) => "prebuild" case Composite(_) => "composite"
    case Download => "download" case Backup(_) => "backup"
  }

  function GitVisits(gits: seq<GitInitializer>, path: seq<string>, i: nat): seq<Visit> {
    if gits == [] then []
    else [Visit(path + [Itoa(i)] + ["git"], Git(gits[0]))] + GitVisits(gits[1..], path, i + 1)
  }

  function ListVisits(inits: seq<Initializer>, path: seq<string>, i: nat): seq<Visit>
    decreases inits, 0
  {
    if inits == [] then []
    else Visits(inits[0], path + [Itoa(i)]) + ListVisits(inits[1..], path, i + 1)
  }

  // ----- What a tree holds, by its structure

  /** The git initializers of a tree: its own, those of its prebuilds, and those of its children. */
  ghost predicate Holds(init: Initializer, g: GitInitializer) {
    match init
    case Git(h) => h == g
    case Prebuild(gits) => g in gits
    case Composite(inits) => exists i :: 0 <= i < |inits| && Holds(inits[i], g)
    case _ => false
  }

  /** No node lacks a specification. */
  ghost predicate Specified(init: Initializer) {
    match init
    case Unset => false
    case Composite(inits) => forall i :: 0 <= i < |inits| ==> Specified(inits[i])
    case _ => true
  }

  /** The checkout locations of a tree, in the order in which they stand in it. */
  function LocationsIn(init: Initializer): seq<string>
    decreases init, 1
  {
    match init
    case Git(g) => [g.checkoutLocation]
    case Backup(l) => [l]
    case Prebuild(gits) => seq(|gits|, i requires 0 <= i < |gits| => gits[i].checkoutLocation)
    case Composite(inits) => LocationsInAll(inits)
    case _ => []
  }

  function LocationsInAll(inits: seq<Initializer>): seq<string>
    decreases inits, 0
  {
    if inits == [] then [] else LocationsIn(inits[0]) + LocationsInAll(inits[1..])
  }

  ghost predicate VisitsGit(visits: seq<Visit>, g: GitInitializer) {
    exists i :: 0 <= i < |visits| && visits[i].node == Git(g)
  }

  ghost predicate NoneUnset(visits: seq<Visit>) {
    forall i :: 0 <= i < |visits| ==> !visits[i].node.Unset?
  }

  lemma VisitsOfBoth(a: seq<Visit>, b: seq<Visit>, g: GitInitializer)
    ensures VisitsGit(a + b, g) <==> VisitsGit(a, g) || VisitsGit(b, g)
  {
    var all := a + b;
    if i :| 0 <= i < |a| && a[i].node == Git(g) {
      assert all[i].node == Git(g);
    }
    if i :| 0 <= i < |b| && b[i].node == Git(g) {
      assert all[|a| + i].node == Git(g);
    }
  }

  lemma NoneUnsetOfBoth(a: seq<Visit>, b: seq<Visit>)
    ensures NoneUnset(a + b) <==> NoneUnset(a) && NoneUnset(b)
  {
    var all := a + b;
    if NoneUnset(all) {
      assert forall i :: 0 <= i < |a| ==> a[i] == all[i];
      assert forall i :: 0 <= i < |b| ==> b[i] == all[|a| + i];
    }
  }

  lemma {:induction false} GitVisitsAreSpecified(gits: seq<GitInitializer>, path: seq<string>, i: nat)
    ensures NoneUnset(GitVisits(gits, path, i))
  {
    if gits != [] {
      GitVisitsAreSpecified(gits[1..], path, i + 1);
      NoneUnsetOfBoth([Visit(path + [Itoa(i)] + ["git"], Git(gits[0]))], GitVisits(gits[1..], path, i + 1));
    }
  }

  lemma {:induction false} ListVisitsAreSpecified(inits: seq<Initializer>, path: seq<string>, i: nat)
    ensures NoneUnset(ListVisits(inits, path, i)) <==> forall k :: 0 <= k < |inits| ==> Specified(inits[k])
    decreases inits, 0
  {
    if inits != [] {
      VisitsAreSpecified(inits[0], path + [Itoa(i)]);
      ListVisitsAreSpecified(inits[1..], path, i + 1);
      NoneUnsetOfBoth(Visits(inits[0], path + [Itoa(i)]), ListVisits(inits[1..], path, i + 1));
      assert forall k :: 0 < k < |inits| ==> inits[k] == inits[1..][k - 1];
    }
  }

  /** A walk comes to a node without a specification exactly if the tree has one. */
  lemma {:induction false} VisitsAreSpecified(init: Initializer, path: seq<string>)
    ensures NoneUnset(Visits(init, path)) <==> Specified(init)
    decreases init, 1
  {
    match init
    case Prebuild(gits) =>
      GitVisitsAreSpecified(gits, path + ["prebuild"], 0);
      NoneUnsetOfBoth([Visit(path + ["prebuild"], init)], GitVisits(gits, path + ["prebuild"], 0));
    case Composite(inits) =>
      ListVisitsAreSpecified(inits, path + ["composite"], 0);
      NoneUnsetOfBoth([Visit(path + ["composite"], init)], ListVisits(inits, path + ["composite"], 0));
    case Unset => assert Visits(init, path)[0].node.Unset?;
    case _ =>
  }

  lemma {:induction false} GitVisitsHold(gits: seq<GitInitializer>, path: seq<string>, i: nat, g: GitInitializer)
    ensures VisitsGit(GitVisits(gits, path, i), g) <==> g in gits
  {
    if gits != [] {
      GitVisitsHold(gits[1..], path, i + 1, g);
      var v := Visit(path + [Itoa(i)] + ["git"], Git(gits[0]));
      VisitsOfBoth([v], GitVisits(gits[1..], path, i + 1), g);
      assert VisitsGit([v], g) <==> gits[0] == g by {
        assert [v][0].node == Git(gits[0]);
      }
      assert gits == [gits[0]] + gits[1..];
    }
  }

  lemma {:induction false} ListVisitsHold(inits: seq<Initializer>, path: seq<string>, i: nat, g: GitInitializer)
    ensures VisitsGit(ListVisits(inits, path, i), g) <==> exists k :: 0 <= k < |inits| && Holds(inits[k], g)
    decreases inits, 0
  {
    if inits != [] {
      VisitsHold(inits[0], path + [Itoa(i)], g);
      ListVisitsHold(inits[1..], path, i + 1, g);
      VisitsOfBoth(Visits(inits[0], path + [Itoa(i)]), ListVisits(inits[1..], path, i + 1), g);
      SomeOfAll(inits, g);
    }
  }

  lemma SomeOfAll(inits: seq<Initializer>, g: GitInitializer)
    requires inits != []
    ensures (exists k :: 0 <= k < |inits| && Holds(inits[k], g)) <==>
              Holds(inits[0], g) || exists k :: 0 <= k < |inits[1..]| && Holds(inits[1..][k], g)
  {
    var rest := inits[1..];
    if k :| 0 <= k < |rest| && Holds(rest[k], g) {
      assert Holds(inits[k + 1], g);
    }
    if k :| 0 < k < |inits| && Holds(inits[k], g) {
      assert Holds(rest[k - 1], g);
    }
  }

  /** A walk comes to all git initializers of the tree, and to no others, wherever they are. */
  lemma {:induction false} VisitsHold(init: Initializer, path: seq<string>, g: GitInitializer)
    ensures VisitsGit(Visits(init, path), g) <==> Holds(init, g)
    decreases init, 1
  {
    var visits := Visits(init, path);
    match init
    case Prebuild(gits) =>
      GitVisitsHold(gits, path + ["prebuild"], 0, g);
      VisitsOfBoth([Visit(path + ["prebuild"], init)], GitVisits(gits, path + ["prebuild"], 0), g);
    case Composite(inits) =>
      ListVisitsHold(inits, path + ["composite"], 0, g);
      VisitsOfBoth([Visit(path + ["composite"], init)], ListVisits(inits, path + ["composite"], 0), g);
    case Nil =>
    case _ => assert visits[0].node == init;
  }

  // ----- Distinct nodes have distinct paths and names

  ghost predicate Below(v: Visit, path: seq<string>) {
    path <= v.path
  }

  ghost predicate DotFree(path: seq<string>) {
    forall i :: 0 <= i < |path| ==> Strings.Free(path[i], '.')
  }

  ghost predicate DistinctPaths(visits: seq<Visit>) {
    forall i, j :: 0 <= i < j < |visits| ==> visits[i].path != visits[j].path
  }

  /** All visits lie below `path`, through an index not smaller than `i`. */
  ghost predicate BelowIndex(v: Visit, path: seq<string>, i: nat) {
    |v.path| > |path| && path <= v.path && exists k: nat :: i <= k && v.path[|path|] == Itoa(k)
  }

  lemma {:induction false} VisitsLieBelow(init: Initializer, path: seq<string>)
    ensures forall v :: v in Visits(init, path) ==> Below(v, path) && (DotFree(path) ==> DotFree(v.path))
    decreases init, 1
  {
    match init
    case Prebuild(gits) => GitVisitsLieBelow(gits, path + ["prebuild"], 0);
    case Composite(inits) => ListVisitsLieBelow(inits, path + ["composite"], 0);
    case _ =>
  }

  lemma {:induction false} GitVisitsLieBelow(gits: seq<GitInitializer>, path: seq<string>, i: nat)
    ensures forall v :: v in GitVisits(gits, path, i) ==> BelowIndex(v, path, i) && (DotFree(path) ==> DotFree(v.path))
  {
    if gits != [] {
      GitVisitsLieBelow(gits[1..], path, i + 1);
      var v := Visit(path + [Itoa(i)] + ["git"], Git(gits[0]));
      assert v.path[|path|] == Itoa(i);
      assert BelowIndex(v, path, i);
    }
  }

  lemma {:induction false} ListVisitsLieBelow(inits: seq<Initializer>, path: seq<string>, i: nat)
    ensures forall v :: v in ListVisits(inits, path, i) ==> BelowIndex(v, path, i) && (DotFree(path) ==> DotFree(v.path))
    decreases inits, 0
  {
    if inits != [] {
      VisitsLieBelow(inits[0], path + [Itoa(i)]);
      ListVisitsLieBelow(inits[1..], path, i + 1);
      forall v | v in Visits(inits[0], path + [Itoa(i)])
        ensures BelowIndex(v, path, i)
      {
        assert v.path[|path|] == (path + [Itoa(i)])[|path|];
      }
    }
  }

  lemma {:induction false} VisitsAreDistinct(init: Initializer, path: seq<string>)
    ensures DistinctPaths(Visits(init, path))
    decreases init, 1
  {
    match init
    case Prebuild(gits) =>
      GitVisitsAreDistinct(gits, path + ["prebuild"], 0);
      GitVisitsLieBelow(gits, path + ["prebuild"], 0);
    case Composite(inits) =>
      ListVisitsAreDistinct(inits, path + ["composite"], 0);
      ListVisitsLieBelow(inits, path + ["composite"], 0);
    case _ =>
  }

  lemma {:induction false} GitVisitsAreDistinct(gits: seq<GitInitializer>, path: seq<string>, i: nat)
    ensures DistinctPaths(GitVisits(gits, path, i))
  {
    if gits != [] {
      GitVisitsAreDistinct(gits[1..], path, i + 1);
      GitVisitsLieBelow(gits[1..], path, i + 1);
      var v, rest := Visit(path + [Itoa(i)] + ["git"], Git(gits[0])), GitVisits(gits[1..], path, i + 1);
      forall w | w in rest
        ensures v.path != w.path
      {
        assert v.path[|path|] == Itoa(i);
        SiblingsDiffer(v, w, path, i);
      }
    }
  }

  lemma SiblingsDiffer(v: Visit, w: Visit, path: seq<string>, i: nat)
    requires |v.path| > |path| && v.path[|path|] == Itoa(i)
    requires BelowIndex(w, path, i + 1)
    ensures v.path != w.path
  {
    var k: nat :| i + 1 <= k && w.path[|path|] == Itoa(k);
    if v.path == w.path {
      ItoaIsInjective(i, k);
    }
  }

  lemma {:induction false} ListVisitsAreDistinct(inits: seq<Initializer>, path: seq<string>, i: nat)
    ensures DistinctPaths(ListVisits(inits, path, i))
    decreases inits, 0
  {
    if inits != [] {
      var child := path + [Itoa(i)];
      var first, rest := Visits(inits[0], child), ListVisits(inits[1..], path, i + 1);
      VisitsAreDistinct(inits[0], child);
      VisitsLieBelow(inits[0], child);
      ListVisitsAreDistinct(inits[1..], path, i + 1);
      ListVisitsLieBelow(inits[1..], path, i + 1);
      forall v, w | v in first && w in rest
        ensures v.path != w.path
      {
        assert v.path[|path|] == child[|path|];
        SiblingsDiffer(v, w, path, i);
      }
    }
  }

  ghost predicate DistinctNames(visits: seq<Visit>) {
    forall i, j :: 0 <= i < j < |visits| ==> visits[i].Name() != visits[j].Name()
  }

  /** No two nodes of a tree share a dot-joined name, so no secret is filed under the name of another. */
  lemma NamesAreDistinct(init: Initializer)
    ensures DistinctNames(Visits(init, ["initializer"]))
  {
    var visits := Visits(init, ["initializer"]);
    VisitsAreDistinct(init, ["initializer"]);
    VisitsLieBelow(init, ["initializer"]);
    forall i, j | 0 <= i < j < |visits|
      ensures visits[i].Name() != visits[j].Name()
    {
      assert visits[i] in visits && visits[j] in visits;
      if visits[i].Name() == visits[j].Name() {
        Strings.JoinIsInjective(visits[i].path, visits[j].path, '.');
      }
    }
  }

  // ----- What the visitors do, on values

  datatype Visitor = CheckoutLocations | Extract(replaceValue: bool) | Inject(secrets: map<string, string>)

  /** The passwords by node, the secrets collected and the checkout locations collected. */
  datatype State = State(passwords: map<GitInitializer, string>, secrets: map<string, string>, locations: seq<string>)

  predicate IsPlaceholder(password: string) {
    EXTRACTED_SECRET_PREFIX <= password
  }

  predicate IsSecret(password: string) {
    password != "" && !IsPlaceholder(password)
  }

  function Strip(password: string): string
    requires IsPlaceholder(password)
  {
    password[|EXTRACTED_SECRET_PREFIX|..]
  }

  /** One visit; false when the walk stops here with an error. */
  function Step(visitor: Visitor, v: Visit, s: State): (State, bool) {
    if v.node.Unset? then (s, false)
    else match visitor
      case CheckoutLocations =>
        (match v.node
         case Git(g) => s.(locations := s.locations + [g.checkoutLocation])
         case Backup(l) => s.(locations := s.locations + [l])
         case _ => s, true)
      case Extract(replaceValue) =>
        if v.node.Git? && v.node.git in s.passwords && IsSecret(s.passwords[v.node.git]) then
          var g := v.node.git;
          (State(if replaceValue then s.passwords[g := EXTRACTED_SECRET_PREFIX + v.Name()] else s.passwords,
                 s.secrets[v.Name() := s.passwords[g]], s.locations), true)
        else (s, true)
      case Inject(secrets) =>
        if v.node.Git? && v.node.git in s.passwords && IsPlaceholder(s.passwords[v.node.git]) then
          var g := v.node.git;
          var name := Strip(s.passwords[g]);
          if name in secrets then (s.(passwords := s.passwords[g := secrets[name]]), true) else (s, false)
        else (s, true)
  }

  /** A walk over the visits, up to the first error. */
  function Walk(visitor: Visitor, visits: seq<Visit>, s: State): (State, bool) {
    if visits == [] then (s, true)
    else
      var (s', ok) := Step(visitor, visits[0], s);
      if ok then Walk(visitor, visits[1..], s') else (s', false)
  }

  lemma {:induction false} WalkConcat(visitor: Visitor, a: seq<Visit>, b: seq<Visit>, s: State)
    ensures Walk(visitor, a + b, s) ==
            if Walk(visitor, a, s).1 then Walk(visitor, b, Walk(visitor, a, s).0) else Walk(visitor, a, s)
  {
    if a == [] {
      assert a + b == b;
    } else {
      assert (a + b)[0] == a[0] && (a + b)[1..] == a[1..] + b;
      WalkConcat(visitor, a[1..], b, Step(visitor, a[0], s).0);
    }
  }

  /** The nodes whose passwords a walk can touch. */
  ghost predicate Covers(nodes: set<GitInitializer>, init: Initializer)
    decreases init, 1
  {
    match init
    case Git(g) => g in nodes
    case Prebuild(gits) => forall g :: g in gits ==> g in nodes
    case Composite(inits) => CoversAll(nodes, inits)
    case _ => true
  }

  ghost predicate CoversAll(nodes: set<GitInitializer>, inits: seq<Initializer>)
    decreases inits, 0
  {
    inits != [] ==> Covers(nodes, inits[0]) && CoversAll(nodes, inits[1..])
  }

  ghost function Passwords(nodes: set<GitInitializer>): map<GitInitializer, string>
    reads nodes
  {
    map g | g in nodes :: g.authPassword
  }

  // ----- The walk as it is carried out

  class Walker {
    const visitor: Visitor
    var secrets: map<string, string>
    var locations: seq<string>

    constructor (visitor: Visitor)
      ensures this.visitor == visitor && secrets == map[] && locations == []
    {
      this.visitor, secrets, locations := visitor, map[], [];
    }

    ghost function Now(nodes: set<GitInitializer>): State
      reads this, nodes
    {
      State(Passwords(nodes), secrets, locations)
    }

    /** The visitor reads the path out of the slice it is handed. */
    method VisitNode(path: Slice, init: Initializer, ghost nodes: set<GitInitializer>) returns (ok: bool)
      requires path.Valid() && Covers(nodes, init) && !init.Unset?
      modifies this, nodes
      ensures (Now(nodes), ok) == Step(visitor, Visit(path.Contents(), init), old(Now(nodes)))
    {
      ok := true;
      match visitor
      case CheckoutLocations =>
        if init.Git? {
          locations := locations + [init.git.checkoutLocation];
        } else if init.Backup? {
          locations := locations + [init.checkoutLocation];
        }
      case Extract(replaceValue) =>
        if !init.Git? {
          return true;
        }
        var pwd := init.git.authPassword;
        if pwd == "" || EXTRACTED_SECRET_PREFIX <= pwd {
          return true;
        }
        var name := Strings.Join(path.arr[..path.len], '.');
        secrets := secrets[name := pwd];
        if replaceValue {
          init.git.authPassword := EXTRACTED_SECRET_PREFIX + name;
          assert Passwords(nodes) == old(Passwords(nodes))[init.git := EXTRACTED_SECRET_PREFIX + name];
        }
      case Inject(values) =>
        if !init.Git? {
          return true;
        }
        var pwd := init.git.authPassword;
        if !(EXTRACTED_SECRET_PREFIX <= pwd) {
          return true;
        }
        var name := pwd[|EXTRACTED_SECRET_PREFIX|..];
        if name !in values {
          return false;
        }
        init.git.authPassword := values[name];
        assert Passwords(nodes) == old(Passwords(nodes))[init.git := values[name]];
    }

    /** The visits, and with them everything the visitor does, are those of the pure paths, although the
        slices handed out share and overwrite backing arrays. */
    method WalkInitializer(path: Slice, init: Initializer, ghost nodes: set<GitInitializer>) returns (ok: bool)
      requires path.Valid() && Covers(nodes, init)
      modifies this, nodes, path.arr
      ensures path.Contents() == old(path.Contents())
      ensures (Now(nodes), ok) == Walk(visitor, Visits(init, path.Contents()), old(Now(nodes)))
      decreases init, 1
    {
      match init
      case Nil => ok := true;
      case Unset => ok := false;
      case Prebuild(_) => ok := WalkPrebuild(path, init, nodes);
      case Composite(_) => ok := WalkComposite(path, init, nodes);
      case _ =>
        var child := Append(path, Kind(init));
        ok := VisitNode(child, init, nodes);
    }

    method WalkPrebuild(path: Slice, init: Initializer, ghost nodes: set<GitInitializer>) returns (ok: bool)
      requires path.Valid() && Covers(nodes, init) && init.Prebuild?
      modifies this, nodes, path.arr
      ensures path.Contents() == old(path.Contents())
      ensures (Now(nodes), ok) == Walk(visitor, Visits(init, path.Contents()), old(Now(nodes)))
      decreases init, 0
    {
      var child := Append(path, "prebuild");
      ok := VisitNode(child, init, nodes);
      if ok {
        ok := WalkGits(child, init.gits, nodes);
      }
    }

    method WalkComposite(path: Slice, init: Initializer, ghost nodes: set<GitInitializer>) returns (ok: bool)
      requires path.Valid() && Covers(nodes, init) && init.Composite?
      modifies this, nodes, path.arr
      ensures path.Contents() == old(path.Contents())
      ensures (Now(nodes), ok) == Walk(visitor, Visits(init, path.Contents()), old(Now(nodes)))
      decreases init, 0
    {
      var child := Append(path, "composite");
      ok := VisitNode(child, init, nodes);
      if ok {
        ok := WalkAll(child, init.initializers, nodes);
      }
    }

    /** The walk of a prebuild's git initializers, each one level below its index. */
    method WalkGits(path: Slice, gits: seq<GitInitializer>, ghost nodes: set<GitInitializer>) returns (ok: bool)
      requires path.Valid() && forall g :: g in gits ==> g in nodes
      modifies this, nodes, path.arr
      ensures path.Contents() == old(path.Contents())
      ensures (Now(nodes), ok) == Walk(visitor, GitVisits(gits, path.Contents(), 0), old(Now(nodes)))
    {
      ghost var prefix := path.Contents();
      for i := 0 to |gits|
        invariant path.Contents() == prefix
        invariant Walk(visitor, GitVisits(gits, prefix, 0), old(Now(nodes))) ==
                  Walk(visitor, GitVisits(gits[i..], prefix, i), Now(nodes))
      {
        ghost var before := Now(nodes);
        var item := Append(path, Itoa(i));
        assert path.Contents() == prefix && Now(nodes) == before;
        var leaf := Append(item, "git");
        assert item.arr == path.arr ==> path.Contents() == item.Contents()[..path.len];
        ok := VisitNode(leaf, Git(gits[i]), nodes);
        assert gits[i..][1..] == gits[i + 1..];
        if !ok {
          return;
        }
      }
      ok := true;
    }

    method WalkAll(path: Slice, inits: seq<Initializer>, ghost nodes: set<GitInitializer>) returns (ok: bool)
      requires path.Valid() && CoversAll(nodes, inits)
      modifies this, nodes, path.arr
      ensures path.Contents() == old(path.Contents())
      ensures (Now(nodes), ok) == Walk(visitor, ListVisits(inits, path.Contents(), 0), old(Now(nodes)))
      decreases inits, 0
    {
      ghost var prefix := path.Contents();
      for i := 0 to |inits|
        invariant path.Contents() == prefix
        invariant CoversAll(nodes, inits[i..])
        invariant Walk(visitor, ListVisits(inits, prefix, 0), old(Now(nodes))) ==
                  Walk(visitor, ListVisits(inits[i..], prefix, i), Now(nodes))
      {
        ghost var before := Now(nodes);
        var child := Append(path, Itoa(i));
        assert path.Contents() == prefix && Now(nodes) == before;
        assert inits[i..][1..] == inits[i + 1..];
        WalkConcat(visitor, Visits(inits[i], prefix + [Itoa(i)]), ListVisits(inits[i + 1..], prefix, i + 1), before);
        ok := WalkInitializer(child, inits[i], nodes);
        assert child.arr == path.arr ==> child.Contents()[..path.len] == path.Contents();
        if !ok {
          return;
        }
      }
      ok := true;
    }
  }
}
