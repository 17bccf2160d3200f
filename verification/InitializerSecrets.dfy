/** Gathering, extracting and injecting the secrets of an initializer, and how the three undo or repeat each other. */
module InitializerSecrets {
  import opened GoSlices
  import opened Initializers
  import Strings
  import opened Wrappers

  // ----- The entry points

  /** A fresh path that holds just the given element, with no capacity to spare. */
  method RootPath(root: seq<string>) returns (path: Slice)
    ensures path.Valid() && path.Contents() == root && fresh(path.arr)
  {
    var arr := new string[|root|](i requires 0 <= i < |root| => root[i]);
    path := Slice(arr, |root|);
  }

  method GetCheckoutLocations(init: Initializer, ghost nodes: set<GitInitializer>) returns (locations: seq<string>)
    requires Covers(nodes, init)
    modifies nodes
    ensures Passwords(nodes) == old(Passwords(nodes))
    ensures locations == Locations(Reached(Visits(init, [])))
    ensures Specified(init) ==> locations == LocationsIn(init)
  {
    var walker := new Walker(Visitor.CheckoutLocations);
    var path := RootPath([]);
    var ok := walker.WalkInitializer(path, init, nodes);
    LocationsCollected(Visits(init, []), State(old(Passwords(nodes)), map[], []));
    locations := walker.locations;
    if Specified(init) {
      SpecifiedIsReached(init, []);
      LocationsOfVisits(init, []);
    }
  }

  method ExtractSecrets(init: Initializer, replaceValue: bool, ghost nodes: set<GitInitializer>)
    returns (secrets: map<string, string>)
    requires Covers(nodes, init)
    modifies nodes
    ensures secrets == Extraction(init, replaceValue, old(Passwords(nodes))).secrets
    ensures Passwords(nodes) == Extraction(init, replaceValue, old(Passwords(nodes))).passwords
  {
    var walker := new Walker(Extract(replaceValue));
    var path := RootPath(["initializer"]);
    var ok := walker.WalkInitializer(path, init, nodes);
    secrets := walker.secrets;
  }

  method GatherSecretsFromInitializer(init: Initializer, ghost nodes: set<GitInitializer>)
    returns (secrets: map<string, string>)
    requires Covers(nodes, init)
    modifies nodes
    ensures secrets == Extraction(init, false, old(Passwords(nodes))).secrets
    ensures Passwords(nodes) == old(Passwords(nodes))
    ensures Specified(init) ==> forall g ::
              g in nodes && Holds(init, g) && g.authPassword != "" && !("extracted-secret/" <= g.authPassword) ==>
                exists n :: n in secrets && secrets[n] == g.authPassword
    ensures forall n :: n in secrets ==> exists g :: g in nodes && Holds(init, g) && secrets[n] == g.authPassword
  {
    GatheringCovers(init, Passwords(nodes));
    GatherKeepsPasswords(NamedVisits(init), State(Passwords(nodes), map[], []));
    secrets := ExtractSecrets(init, false, nodes);
  }

  method ExtractAndReplaceSecretsFromInitializer(init: Initializer, ghost nodes: set<GitInitializer>)
    returns (secrets: map<string, string>)
    requires Covers(nodes, init)
    modifies nodes
    ensures secrets == Extraction(init, true, old(Passwords(nodes))).secrets
    ensures Passwords(nodes) == Extraction(init, true, old(Passwords(nodes))).passwords
    ensures Specified(init) ==> forall g ::
              g in nodes && Holds(init, g) && old(g.authPassword) != "" && !("extracted-secret/" <= old(g.authPassword)) ==>
                && "extracted-secret/" <= g.authPassword && g.authPassword[17..] in secrets
                && secrets[g.authPassword[17..]] == old(g.authPassword)
    ensures forall g ::
              g in nodes && (!Holds(init, g) || old(g.authPassword) == "" || "extracted-secret/" <= old(g.authPassword)) ==>
                g.authPassword == old(g.authPassword)
    ensures forall n :: n in secrets ==> exists g :: g in nodes && Holds(init, g) && secrets[n] == old(g.authPassword)
  {
    ghost var before := Passwords(nodes);
    secrets := ExtractSecrets(init, true, nodes);
    ghost var after := Passwords(nodes);
    forall g | g in nodes
      ensures Specified(init) && Holds(init, g) && old(g.authPassword) != "" && !("extracted-secret/" <= old(g.authPassword)) ==>
                && "extracted-secret/" <= g.authPassword && g.authPassword[17..] in secrets
                && secrets[g.authPassword[17..]] == old(g.authPassword)
      ensures !Holds(init, g) || old(g.authPassword) == "" || "extracted-secret/" <= old(g.authPassword) ==>
                g.authPassword == old(g.authPassword)
    {
      ExtractionOf(init, before, g);
      assert before[g] == old(g.authPassword) && after[g] == g.authPassword;
    }
    FiledIsHeld(init, before);
    forall n | n in secrets
      ensures exists g :: g in nodes && Holds(init, g) && secrets[n] == old(g.authPassword)
    {
      var g :| g in before && Holds(init, g) && secrets[n] == before[g];
      assert g in nodes;
    }
  }

  method InjectSecretsToInitializer(init: Initializer, secrets: map<string, string>, ghost nodes: set<GitInitializer>)
    returns (ok: bool)
    requires Covers(nodes, init)
    modifies nodes
    ensures Passwords(nodes) == Injection(init, secrets, old(Passwords(nodes))).0
    ensures ok == Injection(init, secrets, old(Passwords(nodes))).1
    ensures forall g :: g in nodes && !(Holds(init, g) && "extracted-secret/" <= old(g.authPassword)) ==>
              g.authPassword == old(g.authPassword)
    ensures NoPlaceholders(secrets) ==>
              (ok <==> && Specified(init)
                       && forall g :: g in nodes && Holds(init, g) && "extracted-secret/" <= old(g.authPassword) ==>
                            old(g.authPassword)[17..] in secrets)
    ensures NoPlaceholders(secrets) && ok ==> forall g :: g in nodes && Holds(init, g) && "extracted-secret/" <= old(g.authPassword) ==>
              old(g.authPassword)[17..] in secrets && g.authPassword == secrets[old(g.authPassword)[17..]]
  {
    ghost var before := Passwords(nodes);
    var walker := new Walker(Inject(secrets));
    var path := RootPath(["initializer"]);
    ok := walker.WalkInitializer(path, init, nodes);
    InjectionCovers(init, secrets, before);
    ghost var after := Passwords(nodes);
    assert forall g :: g in nodes ==> before[g] == old(g.authPassword) && after[g] == g.authPassword;
  }

  function OwnLocations(node: Initializer): seq<string> {
    match node
    case Git(g) => [g.checkoutLocation]
    case Backup(l) => [l]
    case _ => []
  }

  /** The checkout locations of the visited git and backup initializers, in order. */
  function Locations(visits: seq<Visit>): seq<string> {
    if visits == [] then [] else OwnLocations(visits[0].node) + Locations(visits[1..])
  }

  lemma StepLocates(v: Visit, s: State)
    requires !v.node.Unset?
    ensures Step(Visitor.CheckoutLocations, v, s) == (s.(locations := s.locations + OwnLocations(v.node)), true)
  {
    assert s.locations + [] == s.locations;
  }

  lemma {:induction false} LocationsCollected(visits: seq<Visit>, s: State)
    ensures Walk(Visitor.CheckoutLocations, visits, s).0 == s.(locations := s.locations + Locations(Reached(visits)))
  {
    var reached := Reached(visits);
    if reached == [] {
      assert s.locations + [] == s.locations;
    } else {
      StepLocates(visits[0], s);
      var s' := s.(locations := s.locations + OwnLocations(visits[0].node));
      LocationsCollected(visits[1..], s');
      assert reached[1..] == Reached(visits[1..]);
      assert s'.locations + Locations(reached[1..]) == s.locations + Locations(reached);
    }
  }

  // ----- The same on values

  type PasswordMap = map<GitInitializer, string>

  function NamedVisits(init: Initializer): seq<Visit> {
    Visits(init, ["initializer"])
  }

  function Extraction(init: Initializer, replaceValue: bool, passwords: PasswordMap): State {
    Walk(Extract(replaceValue), NamedVisits(init), State(passwords, map[], [])).0
  }

  function Injection(init: Initializer, secrets: map<string, string>, passwords: PasswordMap): (PasswordMap, bool) {
    var (s, ok) := Walk(Inject(secrets), NamedVisits(init), State(passwords, map[], []));
    (s.passwords, ok)
  }

  /** The visits up to the first node without a specification, where every walk gives up. */
  function Reached(visits: seq<Visit>): seq<Visit> {
    if visits == [] || visits[0].node.Unset? then [] else [visits[0]] + Reached(visits[1..])
  }

  predicate Supported(visits: seq<Visit>) {
    Reached(visits) == visits
  }

  ghost predicate AllSet(visits: seq<Visit>) {
    forall v :: v in visits ==> !v.node.Unset?
  }

  lemma {:induction false} ReachedIsPrefix(visits: seq<Visit>)
    ensures Reached(visits) <= visits && AllSet(Reached(visits))
    ensures !Supported(visits) ==> |Reached(visits)| < |visits| && visits[|Reached(visits)|].node.Unset?
  {
    if visits != [] && !visits[0].node.Unset? {
      ReachedIsPrefix(visits[1..]);
      assert visits == [visits[0]] + visits[1..];
    }
  }

  /** A walk sees the reached visits only, and reports an error if that is not all of them. */
  lemma {:induction false} WalkStopsWhereUnsupported(visitor: Visitor, visits: seq<Visit>, s: State)
    ensures Walk(visitor, visits, s).0 == Walk(visitor, Reached(visits), s).0
    ensures Walk(visitor, visits, s).1 == (Walk(visitor, Reached(visits), s).1 && Supported(visits))
  {
    ReachedIsPrefix(visits);
    var r := Reached(visits);
    if !Supported(visits) {
      var rest := visits[|r|..];
      assert visits == r + rest;
      WalkConcat(visitor, r, rest, s);
    }
  }

  /** The name of the first visit of a node. */
  function NameOf(visits: seq<Visit>, g: GitInitializer): (r: Option<string>)
    ensures r.Some? ==> exists v :: v in visits && v.node == Git(g) && v.Name() == r.value
    ensures r.None? <==> forall v :: v in visits ==> v.node != Git(g)
  {
    if visits == [] then None
    else if visits[0].node == Git(g) then Some(visits[0].Name())
    else NameOf(visits[1..], g)
  }

  lemma NameOfTailIsNew(visits: seq<Visit>, g: GitInitializer)
    requires visits != [] && DistinctNames(visits)
    ensures NameOf(visits[1..], g) != Some(visits[0].Name())
  {
    if NameOf(visits[1..], g).Some? {
      var v :| v in visits[1..] && v.node == Git(g) && v.Name() == NameOf(visits[1..], g).value;
      var j :| 0 <= j < |visits[1..]| && visits[1..][j] == v;
      assert visits[j + 1] == v;
    }
  }

  /** What extraction does to each password: the secrets of visited nodes give way to placeholders with
      the name of the node's first visit. */
  ghost predicate Extracted(visits: seq<Visit>, before: PasswordMap, after: PasswordMap) {
    && after.Keys == before.Keys
    && forall g :: g in before ==>
         after[g] == if NameOf(visits, g).Some? && IsSecret(before[g])
                     then EXTRACTED_SECRET_PREFIX + NameOf(visits, g).value else before[g]
  }

  /** `n` is the name under which the secret of some visited node is filed. */
  ghost predicate NamesSecret(visits: seq<Visit>, passwords: PasswordMap, n: string) {
    exists g :: g in passwords && IsSecret(passwords[g]) && NameOf(visits, g) == Some(n)
  }

  /** The secrets of visited nodes are all there. */
  ghost predicate HoldsSecrets(visits: seq<Visit>, passwords: PasswordMap, secrets: map<string, string>) {
    forall g :: g in passwords && IsSecret(passwords[g]) && NameOf(visits, g).Some? ==>
      NameOf(visits, g).value in secrets && secrets[NameOf(visits, g).value] == passwords[g]
  }

  /** Whatever else is there was there before. */
  ghost predicate AddsOnlySecrets(visits: seq<Visit>, passwords: PasswordMap, earlier: map<string, string>, secrets: map<string, string>) {
    && (forall n :: n in secrets && !NamesSecret(visits, passwords, n) ==> n in earlier)
    && (forall n :: n in earlier ==> n in secrets)
    && (forall n :: n in earlier && !NamesSecret(visits, passwords, n) ==> secrets[n] == earlier[n])
  }

  lemma {:induction false} ExtractMeans(visits: seq<Visit>, s: State)
    requires AllSet(visits) && DistinctNames(visits)
    ensures var (r, ok) := Walk(Extract(true), visits, s);
            && ok && Extracted(visits, s.passwords, r.passwords)
            && HoldsSecrets(visits, s.passwords, r.secrets)
            && AddsOnlySecrets(visits, s.passwords, s.secrets, r.secrets)
  {
    if visits != [] {
      var s' := Step(Extract(true), visits[0], s).0;
      ExtractMeans(visits[1..], s');
      var r := Walk(Extract(true), visits, s).0;
      ExtractedHead(visits, s, s', r);
      CollectedHead(visits, s, s', r);
    }
  }

  predicate TakesSecret(v: Visit, passwords: PasswordMap) {
    v.node.Git? && v.node.git in passwords && IsSecret(passwords[v.node.git])
  }

  lemma StepTakes(v: Visit, s: State)
    requires !v.node.Unset?
    ensures var s' := Step(Extract(true), v, s).0;
            if TakesSecret(v, s.passwords) then
              s' == State(s.passwords[v.node.git := EXTRACTED_SECRET_PREFIX + v.Name()],
                          s.secrets[v.Name() := s.passwords[v.node.git]], s.locations)
              && !IsSecret(s'.passwords[v.node.git])
            else s' == s
  {
  }

  lemma ExtractedHead(visits: seq<Visit>, s: State, s': State, r: State)
    requires visits != [] && !visits[0].node.Unset?
    requires s' == Step(Extract(true), visits[0], s).0
    requires Extracted(visits[1..], s'.passwords, r.passwords)
    ensures Extracted(visits, s.passwords, r.passwords)
  {
    StepTakes(visits[0], s);
    forall g | g in s.passwords
      ensures r.passwords[g] == if NameOf(visits, g).Some? && IsSecret(s.passwords[g])
                                then EXTRACTED_SECRET_PREFIX + NameOf(visits, g).value else s.passwords[g]
    {
      if visits[0].node == Git(g) {
        assert NameOf(visits, g) == Some(visits[0].Name());
      } else {
        assert NameOf(visits, g) == NameOf(visits[1..], g);
        assert s'.passwords[g] == s.passwords[g];
      }
    }
  }

  lemma SecretOfHeadOrTail(visits: seq<Visit>, s: State, s': State, n: string)
    requires visits != [] && !visits[0].node.Unset?
    requires s' == Step(Extract(true), visits[0], s).0
    requires NamesSecret(visits, s.passwords, n)
    ensures NamesSecret(visits[1..], s'.passwords, n) || (TakesSecret(visits[0], s.passwords) && n == visits[0].Name())
  {
    StepTakes(visits[0], s);
    var g :| g in s.passwords && IsSecret(s.passwords[g]) && NameOf(visits, g) == Some(n);
    if visits[0].node != Git(g) {
      assert s'.passwords[g] == s.passwords[g] && NameOf(visits[1..], g) == Some(n);
    }
  }

  lemma SecretOfTail(visits: seq<Visit>, s: State, s': State, n: string)
    requires visits != [] && !visits[0].node.Unset?
    requires s' == Step(Extract(true), visits[0], s).0
    requires NamesSecret(visits[1..], s'.passwords, n)
    ensures NamesSecret(visits, s.passwords, n)
  {
    StepTakes(visits[0], s);
    var g :| g in s'.passwords && IsSecret(s'.passwords[g]) && NameOf(visits[1..], g) == Some(n);
    assert visits[0].node != Git(g);
    assert s'.passwords[g] == s.passwords[g] && NameOf(visits, g) == Some(n);
  }

  /** The first visit files its node's secret, if it has one; the others file what they would file after it. */
  lemma NamesSecretHead(visits: seq<Visit>, s: State, s': State, n: string)
    requires visits != [] && !visits[0].node.Unset?
    requires s' == Step(Extract(true), visits[0], s).0
    ensures NamesSecret(visits, s.passwords, n) <==>
            NamesSecret(visits[1..], s'.passwords, n) || (TakesSecret(visits[0], s.passwords) && n == visits[0].Name())
  {
    if NamesSecret(visits, s.passwords, n) {
      SecretOfHeadOrTail(visits, s, s', n);
    }
    if NamesSecret(visits[1..], s'.passwords, n) {
      SecretOfTail(visits, s, s', n);
    }
    if TakesSecret(visits[0], s.passwords) && n == visits[0].Name() {
      assert NameOf(visits, visits[0].node.git) == Some(n);
    }
  }

  lemma NameIsTakenOnce(visits: seq<Visit>, passwords: PasswordMap)
    requires visits != [] && DistinctNames(visits)
    ensures !NamesSecret(visits[1..], passwords, visits[0].Name())
  {
    forall g {
      NameOfTailIsNew(visits, g);
    }
  }

  lemma CollectedHead(visits: seq<Visit>, s: State, s': State, r: State)
    requires visits != [] && !visits[0].node.Unset? && DistinctNames(visits)
    requires s' == Step(Extract(true), visits[0], s).0
    requires HoldsSecrets(visits[1..], s'.passwords, r.secrets)
    requires AddsOnlySecrets(visits[1..], s'.passwords, s'.secrets, r.secrets)
    ensures HoldsSecrets(visits, s.passwords, r.secrets)
    ensures AddsOnlySecrets(visits, s.passwords, s.secrets, r.secrets)
  {
    StepTakes(visits[0], s);
    NameIsTakenOnce(visits, s'.passwords);
    forall n
      ensures NamesSecret(visits, s.passwords, n) <==>
              NamesSecret(visits[1..], s'.passwords, n) || (TakesSecret(visits[0], s.passwords) && n == visits[0].Name())
    {
      NamesSecretHead(visits, s, s', n);
    }
    forall g | g in s.passwords && IsSecret(s.passwords[g]) && NameOf(visits, g).Some?
      ensures NameOf(visits, g).value in r.secrets && r.secrets[NameOf(visits, g).value] == s.passwords[g]
    {
      if visits[0].node != Git(g) {
        assert s'.passwords[g] == s.passwords[g] && NameOf(visits[1..], g) == NameOf(visits, g);
      }
    }
  }

  /** How often a node is visited. */
  function Count(visits: seq<Visit>, g: GitInitializer): nat {
    if visits == [] then 0 else (if visits[0].node == Git(g) then 1 else 0) + Count(visits[1..], g)
  }

  /** A password after `n` visits: as long as it is a placeholder each of them replaces it by the secret it names, which
      may be a placeholder in its turn; nothing if such a secret is missing. */
  function Resolve(secrets: map<string, string>, password: string, n: nat): Option<string>
    decreases n
  {
    if n == 0 || !IsPlaceholder(password) then Some(password)
    else if Strip(password) in secrets then Resolve(secrets, secrets[Strip(password)], n - 1)
    else None
  }

  ghost predicate AllResolve(visits: seq<Visit>, secrets: map<string, string>, passwords: PasswordMap) {
    forall g :: g in passwords ==> Resolve(secrets, passwords[g], Count(visits, g)).Some?
  }

  /** What injection does: every node's password is resolved once for every visit of the node. */
  ghost predicate Injected(visits: seq<Visit>, secrets: map<string, string>, before: PasswordMap, after: PasswordMap) {
    && after.Keys == before.Keys
    && forall g :: g in before ==> Some(after[g]) == Resolve(secrets, before[g], Count(visits, g))
  }

  ghost predicate NoPlaceholders(secrets: map<string, string>) {
    forall n :: n in secrets ==> !IsPlaceholder(secrets[n])
  }

  lemma InjectStep(visits: seq<Visit>, secrets: map<string, string>, s: State, g: GitInitializer)
    requires visits != [] && !visits[0].node.Unset? && g in s.passwords
    ensures var (s', ok) := Step(Inject(secrets), visits[0], s);
            && s'.passwords.Keys == s.passwords.Keys
            && (ok ==> Resolve(secrets, s.passwords[g], Count(visits, g)) == Resolve(secrets, s'.passwords[g], Count(visits[1..], g)))
            && (!ok ==> visits[0].node.Git? && visits[0].node.git in s.passwords
                        && Resolve(secrets, s.passwords[visits[0].node.git], Count(visits, visits[0].node.git)).None?)
  {
  }

  lemma {:induction false} InjectMeans(visits: seq<Visit>, secrets: map<string, string>, s: State)
    requires AllSet(visits)
    ensures var (r, ok) := Walk(Inject(secrets), visits, s);
            && (ok <==> AllResolve(visits, secrets, s.passwords))
            && (ok ==> Injected(visits, secrets, s.passwords, r.passwords))
  {
    if visits != [] {
      var (s', ok) := Step(Inject(secrets), visits[0], s);
      forall g | g in s.passwords {
        InjectStep(visits, secrets, s, g);
      }
      if ok {
        InjectMeans(visits[1..], secrets, s');
      }
    }
  }

  lemma {:induction false} CountedIsNamed(visits: seq<Visit>, g: GitInitializer)
    ensures Count(visits, g) > 0 <==> NameOf(visits, g).Some?
  {
    if visits != [] {
      CountedIsNamed(visits[1..], g);
    }
  }

  /** A placeholder that is met names a secret. */
  ghost predicate AllFound(visits: seq<Visit>, secrets: map<string, string>, passwords: PasswordMap) {
    forall g :: g in passwords && NameOf(visits, g).Some? && IsPlaceholder(passwords[g]) ==> Strip(passwords[g]) in secrets
  }

  /** Every placeholder at a visited node has given way to the secret it names, and nothing else has changed. */
  ghost predicate InjectedOnce(visits: seq<Visit>, secrets: map<string, string>, before: PasswordMap, after: PasswordMap) {
    && after.Keys == before.Keys
    && forall g :: g in before ==>
         if NameOf(visits, g).Some? && IsPlaceholder(before[g])
         then Strip(before[g]) in secrets && after[g] == secrets[Strip(before[g])]
         else after[g] == before[g]
  }

  /** Secrets that are no placeholders resolve at once, however often their node is visited. */
  lemma ResolvesAtOnce(visits: seq<Visit>, secrets: map<string, string>, passwords: PasswordMap, after: PasswordMap)
    requires NoPlaceholders(secrets)
    ensures AllResolve(visits, secrets, passwords) <==> AllFound(visits, secrets, passwords)
    ensures Injected(visits, secrets, passwords, after) ==> InjectedOnce(visits, secrets, passwords, after)
  {
    forall g | g in passwords
      ensures Resolve(secrets, passwords[g], Count(visits, g)) ==
                if NameOf(visits, g).Some? && IsPlaceholder(passwords[g])
                then if Strip(passwords[g]) in secrets then Some(secrets[Strip(passwords[g])]) else None
                else Some(passwords[g])
    {
      CountedIsNamed(visits, g);
    }
  }

  /** Some reached node has a password that looks like a placeholder to begin with. */
  ghost predicate Marked(visits: seq<Visit>, passwords: PasswordMap) {
    exists g :: g in passwords && NameOf(Reached(visits), g).Some? && IsPlaceholder(passwords[g])
  }

  lemma {:induction false} GatherKeepsPasswords(visits: seq<Visit>, s: State)
    ensures Walk(Extract(false), visits, s).0.passwords == s.passwords
  {
    if visits != [] {
      GatherKeepsPasswords(visits[1..], Step(Extract(false), visits[0], s).0);
    }
  }

  // ----- What the entry points do to each other

  lemma ReachedNamesAreDistinct(init: Initializer)
    ensures DistinctNames(Reached(NamedVisits(init))) && AllSet(Reached(NamedVisits(init)))
  {
    NamesAreDistinct(init);
    ReachedIsPrefix(NamedVisits(init));
  }

  lemma ExtractionMeans(init: Initializer, passwords: PasswordMap)
    ensures var r := Extraction(init, true, passwords);
            var visits := Reached(NamedVisits(init));
            && Extracted(visits, passwords, r.passwords)
            && HoldsSecrets(visits, passwords, r.secrets)
            && (forall n :: n in r.secrets <==> NamesSecret(visits, passwords, n))
  {
    var s := State(passwords, map[], []);
    ReachedNamesAreDistinct(init);
    WalkStopsWhereUnsupported(Extract(true), NamedVisits(init), s);
    var visits := Reached(NamedVisits(init));
    ExtractMeans(visits, s);
    var r := Extraction(init, true, passwords);
    forall n | NamesSecret(visits, passwords, n)
      ensures n in r.secrets
    {
      var g :| g in passwords && IsSecret(passwords[g]) && NameOf(visits, g) == Some(n);
      assert NameOf(visits, g).Some?;
    }
  }

  /** Secrets are not placeholders, so a map of extracted secrets never holds one. */
  lemma ExtractedSecretsAreNoPlaceholders(init: Initializer, passwords: PasswordMap)
    ensures NoPlaceholders(Extraction(init, true, passwords).secrets)
  {
    ExtractionMeans(init, passwords);
    var r, visits := Extraction(init, true, passwords), Reached(NamedVisits(init));
    forall n | n in r.secrets
      ensures !IsPlaceholder(r.secrets[n])
    {
      var g :| g in passwords && IsSecret(passwords[g]) && NameOf(visits, g) == Some(n);
      assert r.secrets[NameOf(visits, g).value] == passwords[g];
    }
  }

  /** Whatever the secrets: injection succeeds exactly if every node's password resolves and no node lacks a
      specification; and the passwords that it leaves, if they all resolve, are the resolved ones. */
  lemma InjectionMeans(init: Initializer, secrets: map<string, string>, passwords: PasswordMap)
    ensures var (after, ok) := Injection(init, secrets, passwords);
            var visits := Reached(NamedVisits(init));
            && ok == (AllResolve(visits, secrets, passwords) && Supported(NamedVisits(init)))
            && (AllResolve(visits, secrets, passwords) ==> Injected(visits, secrets, passwords, after))
  {
    var s := State(passwords, map[], []);
    ReachedNamesAreDistinct(init);
    WalkStopsWhereUnsupported(Inject(secrets), NamedVisits(init), s);
    InjectMeans(Reached(NamedVisits(init)), secrets, s);
  }

  /** For secrets that are no placeholders themselves, as all extracted ones are. */
  lemma InjectionOfSecretsMeans(init: Initializer, secrets: map<string, string>, passwords: PasswordMap)
    requires NoPlaceholders(secrets)
    ensures var (after, ok) := Injection(init, secrets, passwords);
            var visits := Reached(NamedVisits(init));
            && ok == (AllFound(visits, secrets, passwords) && Supported(NamedVisits(init)))
            && (AllFound(visits, secrets, passwords) ==> InjectedOnce(visits, secrets, passwords, after))
  {
    InjectionMeans(init, secrets, passwords);
    ResolvesAtOnce(Reached(NamedVisits(init)), secrets, passwords, Injection(init, secrets, passwords).0);
  }

  /** What injecting finds after extracting: at every visited node whose password was a secret, the name
      under which exactly that secret is filed. */
  lemma PlaceholdersLeadBack(init: Initializer, passwords: PasswordMap, g: GitInitializer)
    requires g in passwords && NameOf(Reached(NamedVisits(init)), g).Some? && IsSecret(passwords[g])
    ensures var r := Extraction(init, true, passwords);
            && g in r.passwords && IsPlaceholder(r.passwords[g])
            && Strip(r.passwords[g]) in r.secrets && r.secrets[Strip(r.passwords[g])] == passwords[g]
  {
    ExtractionMeans(init, passwords);
    var name := NameOf(Reached(NamedVisits(init)), g).value;
    assert (EXTRACTED_SECRET_PREFIX + name)[|EXTRACTED_SECRET_PREFIX|..] == name;
  }

  /** Injecting what was extracted restores every password, even where the walk gives up half way and
      whichever nodes share a git initializer, as long as no password looked like a placeholder. */
  lemma InjectUndoesExtract(init: Initializer, passwords: PasswordMap)
    requires !Marked(NamedVisits(init), passwords)
    ensures var r := Extraction(init, true, passwords);
            Injection(init, r.secrets, r.passwords) == (passwords, Supported(NamedVisits(init)))
  {
    var r, visits := Extraction(init, true, passwords), Reached(NamedVisits(init));
    ExtractionMeans(init, passwords);
    ExtractedSecretsAreNoPlaceholders(init, passwords);
    InjectionOfSecretsMeans(init, r.secrets, r.passwords);
    forall g | g in r.passwords && NameOf(visits, g).Some? && IsPlaceholder(r.passwords[g])
      ensures IsSecret(passwords[g]) && Strip(r.passwords[g]) in r.secrets && r.secrets[Strip(r.passwords[g])] == passwords[g]
    {
      assert IsSecret(passwords[g]);
      PlaceholdersLeadBack(init, passwords, g);
    }
    var after := Injection(init, r.secrets, r.passwords).0;
    forall g | g in passwords
      ensures after[g] == passwords[g]
    {
      if NameOf(visits, g).Some? && IsSecret(passwords[g]) {
        PlaceholdersLeadBack(init, passwords, g);
      }
    }
    assert after == passwords;
  }

  /** A password that looked like a placeholder is taken for one and cannot come back. */
  lemma MarkedIsNotRestored(init: Initializer, passwords: PasswordMap, g: GitInitializer)
    requires g in passwords && NameOf(Reached(NamedVisits(init)), g).Some? && IsPlaceholder(passwords[g])
    ensures var r := Extraction(init, true, passwords);
            Injection(init, r.secrets, r.passwords) != (passwords, true)
  {
    var r := Extraction(init, true, passwords);
    ExtractionMeans(init, passwords);
    ExtractedSecretsAreNoPlaceholders(init, passwords);
    assert g in r.passwords && r.passwords[g] == passwords[g];
    InjectionOfSecretsMeans(init, r.secrets, r.passwords);
  }

  /** The round trip succeeds and restores the tree exactly when every node has a supported specification
      and no visited password looked like a placeholder to begin with. */
  lemma RoundTripExactlyWhen(init: Initializer, passwords: PasswordMap)
    ensures var r := Extraction(init, true, passwords);
            Injection(init, r.secrets, r.passwords) == (passwords, true)
            <==> Supported(NamedVisits(init)) && !Marked(NamedVisits(init), passwords)
  {
    if Marked(NamedVisits(init), passwords) {
      var g :| g in passwords && NameOf(Reached(NamedVisits(init)), g).Some? && IsPlaceholder(passwords[g]);
      MarkedIsNotRestored(init, passwords, g);
    } else {
      InjectUndoesExtract(init, passwords);
    }
  }

  /** Extracting again finds nothing and changes nothing. */
  lemma SecondExtractIsIdle(init: Initializer, passwords: PasswordMap)
    ensures var r := Extraction(init, true, passwords);
            Extraction(init, true, r.passwords) == State(r.passwords, map[], [])
  {
    var r, visits := Extraction(init, true, passwords), Reached(NamedVisits(init));
    ExtractionMeans(init, passwords);
    ExtractionMeans(init, r.passwords);
    var again := Extraction(init, true, r.passwords);
    assert again.passwords == r.passwords;
    assert forall n :: !NamesSecret(visits, r.passwords, n);
    assert again.secrets == map[];
    ExtractCollectsNoLocations(NamedVisits(init), true, State(r.passwords, map[], []));
  }

  lemma {:induction false} ExtractCollectsNoLocations(visits: seq<Visit>, replaceValue: bool, s: State)
    ensures Walk(Extract(replaceValue), visits, s).0.locations == s.locations
  {
    if visits != [] && !visits[0].node.Unset? {
      ExtractCollectsNoLocations(visits[1..], replaceValue, Step(Extract(replaceValue), visits[0], s).0);
    }
  }

  // ----- Gathering against extracting

  ghost predicate GathersAll(visits: seq<Visit>, passwords: PasswordMap, secrets: map<string, string>) {
    forall v :: v in visits && TakesSecret(v, passwords) ==>
      v.Name() in secrets && secrets[v.Name()] == passwords[v.node.git]
  }

  ghost predicate GathersOnly(visits: seq<Visit>, passwords: PasswordMap, earlier: map<string, string>, secrets: map<string, string>) {
    && (forall n :: n in secrets ==> n in earlier || exists v :: v in visits && TakesSecret(v, passwords) && v.Name() == n)
    && (forall n :: n in earlier && (forall v :: v in visits ==> v.Name() != n) ==> n in secrets && secrets[n] == earlier[n])
  }

  lemma LaterNamesDiffer(visits: seq<Visit>)
    requires visits != [] && DistinctNames(visits)
    ensures forall v :: v in visits[1..] ==> v.Name() != visits[0].Name()
    ensures DistinctNames(visits[1..])
  {
    forall v | v in visits[1..]
      ensures v.Name() != visits[0].Name()
    {
      var j :| 0 <= j < |visits[1..]| && visits[1..][j] == v;
      assert visits[j + 1] == v;
    }
  }

  /** The first visit files its secret, if there is one, and the later ones do not file anything under its name. */
  lemma GatheredHead(visits: seq<Visit>, s: State, secrets: map<string, string>)
    requires visits != [] && !visits[0].node.Unset?
    requires forall v :: v in visits[1..] ==> v.Name() != visits[0].Name()
    requires GathersAll(visits[1..], s.passwords, secrets)
    requires GathersOnly(visits[1..], s.passwords, Step(Extract(false), visits[0], s).0.secrets, secrets)
    ensures GathersAll(visits, s.passwords, secrets)
  {
    var v := visits[0];
    assert visits == [v] + visits[1..];
    if TakesSecret(v, s.passwords) {
      var s' := Step(Extract(false), v, s).0;
      assert v.Name() in s'.secrets && s'.secrets[v.Name()] == s.passwords[v.node.git];
    }
  }

  lemma GatheredOnly(visits: seq<Visit>, s: State, secrets: map<string, string>)
    requires visits != [] && !visits[0].node.Unset?
    requires GathersOnly(visits[1..], s.passwords, Step(Extract(false), visits[0], s).0.secrets, secrets)
    ensures GathersOnly(visits, s.passwords, s.secrets, secrets)
  {
    var v := visits[0];
    assert visits == [v] + visits[1..];
    var s' := Step(Extract(false), v, s).0;
    assert s'.secrets == if TakesSecret(v, s.passwords) then s.secrets[v.Name() := s.passwords[v.node.git]] else s.secrets;
  }

  lemma {:induction false} GatherMeans(visits: seq<Visit>, s: State)
    requires AllSet(visits) && DistinctNames(visits)
    ensures var (r, ok) := Walk(Extract(false), visits, s);
            && GathersAll(visits, s.passwords, r.secrets)
            && GathersOnly(visits, s.passwords, s.secrets, r.secrets)
  {
    if visits != [] {
      LaterNamesDiffer(visits);
      GatherMeans(visits[1..], Step(Extract(false), visits[0], s).0);
      var r := Walk(Extract(false), visits, s).0;
      GatheredHead(visits, s, r.secrets);
      GatheredOnly(visits, s, r.secrets);
    }
  }

  /** A git initializer that holds a secret and is visited more than once. */
  ghost predicate SecretVisitedTwice(visits: seq<Visit>, passwords: PasswordMap) {
    exists i, j :: 0 <= i < j < |visits| && visits[i].node == visits[j].node && TakesSecret(visits[j], passwords)
  }

  lemma {:induction false} FirstVisitNames(visits: seq<Visit>, i: nat)
    requires i < |visits| && visits[i].node.Git?
    requires forall j :: 0 <= j < i ==> visits[j].node != visits[i].node
    ensures NameOf(visits, visits[i].node.git) == Some(visits[i].Name())
  {
    if i > 0 {
      FirstVisitNames(visits[1..], i - 1);
    }
  }

  lemma NamedByFirstVisit(visits: seq<Visit>, g: GitInitializer) returns (i: nat)
    requires NameOf(visits, g).Some?
    ensures i < |visits| && visits[i].node == Git(g) && visits[i].Name() == NameOf(visits, g).value
    ensures forall j :: 0 <= j < i ==> visits[j].node != Git(g)
  {
    i := 0;
    while visits[i].node != Git(g)
      invariant i < |visits|
      invariant forall j :: 0 <= j < i ==> visits[j].node != Git(g)
      invariant NameOf(visits[i..], g) == NameOf(visits, g)
      decreases |visits| - i
    {
      assert visits[i..][1..] == visits[i + 1..];
      i := i + 1;
    }
  }

  /** Gathering finds the same secrets under the same names as extracting exactly when no node with a
      secret is visited twice; a shared one would be gathered once more under its second name. */
  lemma GatherAgreesExactlyWhen(init: Initializer, passwords: PasswordMap)
    ensures Extraction(init, false, passwords).secrets == Extraction(init, true, passwords).secrets
            <==> !SecretVisitedTwice(Reached(NamedVisits(init)), passwords)
  {
    var visits, s := Reached(NamedVisits(init)), State(passwords, map[], []);
    ReachedNamesAreDistinct(init);
    WalkStopsWhereUnsupported(Extract(false), NamedVisits(init), s);
    GatherMeans(visits, s);
    ExtractionMeans(init, passwords);
    var gathered, extracted := Extraction(init, false, passwords).secrets, Extraction(init, true, passwords).secrets;
    if SecretVisitedTwice(visits, passwords) {
      var i, j :| 0 <= i < j < |visits| && visits[i].node == visits[j].node && TakesSecret(visits[j], passwords);
      SecondNameIsNotExtracted(visits, passwords, i, j);
      assert visits[j].Name() in gathered && visits[j].Name() !in extracted;
    } else {
      UnsharedSecretsAgree(visits, passwords, gathered, extracted);
    }
  }

  lemma FirstNameIsOfFirstVisit(visits: seq<Visit>, g: GitInitializer, j: nat)
    requires DistinctNames(visits) && j < |visits|
    requires NameOf(visits, g) == Some(visits[j].Name())
    ensures visits[j].node == Git(g) && forall i :: 0 <= i < j ==> visits[i].node != Git(g)
  {
    var k := NamedByFirstVisit(visits, g);
    assert !(k < j) && !(j < k);
  }

  lemma SecondNameIsNotExtracted(visits: seq<Visit>, passwords: PasswordMap, i: nat, j: nat)
    requires DistinctNames(visits)
    requires i < j < |visits| && visits[i].node == visits[j].node && visits[j].node.Git?
    ensures !NamesSecret(visits, passwords, visits[j].Name())
  {
    if NamesSecret(visits, passwords, visits[j].Name()) {
      var g :| g in passwords && NameOf(visits, g) == Some(visits[j].Name());
      FirstNameIsOfFirstVisit(visits, g, j);
    }
  }

  lemma SecretVisitIsFirst(visits: seq<Visit>, passwords: PasswordMap, i: nat)
    requires !SecretVisitedTwice(visits, passwords)
    requires i < |visits| && TakesSecret(visits[i], passwords)
    ensures NameOf(visits, visits[i].node.git) == Some(visits[i].Name())
    ensures NamesSecret(visits, passwords, visits[i].Name())
  {
    FirstVisitNames(visits, i);
  }

  lemma ExtractedIsGathered(visits: seq<Visit>, passwords: PasswordMap, gathered: map<string, string>, n: string)
    requires GathersAll(visits, passwords, gathered) && NamesSecret(visits, passwords, n)
    ensures n in gathered
  {
    var g :| g in passwords && IsSecret(passwords[g]) && NameOf(visits, g) == Some(n);
    var i := NamedByFirstVisit(visits, g);
    assert visits[i] in visits && TakesSecret(visits[i], passwords);
  }

  lemma SameMaps(m: map<string, string>, n: map<string, string>)
    requires forall k :: k in m ==> k in n && n[k] == m[k]
    requires forall k :: k in n ==> k in m
    ensures m == n
  {
    assert m.Keys == n.Keys;
  }

  lemma UnsharedSecretsAgree(visits: seq<Visit>, passwords: PasswordMap, gathered: map<string, string>, extracted: map<string, string>)
    requires !SecretVisitedTwice(visits, passwords)
    requires GathersAll(visits, passwords, gathered) && GathersOnly(visits, passwords, map[], gathered)
    requires HoldsSecrets(visits, passwords, extracted)
    requires forall n :: n in extracted <==> NamesSecret(visits, passwords, n)
    ensures gathered == extracted
  {
    forall n | n in gathered
      ensures n in extracted && extracted[n] == gathered[n]
    {
      GatheredIsExtracted(visits, passwords, gathered, extracted, n);
    }
    forall n | n in extracted
      ensures n in gathered
    {
      ExtractedIsGathered(visits, passwords, gathered, n);
    }
    SameMaps(gathered, extracted);
  }

  lemma GatheredIsExtracted(visits: seq<Visit>, passwords: PasswordMap, gathered: map<string, string>,
                            extracted: map<string, string>, n: string)
    requires !SecretVisitedTwice(visits, passwords)
    requires GathersAll(visits, passwords, gathered) && GathersOnly(visits, passwords, map[], gathered)
    requires HoldsSecrets(visits, passwords, extracted)
    requires n in gathered
    ensures n in extracted && extracted[n] == gathered[n]
  {
    var v :| v in visits && TakesSecret(v, passwords) && v.Name() == n;
    var i :| 0 <= i < |visits| && visits[i] == v;
    SecretVisitIsFirst(visits, passwords, i);
    assert NameOf(visits, v.node.git).value == n;
  }

  // ----- The entry points and the structure of the tree

  lemma {:induction false} NamedIsVisited(visits: seq<Visit>, g: GitInitializer)
    ensures NameOf(visits, g).Some? <==> VisitsGit(visits, g)
  {
    if visits != [] {
      NamedIsVisited(visits[1..], g);
      VisitsOfBoth([visits[0]], visits[1..], g);
      assert visits == [visits[0]] + visits[1..];
      assert VisitsGit([visits[0]], g) <==> visits[0].node == Git(g) by {
        assert [visits[0]][0] == visits[0];
      }
    }
  }

  lemma {:induction false} UnsetIsNotReached(visits: seq<Visit>)
    ensures Supported(visits) <==> NoneUnset(visits)
  {
    if visits != [] {
      UnsetIsNotReached(visits[1..]);
      NoneUnsetOfBoth([visits[0]], visits[1..]);
      assert visits == [visits[0]] + visits[1..];
      assert NoneUnset([visits[0]]) <==> !visits[0].node.Unset? by {
        assert [visits[0]][0] == visits[0];
      }
    }
  }

  lemma SpecifiedIsReached(init: Initializer, root: seq<string>)
    ensures Supported(Visits(init, root)) <==> Specified(init)
  {
    UnsetIsNotReached(Visits(init, root));
    VisitsAreSpecified(init, root);
  }

  lemma ReachedIsVisited(visits: seq<Visit>, g: GitInitializer)
    ensures VisitsGit(Reached(visits), g) ==> VisitsGit(visits, g)
  {
    ReachedIsPrefix(visits);
    if i :| 0 <= i < |Reached(visits)| && Reached(visits)[i].node == Git(g) {
      assert visits[i].node == Git(g);
    }
  }

  /** Only what the tree holds is reached, and all of it if no node lacks a specification. */
  lemma ReachedIsHeld(init: Initializer, g: GitInitializer)
    ensures NameOf(Reached(NamedVisits(init)), g).Some? ==> Holds(init, g)
    ensures Specified(init) && Holds(init, g) ==> NameOf(Reached(NamedVisits(init)), g).Some?
  {
    VisitsHold(init, ["initializer"], g);
    SpecifiedIsReached(init, ["initializer"]);
    NamedIsVisited(Reached(NamedVisits(init)), g);
    ReachedIsVisited(NamedVisits(init), g);
  }

  /** What extraction does at one node of the heap. */
  lemma ExtractionOf(init: Initializer, passwords: PasswordMap, g: GitInitializer)
    requires g in passwords
    ensures var r, pwd := Extraction(init, true, passwords), passwords[g];
            && g in r.passwords
            && (Specified(init) && Holds(init, g) && pwd != "" && !("extracted-secret/" <= pwd) ==>
                  && "extracted-secret/" <= r.passwords[g] && r.passwords[g][17..] in r.secrets
                  && r.secrets[r.passwords[g][17..]] == pwd)
            && (!Holds(init, g) || pwd == "" || "extracted-secret/" <= pwd ==> r.passwords[g] == pwd)
  {
    ExtractionMeans(init, passwords);
    ReachedIsHeld(init, g);
    if NameOf(Reached(NamedVisits(init)), g).Some? && IsSecret(passwords[g]) {
      PlaceholdersLeadBack(init, passwords, g);
    }
  }

  lemma FiledIsHeld(init: Initializer, passwords: PasswordMap)
    ensures var secrets := Extraction(init, true, passwords).secrets;
            forall n :: n in secrets ==> exists g :: g in passwords && Holds(init, g) && secrets[n] == passwords[g]
  {
    var r, visits := Extraction(init, true, passwords), Reached(NamedVisits(init));
    ExtractionMeans(init, passwords);
    forall n | n in r.secrets
      ensures exists g :: g in passwords && Holds(init, g) && r.secrets[n] == passwords[g]
    {
      var g :| g in passwords && IsSecret(passwords[g]) && NameOf(visits, g) == Some(n);
      ReachedIsHeld(init, g);
      assert NameOf(visits, g).value == n;
    }
  }

  lemma GatheringCovers(init: Initializer, passwords: PasswordMap)
    ensures var secrets := Extraction(init, false, passwords).secrets;
            && (forall g :: g in passwords && Specified(init) && Holds(init, g) && IsSecret(passwords[g]) ==>
                  exists n :: n in secrets && secrets[n] == passwords[g])
            && (forall n :: n in secrets ==> exists g :: g in passwords && Holds(init, g) && secrets[n] == passwords[g])
  {
    var visits, s := Reached(NamedVisits(init)), State(passwords, map[], []);
    var secrets := Extraction(init, false, passwords).secrets;
    ReachedNamesAreDistinct(init);
    WalkStopsWhereUnsupported(Extract(false), NamedVisits(init), s);
    GatherMeans(visits, s);
    forall g | g in passwords && Specified(init) && Holds(init, g) && IsSecret(passwords[g])
      ensures exists n :: n in secrets && secrets[n] == passwords[g]
    {
      ReachedIsHeld(init, g);
      var v :| v in visits && v.node == Git(g);
      assert TakesSecret(v, passwords);
    }
    forall n | n in secrets
      ensures exists g :: g in passwords && Holds(init, g) && secrets[n] == passwords[g]
    {
      var v :| v in visits && TakesSecret(v, passwords) && v.Name() == n;
      ReachedIsHeld(init, v.node.git);
    }
  }

  lemma {:induction false} InjectTouchesPlaceholders(visits: seq<Visit>, secrets: map<string, string>, s: State, g: GitInitializer)
    requires g in s.passwords && !(NameOf(visits, g).Some? && IsPlaceholder(s.passwords[g]))
    ensures var r := Walk(Inject(secrets), visits, s).0; g in r.passwords && r.passwords[g] == s.passwords[g]
  {
    if visits != [] {
      var (s', ok) := Step(Inject(secrets), visits[0], s);
      if ok {
        InjectTouchesPlaceholders(visits[1..], secrets, s', g);
      }
    }
  }

  lemma InjectionCovers(init: Initializer, secrets: map<string, string>, passwords: PasswordMap)
    ensures var (after, ok) := Injection(init, secrets, passwords);
            && (forall g :: g in passwords && !(Holds(init, g) && IsPlaceholder(passwords[g])) ==>
                  g in after && after[g] == passwords[g])
            && (NoPlaceholders(secrets) ==>
                  (ok <==> && Specified(init)
                           && forall g :: g in passwords && Holds(init, g) && IsPlaceholder(passwords[g]) ==> Strip(passwords[g]) in secrets))
            && (NoPlaceholders(secrets) && ok ==>
                  forall g :: g in passwords && Holds(init, g) && IsPlaceholder(passwords[g]) ==>
                    Strip(passwords[g]) in secrets && g in after && after[g] == secrets[Strip(passwords[g])])
  {
    var (after, ok) := Injection(init, secrets, passwords);
    var s := State(passwords, map[], []);
    SpecifiedIsReached(init, ["initializer"]);
    WalkStopsWhereUnsupported(Inject(secrets), NamedVisits(init), s);
    forall g | g in passwords
      ensures NameOf(Reached(NamedVisits(init)), g).Some? ==> Holds(init, g)
      ensures Specified(init) && Holds(init, g) ==> NameOf(Reached(NamedVisits(init)), g).Some?
    {
      ReachedIsHeld(init, g);
    }
    forall g | g in passwords && !(Holds(init, g) && IsPlaceholder(passwords[g]))
      ensures g in after && after[g] == passwords[g]
    {
      InjectTouchesPlaceholders(Reached(NamedVisits(init)), secrets, s, g);
    }
    if NoPlaceholders(secrets) {
      InjectionOfSecretsMeans(init, secrets, passwords);
    }
  }

  lemma LocationsOfOne(v: Visit, rest: seq<Visit>)
    ensures Locations([v] + rest) == OwnLocations(v.node) + Locations(rest)
  {
    assert ([v] + rest)[1..] == rest;
  }

  lemma AppendingIsAssociative(x: seq<string>, y: seq<string>, z: seq<string>)
    ensures (x + y) + z == x + (y + z)
  {
  }

  lemma FirstOfBoth(a: seq<Visit>, b: seq<Visit>)
    requires a != []
    ensures a + b == [a[0]] + (a[1..] + b) && a == [a[0]] + a[1..]
  {
  }

  lemma {:induction false} LocationsOfBoth(a: seq<Visit>, b: seq<Visit>)
    ensures Locations(a + b) == Locations(a) + Locations(b)
  {
    if a == [] {
      assert a + b == b;
      assert [] + Locations(b) == Locations(b);
    } else {
      var v, rest := a[0], a[1..];
      LocationsOfBoth(rest, b);
      LocationsOfOne(v, rest + b);
      LocationsOfOne(v, rest);
      FirstOfBoth(a, b);
      AppendingIsAssociative(OwnLocations(v.node), Locations(rest), Locations(b));
    }
  }

  lemma {:induction false} LocationsOfGits(gits: seq<GitInitializer>, path: seq<string>, i: nat)
    ensures Locations(GitVisits(gits, path, i)) == LocationsIn(Prebuild(gits))
  {
    if gits != [] {
      LocationsOfGits(gits[1..], path, i + 1);
      LocationsOfOne(Visit(path + [Itoa(i)] + ["git"], Git(gits[0])), GitVisits(gits[1..], path, i + 1));
    }
  }

  lemma {:induction false} LocationsOfList(inits: seq<Initializer>, path: seq<string>, i: nat)
    ensures Locations(ListVisits(inits, path, i)) == LocationsInAll(inits)
    decreases inits, 0
  {
    if inits != [] {
      LocationsOfVisits(inits[0], path + [Itoa(i)]);
      LocationsOfList(inits[1..], path, i + 1);
      LocationsOfBoth(Visits(inits[0], path + [Itoa(i)]), ListVisits(inits[1..], path, i + 1));
    }
  }

  /** The walk comes to the locations of the tree in their order. */
  lemma {:induction false} LocationsOfVisits(init: Initializer, path: seq<string>)
    ensures Locations(Visits(init, path)) == LocationsIn(init)
    decreases init, 1
  {
    match init
    case Prebuild(gits) =>
      LocationsOfGits(gits, path + ["prebuild"], 0);
      LocationsOfOne(Visit(path + ["prebuild"], init), GitVisits(gits, path + ["prebuild"], 0));
    case Composite(inits) =>
      LocationsOfList(inits, path + ["composite"], 0);
      LocationsOfOne(Visit(path + ["composite"], init), ListVisits(inits, path + ["composite"], 0));
    case Nil =>
    case _ =>
      var v := Visits(init, path)[0];
      LocationsOfOne(v, []);
      assert [v] + [] == Visits(init, path);
  }

  // ----- Trees on which the entry points do not agree

  /** A password that starts with the prefix to begin with: nothing is extracted, and injecting finds no secret. */
  lemma MarkedTree(g: GitInitializer)
    ensures var passwords := map[g := "extracted-secret/x"];
            var r := Extraction(Git(g), true, passwords);
            r.secrets == map[] && !Injection(Git(g), r.secrets, r.passwords).1
  {
    var s := State(map[g := "extracted-secret/x"], map[], []);
    var v := Visit(["initializer"] + ["git"], Git(g));
    assert NamedVisits(Git(g)) == [v];
    assert EXTRACTED_SECRET_PREFIX <= s.passwords[g];
    assert Step(Extract(true), v, s) == (s, true);
    assert Walk(Extract(true), [v], s) == (s, true);
    assert Step(Inject(map[]), v, s) == (s, false);
    assert Walk(Inject(map[]), [v], s) == (s, false);
  }

  lemma SharedVisits(g: GitInitializer)
    ensures var visits := Reached(NamedVisits(Composite([Git(g), Git(g)])));
            |visits| == 3 && visits[1].node == Git(g) && visits[2].node == Git(g)
  {
    var init := Composite([Git(g), Git(g)]);
    var path := ["initializer"] + ["composite"];
    var v, w := Visit(path + [Itoa(0)] + ["git"], Git(g)), Visit(path + [Itoa(1)] + ["git"], Git(g));
    assert [Git(g), Git(g)][1..] == [Git(g)] && [Git(g)][1..] == [];
    assert ListVisits([Git(g)], path, 1) == [w] + ListVisits([], path, 2);
    assert ListVisits([Git(g), Git(g)], path, 0) == [v] + ([w] + []);
    var visits := NamedVisits(init);
    assert visits == [Visit(path, init)] + ([v] + ([w] + []));
    assert visits[1..] == [v, w] && visits[1..][1..] == [w] && visits[1..][1..][1..] == [];
    assert Reached([w]) == [w] && Reached([v, w]) == [v] + [w];
  }

  /** One git initializer in two places: its secret is gathered under two names and extracted under one. */
  lemma SharedTree(g: GitInitializer)
    ensures var init, passwords := Composite([Git(g), Git(g)]), map[g := "pw"];
            Extraction(init, false, passwords).secrets != Extraction(init, true, passwords).secrets
  {
    var init, passwords := Composite([Git(g), Git(g)]), map[g := "pw"];
    var visits := Reached(NamedVisits(init));
    SharedVisits(g);
    assert TakesSecret(visits[2], passwords);
    assert SecretVisitedTwice(visits, passwords);
    GatherAgreesExactlyWhen(init, passwords);
  }

  // ----- The names under which secrets are filed

  lemma NestedVisits(g: GitInitializer)
    ensures var init := Composite([Empty, Prebuild([g])]);
            var path := ["initializer"] + ["composite"];
            var child := path + [Itoa(1)] + ["prebuild"];
            NamedVisits(init) == [Visit(path, init), Visit(path + [Itoa(0)] + ["empty"], Empty), Visit(child, Prebuild([g])),
                                  Visit(child + [Itoa(0)] + ["git"], Git(g))]
  {
    var init := Composite([Empty, Prebuild([g])]);
    var path := ["initializer"] + ["composite"];
    var child := path + [Itoa(1)] + ["prebuild"];
    var v := Visit(child + [Itoa(0)] + ["git"], Git(g));
    assert [g][1..] == [];
    assert GitVisits([g], child, 0) == [v] + GitVisits([], child, 1);
    assert [Empty, Prebuild([g])][1..] == [Prebuild([g])] && [Prebuild([g])][1..] == [];
    assert ListVisits([Prebuild([g])], path, 1) == Visits(Prebuild([g]), path + [Itoa(1)]) + ListVisits([], path, 2);
    assert Visits(Prebuild([g]), path + [Itoa(1)]) == [Visit(child, Prebuild([g]))] + GitVisits([g], child, 0);
    assert ListVisits([Empty, Prebuild([g])], path, 0) ==
           Visits(Empty, path + [Itoa(0)]) + ListVisits([Prebuild([g])], path, 1);
  }

  lemma JoinInFront(head: string, rest: seq<string>)
    requires rest != []
    ensures Strings.Join([head] + rest, '.') == head + ['.'] + Strings.Join(rest, '.')
  {
    assert ([head] + rest)[1..] == rest;
  }

  lemma JoinedTail()
    ensures Strings.Join(["prebuild"] + (["0"] + ["git"]), '.') == "prebuild.0.git"
  {
    JoinInFront("0", ["git"]);
    assert Strings.Join(["0"] + ["git"], '.') == "0.git";
    JoinInFront("prebuild", ["0"] + ["git"]);
  }

  lemma JoinedMiddle(tail: seq<string>)
    requires tail != [] && Strings.Join(tail, '.') == "prebuild.0.git"
    ensures Strings.Join(["composite"] + (["1"] + tail), '.') == "composite.1.prebuild.0.git"
  {
    JoinInFront("1", tail);
    assert Strings.Join(["1"] + tail, '.') == "1.prebuild.0.git";
    JoinInFront("composite", ["1"] + tail);
  }

  lemma JoinedRoot(rest: seq<string>)
    requires rest != [] && Strings.Join(rest, '.') == "composite.1.prebuild.0.git"
    ensures Strings.Join(["initializer"] + rest, '.') == "initializer.composite.1.prebuild.0.git"
  {
    JoinInFront("initializer", rest);
  }

  lemma DigitNames()
    ensures Itoa(0) == "0" && Itoa(1) == "1"
  {
  }

  lemma PathGrouped(a: string, b: string, c: string, d: string, e: string, f: string)
    ensures [a] + [b] + [c] + [d] + [e] + [f] == [a] + ([b] + ([c] + ([d] + ([e] + [f]))))
  {
  }

  lemma JoinedName()
    ensures Strings.Join(["initializer"] + ["composite"] + [Itoa(1)] + ["prebuild"] + [Itoa(0)] + ["git"], '.') ==
            "initializer.composite.1.prebuild.0.git"
  {
    var tail := ["prebuild"] + (["0"] + ["git"]);
    JoinedTail();
    JoinedMiddle(tail);
    JoinedRoot(["composite"] + (["1"] + tail));
    DigitNames();
    PathGrouped("initializer", "composite", "1", "prebuild", "0", "git");
  }

  /** The git initializer of a prebuild that is the second child of a composite: the kinds and the positions on the way
      make up the name. */
  lemma NestedTree(g: GitInitializer)
    ensures Extraction(Composite([Empty, Prebuild([g])]), true, map[g := "pw"]).secrets ==
            map["initializer.composite.1.prebuild.0.git" := "pw"]
  {
    var init := Composite([Empty, Prebuild([g])]);
    NestedVisits(g);
    JoinedName();
    var visits := NamedVisits(init);
    var s := State(map[g := "pw"], map[], []);
    assert Step(Extract(true), visits[0], s) == (s, true);
    assert Step(Extract(true), visits[1], s) == (s, true);
    assert Step(Extract(true), visits[2], s) == (s, true);
    var r := Step(Extract(true), visits[3], s);
    assert r.0.secrets == map["initializer.composite.1.prebuild.0.git" := "pw"] && r.1;
    assert visits[3..] == [visits[3]] && Walk(Extract(true), visits[3..], s) == Walk(Extract(true), visits[3..][1..], r.0);
    assert visits[2..][1..] == visits[3..] && Walk(Extract(true), visits[2..], s) == Walk(Extract(true), visits[3..], s);
    assert visits[1..][1..] == visits[2..] && Walk(Extract(true), visits[1..], s) == Walk(Extract(true), visits[2..], s);
    assert Walk(Extract(true), visits, s) == Walk(Extract(true), visits[1..], s);
  }
}
