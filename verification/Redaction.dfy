/** Which strings count as sensitive, and what redaction means on JSON documents as values. */
module RedactionSpec {

  const REDACTED_VALUE := "[redacted]"
  const REDACTED_FIELDS := ["auth_", "password", "token", "key", "jwt", "secret"]

  /** Lower case as far as it matters here: beside the ASCII letters, two other characters have an
      ASCII lower case; every other character is lowered to one that no prohibited word contains. */
  function LowerChar(c: char): char {
    if 'A' <= c <= 'Z' then (c as int + 32) as char
    else if c == '\U{0130}' then 'i'
    else if c == '\U{212A}' then 'k'
    else c
  }

  function ToLower(s: string): (r: string)
    ensures |r| == |s| && forall i :: 0 <= i < |s| ==> r[i] == LowerChar(s[i])
  {
    if s == "" then "" else [LowerChar(s[0])] + ToLower(s[1..])
  }

  predicate OccursAt(s: string, word: string, i: nat) {
    i + |word| <= |s| && s[i..i + |word|] == word
  }

  predicate Contains(s: string, word: string) {
    exists i :: 0 <= i <= |s| && OccursAt(s, word, i)
  }

  predicate Sensitive(s: string) {
    exists i :: 0 <= i < |REDACTED_FIELDS| && Contains(ToLower(s), REDACTED_FIELDS[i])
  }

  /** The same character, or the same ASCII letter in the other case. */
  predicate SameButCase(c: char, d: char) {
    || c == d
    || ('a' <= c <= 'z' && d as int == c as int - 32)
    || ('a' <= d <= 'z' && c as int == d as int - 32)
  }

  /** Whether a string is sensitive does not depend on the case of its ASCII letters. */
  lemma CaseMakesNoDifference(s: string, t: string)
    requires |s| == |t| && forall i :: 0 <= i < |s| ==> SameButCase(s[i], t[i])
    ensures Sensitive(s) <==> Sensitive(t)
  {
    assert ToLower(s) == ToLower(t);
  }

  /** The string holds, between `a` and `b`, one of the prohibited words in some spelling. */
  ghost predicate Spelled(s: string, a: string, w: string, b: string) {
    s == a + w + b && ToLower(w) in {"auth_", "password", "token", "key", "jwt", "secret"}
  }

  lemma LowerOfParts(a: string, b: string)
    ensures ToLower(a + b) == ToLower(a) + ToLower(b)
  {
  }

  lemma SpelledIsSensitive(s: string, a: string, w: string, b: string)
    requires Spelled(s, a, w, b)
    ensures Sensitive(s)
  {
    LowerOfParts(a + w, b);
    LowerOfParts(a, w);
    var lower := ToLower(s);
    assert lower[|a|..|a| + |w|] == ToLower(w);
    assert OccursAt(lower, ToLower(w), |a|);
    assert REDACTED_FIELDS[0] == "auth_" && REDACTED_FIELDS[1] == "password" && REDACTED_FIELDS[2] == "token";
    assert REDACTED_FIELDS[3] == "key" && REDACTED_FIELDS[4] == "jwt" && REDACTED_FIELDS[5] == "secret";
    var i :| 0 <= i < |REDACTED_FIELDS| && REDACTED_FIELDS[i] == ToLower(w);
    assert Contains(lower, REDACTED_FIELDS[i]);
  }

  lemma OccurrenceIsLowered(s: string, word: string, k: nat)
    requires OccursAt(ToLower(s), word, k)
    ensures ToLower(s[k..k + |word|]) == word
  {
    var part := ToLower(s[k..k + |word|]);
    assert forall j :: 0 <= j < |word| ==> part[j] == ToLower(s)[k..k + |word|][j];
  }

  lemma ThreeParts(s: string, i: nat, j: nat)
    requires i <= j <= |s|
    ensures s == s[..i] + s[i..j] + s[j..]
  {
  }

  lemma ContainedIsSpelled(s: string, word: string) returns (a: string, w: string, b: string)
    requires Contains(ToLower(s), word)
    ensures s == a + w + b && ToLower(w) == word
  {
    var lower := ToLower(s);
    var k :| 0 <= k <= |lower| && OccursAt(lower, word, k);
    OccurrenceIsLowered(s, word, k);
    a, w, b := s[..k], s[k..k + |word|], s[k + |word|..];
    ThreeParts(s, k, k + |word|);
  }

  lemma SensitiveIsSpelled(s: string) returns (a: string, w: string, b: string)
    requires Sensitive(s)
    ensures Spelled(s, a, w, b)
  {
    var i :| 0 <= i < |REDACTED_FIELDS| && Contains(ToLower(s), REDACTED_FIELDS[i]);
    a, w, b := ContainedIsSpelled(s, REDACTED_FIELDS[i]);
  }

  /** A string is sensitive exactly if it holds one of these words, in some spelling. */
  lemma SensitiveExactlyWhen(s: string)
    ensures Sensitive(s) <==> exists a, w, b :: Spelled(s, a, w, b)
  {
    if Sensitive(s) {
      var a, w, b := SensitiveIsSpelled(s);
    }
    if a, w, b :| Spelled(s, a, w, b) {
      SpelledIsSensitive(s, a, w, b);
    }
  }

  /** Lowering reaches every ASCII capital. */
  lemma CapitalsAreLowered(w: string, word: string)
    requires |w| == |word| && forall i :: 0 <= i < |w| ==> SameButCase(w[i], word[i])
    requires forall i :: 0 <= i < |word| ==> 'a' <= word[i] <= 'z' || word[i] == '_'
    ensures ToLower(w) == word
  {
  }

  lemma OccurrenceHasLetter(s: string, word: string, i: nat, at: nat)
    requires OccursAt(s, word, i) && at < |word|
    ensures word[at] in s
  {
    assert s[i..i + |word|][at] == s[i + at];
  }

  lemma LacksALetter(s: string, word: string, at: nat)
    requires at < |word| && word[at] !in s
    ensures !Contains(s, word)
  {
    if Contains(s, word) {
      var i :| 0 <= i <= |s| && OccursAt(s, word, i);
      OccurrenceHasLetter(s, word, i, at);
    }
  }

  lemma LowerCaseIsFixed(s: string)
    requires forall i :: 0 <= i < |s| ==> LowerChar(s[i]) == s[i]
    ensures ToLower(s) == s
  {
  }

  lemma RedactedValueIsLowerCase()
    ensures ToLower(REDACTED_VALUE) == REDACTED_VALUE
  {
    LowerCaseIsFixed(REDACTED_VALUE);
  }

  lemma RedactedValueLacks(word: string, at: nat)
    requires at < |word| && word[at] in ['u', 'p', 'o', 'k', 'j', 's']
    ensures !Contains(REDACTED_VALUE, word)
  {
    LacksALetter(REDACTED_VALUE, word, at);
  }

  lemma RedactedValueLacksField(i: nat)
    requires i < |REDACTED_FIELDS|
    ensures !Contains(REDACTED_VALUE, REDACTED_FIELDS[i])
  {
    var missing := [1, 0, 1, 0, 0, 0];
    RedactedValueLacks(REDACTED_FIELDS[i], missing[i]);
  }

  /** Each prohibited word has a letter that the replacement text lacks, so redacting twice cannot
      take the replacement for a secret. */
  lemma RedactedValueIsNotSensitive()
    ensures !Sensitive(REDACTED_VALUE)
  {
    RedactedValueIsLowerCase();
    forall i | 0 <= i < |REDACTED_FIELDS| {
      RedactedValueLacksField(i);
    }
  }

  datatype Json =
    | Null
    | Bool(b: bool)
    | Number(n: real)
    | Text(s: string)
    | Array(elems: seq<Json>)
    | Object(members: map<string, Json>)

  /** Some value directly in the object is a sensitive string, under a key that is not prohibited itself. */
  predicate HasSensitiveMember(members: map<string, Json>) {
    exists k :: k in members && !Sensitive(k) && members[k].Text? && Sensitive(members[k].s)
  }

  function Redacted(j: Json): Json {
    match j
    case Text(s) => if Sensitive(s) then Text(REDACTED_VALUE) else j
    case Array(elems) => Array(seq(|elems|, i requires 0 <= i < |elems| => Redacted(elems[i])))
    case Object(members) =>
      if HasSensitiveMember(members) then
        Object(map k | k in members :: Text(REDACTED_VALUE))
      else
        Object(map k | k in members :: if Sensitive(k) then Text(REDACTED_VALUE) else Redacted(members[k]))
    case _ => j
  }

  // ----- What a redacted document looks like

  /** No string value holds a prohibited word, and whatever stands under a prohibited key is the replacement text. */
  ghost predicate Clean(j: Json) {
    match j
    case Text(s) => !Sensitive(s)
    case Array(elems) => forall i :: 0 <= i < |elems| ==> Clean(elems[i])
    case Object(members) =>
      forall k :: k in members ==> Clean(members[k]) && (Sensitive(k) ==> members[k] == Text(REDACTED_VALUE))
    case _ => true
  }

  lemma UnlikelyTextIsClean(s: string)
    requires !Sensitive(s)
    ensures Clean(Text(s))
  {
  }

  lemma ReplacementIsClean()
    ensures Clean(Text(REDACTED_VALUE))
  {
    RedactedValueIsNotSensitive();
    UnlikelyTextIsClean(REDACTED_VALUE);
  }

  lemma RedactedTextIsClean(s: string)
    ensures Clean(Redacted(Text(s)))
  {
    ReplacementIsClean();
    if !Sensitive(s) {
      UnlikelyTextIsClean(s);
    }
  }

  lemma RedactedArrayIsClean(elems: seq<Json>)
    requires forall i :: 0 <= i < |elems| ==> Clean(Redacted(elems[i]))
    ensures Clean(Redacted(Array(elems)))
  {
  }

  lemma ReplacedObjectIsClean(members: map<string, Json>)
    ensures Clean(Object(map k | k in members :: Text(REDACTED_VALUE)))
  {
    ReplacementIsClean();
  }

  lemma RedactedObjectIsClean(members: map<string, Json>)
    requires forall k :: k in members ==> Clean(Redacted(members[k]))
    ensures Clean(Redacted(Object(members)))
  {
    ReplacementIsClean();
    if HasSensitiveMember(members) {
      ReplacedObjectIsClean(members);
    }
  }

  lemma {:induction false} RedactedIsClean(j: Json)
    ensures Clean(Redacted(j))
  {
    match j
    case Text(s) =>
      RedactedTextIsClean(s);
    case Array(elems) =>
      forall i | 0 <= i < |elems| {
        RedactedIsClean(elems[i]);
      }
      RedactedArrayIsClean(elems);
    case Object(members) =>
      forall k | k in members {
        RedactedIsClean(members[k]);
      }
      RedactedObjectIsClean(members);
    case _ =>
  }

  lemma CleanObjectHasNoSecret(members: map<string, Json>)
    requires Clean(Object(members))
    ensures !HasSensitiveMember(members)
  {
  }

  lemma {:induction false} CleanIsUnchanged(j: Json)
    requires Clean(j)
    ensures Redacted(j) == j
  {
    match j
    case Array(elems) =>
      forall i | 0 <= i < |elems| {
        CleanIsUnchanged(elems[i]);
      }
      assert Redacted(j).elems == elems;
    case Object(members) =>
      CleanObjectHasNoSecret(members);
      forall k | k in members {
        CleanIsUnchanged(members[k]);
      }
      assert Redacted(j).members == members;
    case _ =>
  }

  /** The documents redaction leaves alone are exactly the clean ones. */
  lemma UnchangedExactlyWhenClean(j: Json)
    ensures Redacted(j) == j <==> Clean(j)
  {
    RedactedIsClean(j);
    if Clean(j) {
      CleanIsUnchanged(j);
    }
  }

  lemma RedactionIsIdempotent(j: Json)
    ensures Redacted(Redacted(j)) == Redacted(j)
  {
    RedactedIsClean(j);
    CleanIsUnchanged(Redacted(j));
  }

  // ----- Where in a document redaction acts

  datatype Step = Index(i: nat) | Key(k: string)

  function Child(j: Json, step: Step): (r: seq<Json>)
    ensures |r| <= 1
  {
    match (j, step)
    case (Array(elems), Index(i)) => if i < |elems| then [elems[i]] else []
    case (Object(members), Key(k)) => if k in members then [members[k]] else []
    case _ => []
  }

  /** The value at a path, as a list of at most one value. */
  function At(j: Json, path: seq<Step>): (r: seq<Json>)
    ensures |r| <= 1
    decreases |path|
  {
    if path == [] then [j]
    else
      var c := Child(j, path[0]);
      if c == [] then [] else At(c[0], path[1..])
  }

  /** Stepping from `j` along `step` enters something that is replaced as a whole. */
  predicate Masks(j: Json, step: Step) {
    j.Object? && step.Key? && (Sensitive(step.k) || HasSensitiveMember(j.members))
  }

  /** Some step of the path enters something that is replaced as a whole. */
  predicate Masked(j: Json, path: seq<Step>)
    decreases |path|
  {
    path != [] && Child(j, path[0]) != []
    && (Masks(j, path[0]) || Masked(Child(j, path[0])[0], path[1..]))
  }

  lemma ChildOfRedacted(j: Json, step: Step)
    ensures Child(Redacted(j), step) ==
            if Child(j, step) == [] then []
            else if Masks(j, step) then [Text(REDACTED_VALUE)]
            else [Redacted(Child(j, step)[0])]
  {
  }

  /** What becomes of one member: the whole object is replaced member by member if a string among its members is
      sensitive under a key that is not, and otherwise only what stands under sensitive keys. */
  lemma MemberOfRedacted(members: map<string, Json>, k: string)
    requires k in members
    ensures var r := Redacted(Object(members));
            && r.Object? && r.members.Keys == members.Keys
            && r.members[k] ==
                 if Sensitive(k)
                    || exists m :: m in members && members[m].Text? && Sensitive(members[m].s) && !Sensitive(m)
                 then Text("[redacted]") else Redacted(members[k])
  {
  }

  lemma ElementOfRedacted(elems: seq<Json>, i: nat)
    requires i < |elems|
    ensures var r := Redacted(Array(elems)); r.Array? && |r.elems| == |elems| && r.elems[i] == Redacted(elems[i])
  {
  }

  /** Off the masked paths redaction keeps every container with its keys and its length, and acts on
      each value by itself; on a masked path nothing of the original survives below the mask. */
  lemma {:induction false} RedactionIsLocal(j: Json, path: seq<Step>)
    ensures !Masked(j, path) ==>
              At(Redacted(j), path) == if At(j, path) == [] then [] else [Redacted(At(j, path)[0])]
    ensures Masked(j, path) ==> At(Redacted(j), path) in {[], [Text(REDACTED_VALUE)]}
    decreases |path|
  {
    if path != [] {
      ChildOfRedacted(j, path[0]);
      if Child(j, path[0]) != [] {
        var c := Child(j, path[0])[0];
        RedactionIsLocal(c, path[1..]);
        if Masks(j, path[0]) && |path| > 1 {
          assert Child(Text(REDACTED_VALUE), path[1..][0]) == [];
        }
      }
    }
  }
}

/** Redaction as it is carried out: arrays and objects are rewritten in place, and an object is scanned
    in whatever order its keys come up, starting over once when a member turns out to be a secret. */
module Redaction {
  import opened RedactionSpec
  import opened Wrappers

  datatype Value =
    | NullValue
    | BoolValue(b: bool)
    | NumberValue(n: real)
    | TextValue(s: string)
    | ArrayValue(a: ArrayCell)
    | ObjectValue(o: ObjectCell)

  class ArrayCell {
    var elems: seq<Value>
    ghost var Repr: set<object>
  }

  class ObjectCell {
    var members: map<string, Value>
    ghost var Repr: set<object>
  }

  ghost function Cells(v: Value): set<object> {
    match v
    case ArrayValue(a) => {a}
    case ObjectValue(o) => {o}
    case _ => {}
  }

  /** Everything reachable from a value. */
  ghost function Repr(v: Value): set<object>
    reads Cells(v)
  {
    match v
    case ArrayValue(a) => a.Repr
    case ObjectValue(o) => o.Repr
    case _ => {}
  }

  /** What `v` reaches, its own cell included, lies in `region`. */
  ghost predicate Within(v: Value, region: set<object>)
    reads Cells(v)
  {
    Cells(v) <= Repr(v) <= region
  }

  /** The value graph at `v` is a tree, and that tree is `j`. */
  ghost predicate Represents(v: Value, j: Json)
    reads Cells(v), Repr(v)
    decreases j
  {
    match (v, j)
    case (NullValue, Null) => true
    case (BoolValue(b), Bool(c)) => b == c
    case (NumberValue(m), Number(n)) => m == n
    case (TextValue(s), Text(t)) => s == t
    case (ArrayValue(a), Array(elems)) =>
      && a in a.Repr && |a.elems| == |elems|
      && ElementsWithin(a)
      && (forall i :: 0 <= i < |elems| ==> Represents(a.elems[i], elems[i]))
    case (ObjectValue(o), Object(members)) =>
      && o in o.Repr && o.members.Keys == members.Keys
      && MembersWithin(o)
      && (forall k :: k in members ==> Represents(o.members[k], members[k]))
    case _ => false
  }

  /** The members of an object are disjoint parts of what it owns. */
  ghost predicate MembersWithin(o: ObjectCell)
    reads o, o.Repr
  {
    && (forall k :: k in o.members ==> Cells(o.members[k]) <= o.Repr && Within(o.members[k], o.Repr - {o}))
    && (forall k, l :: k in o.members && l in o.members && k != l ==> Repr(o.members[k]) !! Repr(o.members[l]))
  }

  method MatchesProhibited(s: string) returns (found: bool)
    ensures found <==> Sensitive(s)
  {
    found := false;
    for i := 0 to |REDACTED_FIELDS|
      invariant found <==> exists j :: 0 <= j < i && Contains(ToLower(s), REDACTED_FIELDS[j])
    {
      if Contains(ToLower(s), REDACTED_FIELDS[i]) {
        found := true;
      }
    }
  }

  /** Redacts what `v` stands for: containers in place, strings by returning their replacement. */
  method RedactValue(v: Value, ghost j: Json) returns (r: Value)
    requires Represents(v, j)
    modifies Repr(v)
    ensures Represents(r, Redacted(j))
    ensures r != v ==> v.TextValue? && Sensitive(v.s)
    ensures v.TextValue? && Sensitive(v.s) ==> r == TextValue(REDACTED_VALUE)
    ensures Repr(r) == old(Repr(v))
    decreases j, 2
  {
    r := v;
    match v
    case ArrayValue(a) =>
      RedactArray(a, j.elems);
    case ObjectValue(o) =>
      ghost var restarts := RedactObject(o, j.members);
    case TextValue(s) =>
      var found := MatchesProhibited(s);
      if found {
        r := TextValue(REDACTED_VALUE);
      }
    case _ =>
  }

  /** The elements of an array are disjoint parts of what it owns. */
  ghost predicate ElementsWithin(a: ArrayCell)
    reads a, a.Repr
  {
    && (forall i :: 0 <= i < |a.elems| ==> Cells(a.elems[i]) <= a.Repr && Within(a.elems[i], a.Repr - {a}))
    && (forall i, k :: 0 <= i < k < |a.elems| ==> Repr(a.elems[i]) !! Repr(a.elems[k]))
  }

  /** Redacts an element without storing the result yet: only what the element reaches changes. */
  method RedactElementInPlace(a: ArrayCell, i: nat, ghost j: Json) returns (r: Value)
    requires i < |a.elems| && a in a.Repr && ElementsWithin(a) && Represents(a.elems[i], j)
    modifies a.Repr
    ensures a.Repr == old(a.Repr) && a.elems == old(a.elems) && ElementsWithin(a)
    ensures Represents(r, Redacted(j)) && (r == a.elems[i] || r.TextValue?)
    ensures forall k, x :: 0 <= k < |a.elems| && k != i && old(Represents(a.elems[k], x)) ==> Represents(a.elems[k], x)
    decreases j, 3
  {
    r := RedactValue(a.elems[i], j);
  }

  /** Stores what became of an element: itself, or a string. */
  method SetElement(a: ArrayCell, i: nat, v: Value)
    requires i < |a.elems| && a in a.Repr && ElementsWithin(a)
    requires v == a.elems[i] || v.TextValue?
    modifies a
    ensures a.Repr == old(a.Repr) && ElementsWithin(a) && a.elems == old(a.elems)[i := v]
    ensures forall k, x :: 0 <= k < |a.elems| && k != i && old(Represents(a.elems[k], x)) ==> Represents(a.elems[k], x)
    ensures forall x :: old(Represents(v, x)) ==> Represents(v, x)
  {
    a.elems := a.elems[i := v];
  }

  method RedactElement(a: ArrayCell, i: nat, ghost j: Json)
    requires i < |a.elems| && a in a.Repr && ElementsWithin(a) && Represents(a.elems[i], j)
    modifies a.Repr
    ensures a.Repr == old(a.Repr) && ElementsWithin(a)
    ensures |a.elems| == old(|a.elems|) && a.elems == old(a.elems)[i := a.elems[i]]
    ensures Represents(a.elems[i], Redacted(j))
    ensures forall k, x :: 0 <= k < |a.elems| && k != i && old(Represents(a.elems[k], x)) ==> Represents(a.elems[k], x)
    decreases j, 4
  {
    var r := RedactElementInPlace(a, i, j);
    SetElement(a, i, r);
  }

  method RedactArray(a: ArrayCell, ghost elems: seq<Json>)
    requires Represents(ArrayValue(a), Array(elems))
    modifies a.Repr
    ensures a.Repr == old(a.Repr)
    ensures Represents(ArrayValue(a), Redacted(Array(elems)))
    decreases Array(elems), 0
  {
    for i := 0 to |a.elems|
      invariant a.Repr == old(a.Repr) && a in a.Repr && |a.elems| == |elems|
      invariant ElementsWithin(a)
      invariant forall k :: 0 <= k < i ==> Represents(a.elems[k], Redacted(elems[k]))
      invariant forall k :: i <= k < |elems| ==> Represents(a.elems[k], elems[k])
    {
      RedactElement(a, i, elems[i]);
    }
  }

  /** Stores what became of a member: itself, or a string. */
  method SetMember(o: ObjectCell, k: string, v: Value)
    requires k in o.members && o in o.Repr && MembersWithin(o)
    requires v == o.members[k] || v.TextValue?
    modifies o
    ensures o.Repr == old(o.Repr) && MembersWithin(o)
    ensures o.members.Keys == old(o.members.Keys) && o.members[k] == v
    ensures forall l :: l in o.members && l != k ==> o.members[l] == old(o.members)[l]
    ensures forall l, x :: l in o.members && l != k && old(Represents(o.members[l], x)) ==> Represents(o.members[l], x)
    ensures forall x :: old(Represents(v, x)) ==> Represents(v, x)
  {
    o.members := o.members[k := v];
  }

  /** Redacts a member without storing the result yet: only what the member reaches changes. */
  method RedactInPlace(o: ObjectCell, k: string, ghost j: Json) returns (r: Value)
    requires k in o.members && o in o.Repr && MembersWithin(o) && Represents(o.members[k], j)
    modifies o.Repr
    ensures o.Repr == old(o.Repr) && o.members == old(o.members) && MembersWithin(o)
    ensures Represents(r, Redacted(j))
    ensures r == o.members[k] || r.TextValue?
    ensures r != o.members[k] ==> j.Text? && Sensitive(j.s)
    ensures j.Text? && Sensitive(j.s) ==> r == TextValue(REDACTED_VALUE)
    ensures forall l, x :: l in o.members && l != k && old(Represents(o.members[l], x)) ==> Represents(o.members[l], x)
    decreases j, 3
  {
    r := RedactValue(o.members[k], j);
  }

  /** Redacts a member on its own. A container comes back as the same reference, hence deeply equal to
      what it was; so a difference always means that a string has been replaced. */
  method RedactMember(o: ObjectCell, k: string, ghost j: Json) returns (changed: bool)
    requires k in o.members && o in o.Repr && MembersWithin(o) && Represents(o.members[k], j)
    requires o.members[k] != TextValue(REDACTED_VALUE)
    modifies o.Repr
    ensures o.Repr == old(o.Repr) && MembersWithin(o)
    ensures o.members.Keys == old(o.members.Keys)
    ensures forall l :: l in o.members && l != k ==> o.members[l] == old(o.members)[l]
    ensures Represents(o.members[k], Redacted(j))
    ensures forall l, x :: l in o.members && l != k && old(Represents(o.members[l], x)) ==> Represents(o.members[l], x)
    ensures changed <==> j.Text? && Sensitive(j.s)
    decreases j, 4
  {
    var was := o.members[k];
    var r := RedactInPlace(o, k, j);
    SetMember(o, k, r);
    changed := was != r;
  }

  /** A prohibited key, or a forced scan, replaces the value whatever it is. */
  method CoverMember(o: ObjectCell, k: string, forceRedact: bool)
    requires k in o.members && o in o.Repr && MembersWithin(o)
    modifies o
    ensures o.Repr == old(o.Repr) && MembersWithin(o)
    ensures o.members.Keys == old(o.members.Keys)
    ensures o.members[k] == if forceRedact || Sensitive(k) then TextValue(REDACTED_VALUE) else old(o.members[k])
    ensures forall l :: l in o.members && l != k ==> o.members[l] == old(o.members)[l]
    ensures forall l, x :: l in o.members && l != k && old(Represents(o.members[l], x)) ==> Represents(o.members[l], x)
    ensures !forceRedact && !Sensitive(k) ==> forall x :: old(Represents(o.members[k], x)) ==> Represents(o.members[k], x)
  {
    var prohibited := MatchesProhibited(k);
    if prohibited {
      SetMember(o, k, TextValue(REDACTED_VALUE));
    }
    if forceRedact {
      SetMember(o, k, TextValue(REDACTED_VALUE));
    }
  }

  /** The body of a scan, for one key; `changed` asks for the scan to start over. */
  method ScanMember(o: ObjectCell, k: string, forceRedact: bool, ghost j: Json) returns (changed: bool)
    requires k in o.members && o in o.Repr && MembersWithin(o)
    requires !forceRedact ==> Represents(o.members[k], j)
    modifies o.Repr
    ensures o.Repr == old(o.Repr) && MembersWithin(o)
    ensures o.members.Keys == old(o.members.Keys)
    ensures forall l :: l in o.members && l != k ==> o.members[l] == old(o.members)[l]
    ensures forall l, x :: l in o.members && l != k && old(Represents(o.members[l], x)) ==> Represents(o.members[l], x)
    ensures changed <==> !forceRedact && !Sensitive(k) && j.Text? && Sensitive(j.s)
    ensures forceRedact ==> o.members[k] == TextValue(REDACTED_VALUE)
    ensures !forceRedact && !changed ==> HandledAlone(k, j, o.members[k])
    decreases j, 5
  {
    changed := false;
    CoverMember(o, k, forceRedact);
    if o.members[k] != TextValue(REDACTED_VALUE) {
      changed := RedactMember(o, k, j);
    } else {
      RedactedValueIsNotSensitive();
    }
  }

  /** What the first scan leaves at a key it has dealt with: no secret was found there. */
  ghost predicate HandledAlone(k: string, j: Json, v: Value)
    reads Cells(v), Repr(v)
  {
    if Sensitive(k) then v == TextValue(REDACTED_VALUE)
    else !(j.Text? && Sensitive(j.s)) && Represents(v, Redacted(j))
  }

  /** A scan that finds no secret leaves every member redacted on its own. */
  lemma QuietScanIsDone(o: ObjectCell, members: map<string, Json>)
    requires o in o.Repr && o.members.Keys == members.Keys && MembersWithin(o)
    requires forall k :: k in members ==> HandledAlone(k, members[k], o.members[k])
    ensures !HasSensitiveMember(members)
    ensures Represents(ObjectValue(o), Redacted(Object(members)))
  {
    var r := Redacted(Object(members)).members;
    assert r.Keys == members.Keys;
    forall k | k in r
      ensures Represents(o.members[k], r[k])
    {
      assert HandledAlone(k, members[k], o.members[k]);
    }
  }

  /** A forced scan leaves every member replaced. */
  lemma ForcedScanIsDone(o: ObjectCell, members: map<string, Json>)
    requires o in o.Repr && o.members.Keys == members.Keys && MembersWithin(o)
    requires HasSensitiveMember(members)
    requires forall k :: k in members ==> o.members[k] == TextValue(REDACTED_VALUE)
    ensures Represents(ObjectValue(o), Redacted(Object(members)))
  {
    assert Redacted(Object(members)).members.Keys == members.Keys;
  }

  /** What holds while `todo` are the keys the current scan has not come to yet. */
  ghost predicate Scanning(o: ObjectCell, members: map<string, Json>, todo: set<string>, forceRedact: bool)
    reads o, o.Repr
  {
    && o in o.Repr && o.members.Keys == members.Keys && MembersWithin(o)
    && todo <= members.Keys
    && if forceRedact then
         HasSensitiveMember(members)
         && forall k :: k in members && k !in todo ==> o.members[k] == TextValue(REDACTED_VALUE)
       else
         (forall k :: k in members && k !in todo ==> HandledAlone(k, members[k], o.members[k]))
         && forall k :: k in todo ==> Represents(o.members[k], members[k])
  }

  method ForceKey(o: ObjectCell, k: string, ghost members: map<string, Json>, ghost todo: set<string>)
    requires Scanning(o, members, todo, true) && k in todo
    modifies o.Repr
    ensures o.Repr == old(o.Repr) && Scanning(o, members, todo - {k}, true)
    decreases Object(members), 0
  {
    var _ := ScanMember(o, k, true, members[k]);
  }

  method ScanKey(o: ObjectCell, k: string, ghost members: map<string, Json>, ghost todo: set<string>) returns (changed: bool)
    requires Scanning(o, members, todo, false) && k in todo
    modifies o.Repr
    ensures o.Repr == old(o.Repr)
    ensures changed ==> Scanning(o, members, members.Keys, true)
    ensures !changed ==> Scanning(o, members, todo - {k}, false)
    decreases Object(members), 0
  {
    changed := ScanMember(o, k, false, members[k]);
  }

  /** `restarts` counts how often the scan starts over. */
  method RedactObject(o: ObjectCell, ghost members: map<string, Json>) returns (ghost restarts: nat)
    requires Represents(ObjectValue(o), Object(members))
    modifies o.Repr
    ensures o.Repr == old(o.Repr)
    ensures Represents(ObjectValue(o), Redacted(Object(members)))
    ensures restarts == if HasSensitiveMember(members) then 1 else 0
    decreases Object(members), 1
  {
    restarts := 0;
    var forceRedact := false;
    var todo := o.members.Keys;
    while todo != {}
      invariant o.Repr == old(o.Repr)
      invariant Scanning(o, members, todo, forceRedact)
      invariant restarts == if forceRedact then 1 else 0
      decreases !forceRedact, todo
    {
      var k :| k in todo;
      var changed := false;
      if forceRedact {
        ForceKey(o, k, members, todo);
      } else {
        changed := ScanKey(o, k, members, todo);
      }
      todo := todo - {k};
      if changed {
        forceRedact, restarts := true, restarts + 1;
        todo := o.members.Keys;
      }
    }
    if forceRedact {
      ForcedScanIsDone(o, members);
    } else {
      QuietScanIsDone(o, members);
    }
  }

  // ----- Whole documents

  /** Builds what parsing yields: a tree of fresh containers, none shared. */
  method Decode(j: Json) returns (v: Value)
    ensures Represents(v, j) && fresh(Repr(v))
    decreases j, 1
  {
    match j
    case Null => v := NullValue;
    case Bool(b) => v := BoolValue(b);
    case Number(n) => v := NumberValue(n);
    case Text(s) => v := TextValue(s);
    case Array(elems) => v := DecodeArray(elems);
    case Object(members) => v := DecodeObject(members);
  }

  /** The values stand for the documents, and what each of them reaches is its own part of the region. */
  ghost predicate Decoded(vs: seq<Value>, js: seq<Json>, region: set<object>)
    reads region
  {
    && |vs| == |js|
    && (forall i :: 0 <= i < |vs| ==> Cells(vs[i]) <= region && Within(vs[i], region) && Represents(vs[i], js[i]))
    && (forall i, k :: 0 <= i < k < |vs| ==> Cells(vs[i]) <= region && Cells(vs[k]) <= region && Repr(vs[i]) !! Repr(vs[k]))
  }

  lemma AddDecoded(vs: seq<Value>, js: seq<Json>, region: set<object>, w: Value, j: Json)
    requires Decoded(vs, js, region) && Represents(w, j) && Repr(w) !! region
    ensures Decoded(vs + [w], js + [j], region + Repr(w))
  {
    var all := vs + [w];
    assert Cells(w) <= Repr(w);
    assert forall i :: 0 <= i < |vs| ==> Repr(vs[i]) <= region;
  }

  method DecodeArray(elems: seq<Json>) returns (v: Value)
    ensures Represents(v, Array(elems)) && fresh(Repr(v))
    decreases Array(elems), 0
  {
    var vs: seq<Value> := [];
    ghost var region: set<object> := {};
    for i := 0 to |elems|
      invariant fresh(region) && Decoded(vs, elems[..i], region)
    {
      var w := Decode(elems[i]);
      AddDecoded(vs, elems[..i], region, w, elems[i]);
      assert elems[..i + 1] == elems[..i] + [elems[i]];
      vs, region := vs + [w], region + Repr(w);
    }
    assert elems[..|elems|] == elems;
    var a := new ArrayCell;
    a.elems, a.Repr := vs, region + {a};
    v := ArrayValue(a);
  }

  /** The same for the members of an object. */
  ghost predicate DecodedMembers(vs: map<string, Value>, members: map<string, Json>, done: set<string>, region: set<object>)
    reads region
  {
    && vs.Keys == done <= members.Keys
    && (forall k :: k in vs ==> Cells(vs[k]) <= region && Within(vs[k], region) && Represents(vs[k], members[k]))
    && (forall k, l :: k in vs && l in vs && k != l ==> Cells(vs[k]) <= region && Cells(vs[l]) <= region && Repr(vs[k]) !! Repr(vs[l]))
  }

  lemma AddDecodedMember(vs: map<string, Value>, members: map<string, Json>, done: set<string>, region: set<object>, k: string, w: Value)
    requires DecodedMembers(vs, members, done, region) && k in members && k !in done
    requires Represents(w, members[k]) && Repr(w) !! region
    ensures DecodedMembers(vs[k := w], members, done + {k}, region + Repr(w))
  {
    assert Cells(w) <= Repr(w);
    assert forall l :: l in vs ==> Repr(vs[l]) <= region;
  }

  method MakeObject(vs: map<string, Value>, ghost members: map<string, Json>, ghost region: set<object>) returns (v: Value)
    requires DecodedMembers(vs, members, members.Keys, region)
    ensures Represents(v, Object(members)) && fresh(Repr(v) - region)
  {
    var o := new ObjectCell;
    o.members, o.Repr := vs, region + {o};
    v := ObjectValue(o);
  }

  method DecodeObject(members: map<string, Json>) returns (v: Value)
    ensures Represents(v, Object(members)) && fresh(Repr(v))
    decreases Object(members), 0
  {
    var vs: map<string, Value> := map[];
    ghost var region: set<object> := {};
    var todo := members.Keys;
    while todo != {}
      invariant todo <= members.Keys && fresh(region)
      invariant DecodedMembers(vs, members, members.Keys - todo, region)
    {
      var k :| k in todo;
      var w := Decode(members[k]);
      AddDecodedMember(vs, members, members.Keys - todo, region, k, w);
      assert members.Keys - (todo - {k}) == (members.Keys - todo) + {k};
      vs, region, todo := vs[k := w], region + Repr(w), todo - {k};
    }
    v := MakeObject(vs, members, region);
  }

  /** A document is parsed, redacted in place and returned; text that cannot be parsed is returned as it is. */
  method RedactJson(parsed: Option<Json>) returns (r: Option<Value>)
    ensures r.None? <==> parsed.None?
    ensures r.Some? ==> Represents(r.value, Redacted(parsed.value))
  {
    if parsed.None? {
      return None;
    }
    var v := Decode(parsed.value);
    v := RedactValue(v, parsed.value);
    r := Some(v);
  }
}
