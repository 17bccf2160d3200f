/** Writing collected release notes into the changelog: newest first, under a heading for each month. */
module ChangelogFile {
  import opened ChangelogScan
  import opened Wrappers

  // ----- The order of the notes

  predicate Descending(notes: seq<ReleaseNote>) {
    forall i, j :: 0 <= i < j < |notes| ==> notes[i].mergedAt >= notes[j].mergedAt
  }

  /** The notes of one instant, in their order. */
  function At(notes: seq<ReleaseNote>, t: int): seq<ReleaseNote> {
    if notes == [] then [] else (if notes[0].mergedAt == t then [notes[0]] else []) + At(notes[1..], t)
  }

  /** Notes with later times first, and notes of the same time in the order they had. */
  ghost predicate IsStableSort(sorted: seq<ReleaseNote>, notes: seq<ReleaseNote>) {
    Descending(sorted) && forall t :: At(sorted, t) == At(notes, t)
  }

  function Insert(x: ReleaseNote, notes: seq<ReleaseNote>): seq<ReleaseNote> {
    if notes == [] || x.mergedAt >= notes[0].mergedAt then [x] + notes else [notes[0]] + Insert(x, notes[1..])
  }

  function StableSorted(notes: seq<ReleaseNote>): seq<ReleaseNote> {
    if notes == [] then [] else Insert(notes[0], StableSorted(notes[1..]))
  }

  lemma NewestInFront(first: ReleaseNote, rest: seq<ReleaseNote>, others: seq<ReleaseNote>, x: ReleaseNote)
    requires Descending([first] + others) && first.mergedAt > x.mergedAt
    requires Descending(rest) && multiset(rest) == multiset(others) + multiset{x}
    ensures Descending([first] + rest)
  {
    forall i | 0 <= i < |rest| ensures first.mergedAt >= rest[i].mergedAt {
      assert rest[i] in multiset(rest);
      if rest[i] in others {
        var j :| 0 <= j < |others| && others[j] == rest[i];
        assert ([first] + others)[0].mergedAt >= ([first] + others)[j + 1].mergedAt;
      }
    }
  }

  lemma {:induction false} InsertDescends(x: ReleaseNote, notes: seq<ReleaseNote>)
    requires Descending(notes)
    ensures Descending(Insert(x, notes)) && multiset(Insert(x, notes)) == multiset(notes) + multiset{x}
  {
    if notes != [] && x.mergedAt < notes[0].mergedAt {
      InsertDescends(x, notes[1..]);
      assert notes == [notes[0]] + notes[1..];
      NewestInFront(notes[0], Insert(x, notes[1..]), notes[1..], x);
    }
  }

  lemma AtCons(x: ReleaseNote, notes: seq<ReleaseNote>, t: int)
    ensures At([x] + notes, t) == (if x.mergedAt == t then [x] else []) + At(notes, t)
  {
    assert ([x] + notes)[1..] == notes;
  }

  lemma {:induction false} InsertKeepsOrder(x: ReleaseNote, notes: seq<ReleaseNote>, t: int)
    requires Descending(notes)
    ensures At(Insert(x, notes), t) == (if x.mergedAt == t then [x] else []) + At(notes, t)
  {
    if notes == [] || x.mergedAt >= notes[0].mergedAt {
      AtCons(x, notes, t);
    } else {
      InsertKeepsOrder(x, notes[1..], t);
      AtCons(notes[0], Insert(x, notes[1..]), t);
    }
  }

  lemma {:induction false} StableSortedSorts(notes: seq<ReleaseNote>)
    ensures IsStableSort(StableSorted(notes), notes) && multiset(StableSorted(notes)) == multiset(notes)
  {
    if notes != [] {
      StableSortedSorts(notes[1..]);
      var rest := StableSorted(notes[1..]);
      InsertDescends(notes[0], rest);
      forall t ensures At(StableSorted(notes), t) == At(notes, t) {
        InsertKeepsOrder(notes[0], rest, t);
      }
      assert notes == [notes[0]] + notes[1..];
    }
  }

  lemma {:induction false} AtHolds(notes: seq<ReleaseNote>, t: int)
    ensures forall n <- At(notes, t) :: n in notes && n.mergedAt == t
  {
    if notes != [] {
      AtHolds(notes[1..], t);
    }
  }

  lemma FirstIsNewest(a: seq<ReleaseNote>, b: seq<ReleaseNote>)
    requires a != [] && b != [] && Descending(a) && forall t :: At(a, t) == At(b, t)
    ensures a[0].mergedAt >= b[0].mergedAt
  {
    var t := b[0].mergedAt;
    AtHolds(a, t);
    assert b[0] in At(b, t);
    assert b[0] in At(a, t);
  }

  lemma EmptyAlike(a: seq<ReleaseNote>, b: seq<ReleaseNote>)
    requires a == [] && forall t :: At(a, t) == At(b, t)
    ensures b == []
  {
    assert b != [] ==> At(b, b[0].mergedAt) == At(a, b[0].mergedAt);
  }

  /** There is only one way to sort stably. */
  lemma {:induction false} StableSortIsUnique(a: seq<ReleaseNote>, b: seq<ReleaseNote>)
    requires Descending(a) && Descending(b) && forall t :: At(a, t) == At(b, t)
    ensures a == b
  {
    if a == [] {
      EmptyAlike(a, b);
    } else if b == [] {
      EmptyAlike(b, a);
    } else {
      FirstIsNewest(a, b);
      FirstIsNewest(b, a);
      var t := a[0].mergedAt;
      assert a[0] == At(a, t)[0] && b[0] == At(b, t)[0];
      forall u ensures At(a[1..], u) == At(b[1..], u) {
        assert At(a, u) == At(b, u);
        var head := if u == t then [a[0]] else [];
        assert At(a, u)[|head|..] == At(a[1..], u) && At(b, u)[|head|..] == At(b[1..], u);
      }
      StableSortIsUnique(a[1..], b[1..]);
      assert a == [a[0]] + a[1..] && b == [b[0]] + b[1..];
    }
  }

  // ----- The file

  /** A line of the file; the heading above the existing notes is written with one space more. */
  datatype Line = Title | Heading(month: int) | LooseHeading(month: int) | Entry(note: ReleaseNote) | Existing(text: string)

  /** Months are numbered; no later time belongs to an earlier month. */
  ghost predicate Calendar(month: int -> int) {
    forall s, t :: s <= t ==> month(s) <= month(t)
  }

  function Headings(lines: seq<Line>): seq<int> {
    if lines == [] then []
    else Headings(lines[..|lines| - 1]) + if lines[|lines| - 1].Heading? then [lines[|lines| - 1].month] else []
  }

  function Entries(lines: seq<Line>): seq<ReleaseNote> {
    if lines == [] then []
    else Entries(lines[..|lines| - 1]) + if lines[|lines| - 1].Entry? then [lines[|lines| - 1].note] else []
  }

  /** The note of this line, if it has one, stands under the heading of its month. */
  ghost predicate WellPlaced(month: int -> int, lines: seq<Line>, i: nat)
    requires i < |lines|
  {
    lines[i].Entry? ==>
      var headings := Headings(lines[..i]);
      headings != [] && headings[|headings| - 1] == month(lines[i].note.mergedAt)
  }

  /** Every note stands under the heading of its month: no other heading comes between. */
  ghost predicate UnderOwnHeading(month: int -> int, lines: seq<Line>) {
    forall i :: 0 <= i < |lines| ==> WellPlaced(month, lines, i)
  }

  predicate StrictlyDescending(s: seq<int>) {
    forall i, j :: 0 <= i < j < |s| ==> s[i] > s[j]
  }

  ghost function Months(month: int -> int, notes: seq<ReleaseNote>): set<int> {
    set n <- notes :: month(n.mergedAt)
  }

  /** The lines are headings and the notes in their order, each under its month, with one heading for every month
      that has notes, newest first. */
  ghost predicate IsChangelog(month: int -> int, notes: seq<ReleaseNote>, lines: seq<Line>) {
    && (forall l <- lines :: l.Heading? || l.Entry?)
    && Entries(lines) == notes && UnderOwnHeading(month, lines)
    && StrictlyDescending(Headings(lines)) && (set m <- Headings(lines)) == Months(month, notes)
  }

  function LastMonth(month: int -> int, notes: seq<ReleaseNote>): Option<int> {
    if notes == [] then None else Some(month(notes[|notes| - 1].mergedAt))
  }

  /** The last heading is the one of the last note. */
  ghost predicate EndsIn(month: int -> int, notes: seq<ReleaseNote>, lines: seq<Line>) {
    var headings := Headings(lines);
    LastMonth(month, notes) == if headings == [] then None else Some(headings[|headings| - 1])
  }

  lemma AddLine(lines: seq<Line>, line: Line)
    ensures Headings(lines + [line]) == Headings(lines) + if line.Heading? then [line.month] else []
    ensures Entries(lines + [line]) == Entries(lines) + if line.Entry? then [line.note] else []
  {
    assert (lines + [line])[..|lines|] == lines;
  }

  lemma PrefixStays(lines: seq<Line>, line: Line, i: nat)
    requires i <= |lines|
    ensures (lines + [line])[..i] == lines[..i]
  {
  }

  lemma AddedIsUnderHeading(month: int -> int, lines: seq<Line>, line: Line)
    requires UnderOwnHeading(month, lines)
    requires line.Entry? ==>
               Headings(lines) != [] && Headings(lines)[|Headings(lines)| - 1] == month(line.note.mergedAt)
    ensures UnderOwnHeading(month, lines + [line])
  {
    forall i | 0 <= i <= |lines| ensures WellPlaced(month, lines + [line], i) {
      PrefixStays(lines, line, i);
      if i < |lines| {
        assert WellPlaced(month, lines, i);
      } else {
        assert lines[..i] == lines;
      }
    }
  }

  lemma MonthsOfAppended(month: int -> int, notes: seq<ReleaseNote>, n: ReleaseNote)
    ensures Months(month, notes + [n]) == Months(month, notes) + {month(n.mergedAt)}
  {
    assert n in notes + [n];
    forall q | q in notes ensures q in notes + [n] {
    }
  }

  lemma AddToSameMonth(month: int -> int, notes: seq<ReleaseNote>, lines: seq<Line>, n: ReleaseNote)
    requires IsChangelog(month, notes, lines) && EndsIn(month, notes, lines)
    requires LastMonth(month, notes) == Some(month(n.mergedAt))
    ensures IsChangelog(month, notes + [n], lines + [Entry(n)]) && EndsIn(month, notes + [n], lines + [Entry(n)])
  {
    AddLine(lines, Entry(n));
    AddedIsUnderHeading(month, lines, Entry(n));
    MonthsOfAppended(month, notes, n);
    assert notes[|notes| - 1] in notes;
  }

  lemma HeadingsOfAppended(headings: seq<int>, m: int)
    requires StrictlyDescending(headings) && (headings == [] || headings[|headings| - 1] > m)
    ensures StrictlyDescending(headings + [m]) && (set h <- headings + [m]) == (set h <- headings) + {m}
  {
    assert m in headings + [m];
    forall h | h in headings ensures h in headings + [m] {
    }
  }

  lemma NewMonthIsEarlier(month: int -> int, notes: seq<ReleaseNote>, n: ReleaseNote)
    requires Calendar(month) && Descending(notes + [n]) && LastMonth(month, notes) != Some(month(n.mergedAt))
    ensures notes == [] || month(notes[|notes| - 1].mergedAt) > month(n.mergedAt)
  {
    if notes != [] {
      assert (notes + [n])[|notes| - 1].mergedAt >= (notes + [n])[|notes|].mergedAt;
      assert month(n.mergedAt) <= month(notes[|notes| - 1].mergedAt);
    }
  }

  lemma AddToNewMonth(month: int -> int, notes: seq<ReleaseNote>, lines: seq<Line>, n: ReleaseNote)
    requires Calendar(month) && Descending(notes + [n])
    requires IsChangelog(month, notes, lines) && EndsIn(month, notes, lines)
    requires LastMonth(month, notes) != Some(month(n.mergedAt))
    ensures IsChangelog(month, notes + [n], lines + [Heading(month(n.mergedAt))] + [Entry(n)])
    ensures EndsIn(month, notes + [n], lines + [Heading(month(n.mergedAt))] + [Entry(n)])
  {
    var m := month(n.mergedAt);
    var headed := lines + [Heading(m)];
    AddLine(lines, Heading(m));
    AddedIsUnderHeading(month, lines, Heading(m));
    AddLine(headed, Entry(n));
    AddedIsUnderHeading(month, headed, Entry(n));
    MonthsOfAppended(month, notes, n);
    NewMonthIsEarlier(month, notes, n);
    HeadingsOfAppended(Headings(lines), m);
  }

  /** The heading above the existing notes: there if there are any, and the last heading above them is of another month. */
  predicate NeedsHeading(month: int -> int, body: seq<Line>, existing: seq<string>, lastPrDate: int) {
    var headings := Headings(body);
    existing != [] && (headings == [] || headings[|headings| - 1] != month(lastPrDate))
  }

  /** The title, the lines for the new notes, the heading for the existing ones if it is needed, and all of these in
      their order: every line of the file is accounted for. */
  ghost predicate IsFile(month: int -> int, body: seq<Line>, existing: seq<string>, lastPrDate: int, file: seq<Line>) {
    var heading := NeedsHeading(month, body, existing, lastPrDate);
    var start := |file| - |existing|;
    && start == 1 + |body| + (if heading then 1 else 0)
    && file[0] == Title && file[1..1 + |body|] == body
    && (heading ==> file[start - 1] == LooseHeading(month(lastPrDate)))
    && forall i :: 0 <= i < |existing| ==> file[start + i] == Existing(existing[i])
  }

  /** So no other line is an existing note or the heading above them. */
  lemma OtherLinesAreNew(month: int -> int, notes: seq<ReleaseNote>, body: seq<Line>, existing: seq<string>, lastPrDate: int,
                         file: seq<Line>, i: nat)
    requires IsChangelog(month, notes, body) && IsFile(month, body, existing, lastPrDate, file) && i < |file|
    ensures file[i].Existing? <==> i >= |file| - |existing|
    ensures file[i].LooseHeading? <==> i == |file| - |existing| - 1 && NeedsHeading(month, body, existing, lastPrDate)
  {
    if 1 <= i <= |body| {
      assert file[i] == file[1..1 + |body|][i - 1] && body[i - 1] in body;
    } else if i >= |file| - |existing| {
      assert file[i] == Existing(existing[i - (|file| - |existing|)]);
    }
  }

  lemma FileMeans(month: int -> int, notes: seq<ReleaseNote>, body: seq<Line>, existing: seq<string>, lastPrDate: int, file: seq<Line>)
    requires IsChangelog(month, notes, body) && EndsIn(month, notes, body) && IsFile(month, body, existing, lastPrDate, file)
    ensures |existing| < |file|
    ensures forall i :: 0 <= i < |existing| ==> file[|file| - |existing| + i] == Existing(existing[i])
    ensures forall i :: 0 <= i < |file| - |existing| ==> !file[i].Existing?
    ensures forall i :: 0 <= i < |file| && file[i].LooseHeading? ==> i == |file| - |existing| - 1
    ensures file[|file| - |existing| - 1] == LooseHeading(month(lastPrDate)) <==>
              existing != [] && (notes == [] || month(notes[|notes| - 1].mergedAt) != month(lastPrDate))
  {
    forall i | 0 <= i < |file|
      ensures file[i].Existing? <==> i >= |file| - |existing|
      ensures file[i].LooseHeading? <==> i == |file| - |existing| - 1 && NeedsHeading(month, body, existing, lastPrDate)
    {
      OtherLinesAreNew(month, notes, body, existing, lastPrDate, file, i);
    }
  }

  method SortNotes(notes: array<ReleaseNote>)
    modifies notes
    ensures IsStableSort(notes[..], old(notes[..])) && multiset(notes[..]) == multiset(old(notes[..]))
  {
    StableSortedSorts(notes[..]);
    var sorted := StableSorted(notes[..]);
    assert |sorted| == |multiset(sorted)| == |multiset(notes[..])| == notes.Length;
    forall i | 0 <= i < notes.Length {
      notes[i] := sorted[i];
    }
    assert notes[..] == sorted;
  }

  method WriteNotes(month: int -> int, notes: seq<ReleaseNote>) returns (lines: seq<Line>, lastMonth: Option<int>)
    requires Calendar(month) && Descending(notes)
    ensures IsChangelog(month, notes, lines) && EndsIn(month, notes, lines) && lastMonth == LastMonth(month, notes)
  {
    lines, lastMonth := [], None;
    for i := 0 to |notes|
      invariant lastMonth == LastMonth(month, notes[..i])
      invariant IsChangelog(month, notes[..i], lines) && EndsIn(month, notes[..i], lines)
    {
      var note := notes[i];
      var currentMonth := month(note.mergedAt);
      assert notes[..i] + [note] == notes[..i + 1];
      if Some(currentMonth) != lastMonth {
        AddToNewMonth(month, notes[..i], lines, note);
        lines := lines + [Heading(currentMonth)];
        lastMonth := Some(currentMonth);
      } else {
        AddToSameMonth(month, notes[..i], lines, note);
      }
      lines := lines + [Entry(note)];
    }
    assert notes[..|notes|] == notes;
  }

  method WriteExisting(before: seq<Line>, existing: seq<string>) returns (file: seq<Line>)
    ensures |file| == |before| + |existing| && file[..|before|] == before
    ensures forall i :: 0 <= i < |existing| ==> file[|before| + i] == Existing(existing[i])
  {
    file := before;
    for i := 0 to |existing|
      invariant |file| == |before| + i && file[..|before|] == before
      invariant forall j :: 0 <= j < i ==> file[|before| + j] == Existing(existing[j])
    {
      file := file + [Existing(existing[i])];
    }
  }

  /** Sorts the notes in place and writes the file: the new notes under their months, then all existing ones. */
  method WriteFile(month: int -> int, notes: array<ReleaseNote>, existing: seq<string>, lastPrDate: int) returns (file: seq<Line>)
    requires Calendar(month)
    modifies notes
    ensures IsStableSort(notes[..], old(notes[..])) && multiset(notes[..]) == multiset(old(notes[..]))
    ensures exists body :: IsChangelog(month, notes[..], body) && IsFile(month, body, existing, lastPrDate, file)
    ensures |existing| < |file| && forall i :: 0 <= i < |existing| ==> file[|file| - |existing| + i] == Existing(existing[i])
    ensures forall i :: 0 <= i < |file| - |existing| ==> !file[i].Existing?
    ensures forall i :: 0 <= i < |file| && file[i].LooseHeading? ==> i == |file| - |existing| - 1
    ensures file[|file| - |existing| - 1] == LooseHeading(month(lastPrDate)) <==>
              existing != [] && (notes.Length == 0 || month(notes[notes.Length - 1].mergedAt) != month(lastPrDate))
  {
    SortNotes(notes);
    var body, lastMonth := WriteNotes(month, notes[..]);
    file := [Title] + body;
    if |existing| > 0 {
      var currentMonth := month(lastPrDate);
      if Some(currentMonth) != lastMonth {
        file := file + [LooseHeading(currentMonth)];
      }
      file := WriteExisting(file, existing);
    }
    assert file[..1 + |body|] == [Title] + body;
    assert file[1..1 + |body|] == file[..1 + |body|][1..];
    assert IsFile(month, body, existing, lastPrDate, file);
    FileMeans(month, notes[..], body, existing, lastPrDate, file);
  }
}
