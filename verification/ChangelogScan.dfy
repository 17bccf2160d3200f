/** Collecting release notes from pull requests that come page by page, last updated first. */
module ChangelogScan {
  import opened Strings
  import opened Wrappers

  datatype Error = NoLastPr | RateLimit | ListFailed(message: string) | MergeUnknown(num: int) | AuthorsUnknown(num: int)

  datatype Result<+T> = Ok(value: T) | Err(error: Error)

  datatype Author = Author(login: string, url: string)

  /** Times are instants; `block` is the text of the release-note block in the body, if there is one. */
  datatype PullRequest = PullRequest(num: int, updatedAt: int, mergedAt: int, title: string, block: Option<string>)

  datatype ReleaseNote = ReleaseNote(breaking: bool, description: string, num: int, authors: set<Author>, mergedAt: int)

  datatype Page = Page(prs: seq<PullRequest>) | PageLimited | PageFailed(message: string)

  datatype MergeCheck = Checked(merged: bool) | CheckLimited | CheckFailed

  /** What the service answers; the pages in the order in which they are asked for. */
  datatype Service = Service(
    mergedAt: int -> Option<int>,
    pages: seq<Page>,
    isMerged: int -> MergeCheck,
    authors: int -> Option<set<Author>>)

  // ----- The notes of one pull request

  /** The white space of Unicode. */
  predicate IsSpace(c: char) {
    || c in {' ', '\t', '\n', '\r', '\U{0B}', '\U{0C}', '\U{85}', '\U{A0}', '\U{1680}', '\U{2028}', '\U{2029}', '\U{202F}', '\U{205F}', '\U{3000}'}
    || '\U{2000}' <= c <= '\U{200A}'
  }

  predicate IsReturn(c: char) {
    c == '\r'
  }

  function TrimLeft(s: string, cut: char -> bool): string {
    if s != "" && cut(s[0]) then TrimLeft(s[1..], cut) else s
  }

  function TrimRight(s: string, cut: char -> bool): string {
    if s != "" && cut(s[|s| - 1]) then TrimRight(s[..|s| - 1], cut) else s
  }

  function Trim(s: string, cut: char -> bool): string {
    TrimRight(TrimLeft(s, cut), cut)
  }

  ghost predicate AllCut(s: string, cut: char -> bool) {
    forall c <- s :: cut(c)
  }

  ghost predicate Trimmed(s: string, cut: char -> bool) {
    s != "" ==> !cut(s[0]) && !cut(s[|s| - 1])
  }

  lemma {:induction false} TrimLeftTrims(s: string, cut: char -> bool) returns (a: string)
    ensures s == a + TrimLeft(s, cut) && AllCut(a, cut)
    ensures TrimLeft(s, cut) != "" ==> !cut(TrimLeft(s, cut)[0])
  {
    if s != "" && cut(s[0]) {
      var rest := TrimLeftTrims(s[1..], cut);
      a := [s[0]] + rest;
      assert [s[0]] + (rest + TrimLeft(s, cut)) == a + TrimLeft(s, cut);
      assert s == [s[0]] + s[1..];
    } else {
      a := "";
    }
  }

  lemma {:induction false} TrimRightTrims(s: string, cut: char -> bool) returns (b: string)
    ensures s == TrimRight(s, cut) + b && AllCut(b, cut)
    ensures TrimRight(s, cut) != "" ==> !cut(TrimRight(s, cut)[|TrimRight(s, cut)| - 1])
  {
    if s != "" && cut(s[|s| - 1]) {
      var rest := TrimRightTrims(s[..|s| - 1], cut);
      b := rest + [s[|s| - 1]];
      assert (TrimRight(s, cut) + rest) + [s[|s| - 1]] == TrimRight(s, cut) + b;
      assert s == s[..|s| - 1] + [s[|s| - 1]];
    } else {
      b := "";
    }
  }

  /** Trimming takes off characters to be cut at both ends, and all of them. */
  lemma TrimTrims(s: string, cut: char -> bool) returns (a: string, b: string)
    ensures s == a + Trim(s, cut) + b && AllCut(a, cut) && AllCut(b, cut) && Trimmed(Trim(s, cut), cut)
  {
    a := TrimLeftTrims(s, cut);
    b := TrimRightTrims(TrimLeft(s, cut), cut);
    assert a + (Trim(s, cut) + b) == a + Trim(s, cut) + b;
  }

  /** Upper case, as far as letters of the word below can come out of it. */
  function ToUpper(s: string): string {
    seq(|s|, i requires 0 <= i < |s| => if 'a' <= s[i] <= 'z' then (s[i] as int - 'a' as int + 'A' as int) as char else s[i])
  }

  predicate SaysNone(s: string) {
    ToUpper(s) == "NONE"
  }

  /** An exclamation mark in front makes a note a breaking one. */
  function NoteOfLine(p: PullRequest, authors: set<Author>, line: string): ReleaseNote {
    var n := Trim(line, IsReturn);
    var breaking := n != "" && n[0] == '!';
    ReleaseNote(breaking, if breaking then Trim(n[1..], IsSpace) else n, p.num, authors, p.mergedAt)
  }

  /** No block: the title is the note. Otherwise every line of the block is a note, unless it says that there is none. */
  function NotesOfMerged(p: PullRequest, authors: set<Author>): seq<ReleaseNote> {
    if p.block.None? then [ReleaseNote(false, p.title, p.num, authors, p.mergedAt)]
    else
      var note := Trim(p.block.value, IsSpace);
      if SaysNone(note) then []
      else
        var lines := Split(note, '\n');
        seq(|lines|, i requires 0 <= i < |lines| => NoteOfLine(p, authors, lines[i]))
  }

  /** A line is its note: a mark for a breaking note, and the description, with nothing but white space around them. */
  ghost predicate Spells(line: string, a: string, c: string, d: string, note: ReleaseNote) {
    && AllCut(a, IsReturn) && AllCut(c, IsSpace) && AllCut(d, IsSpace)
    && line == a + (if note.breaking then "!" + c else "") + note.description + d
    && (if note.breaking then Trimmed(note.description, IsSpace)
        else AllCut(d, IsReturn) && Trimmed(note.description, IsReturn) && (note.description != "" ==> note.description[0] != '!'))
  }

  ghost predicate IsNoteOf(p: PullRequest, authors: set<Author>, line: string, note: ReleaseNote) {
    && note.num == p.num && note.authors == authors && note.mergedAt == p.mergedAt
    && exists a, c, d :: Spells(line, a, c, d, note)
  }

  lemma Regroup(a: string, mark: string, c: string, x: string, d: string, b: string)
    ensures a + (mark + (c + x + d)) + b == a + (mark + c) + x + (d + b)
  {
  }

  lemma BreakingLineIsNoted(p: PullRequest, authors: set<Author>, line: string)
    requires NoteOfLine(p, authors, line).breaking
    ensures IsNoteOf(p, authors, line, NoteOfLine(p, authors, line))
  {
    var note := NoteOfLine(p, authors, line);
    var n := Trim(line, IsReturn);
    var a, b := TrimTrims(line, IsReturn);
    var c, d := TrimTrims(n[1..], IsSpace);
    assert n == "!" + n[1..];
    Regroup(a, "!", c, note.description, d, b);
    assert Spells(line, a, c, d + b, note);
  }

  lemma PlainLineIsNoted(p: PullRequest, authors: set<Author>, line: string)
    requires !NoteOfLine(p, authors, line).breaking
    ensures IsNoteOf(p, authors, line, NoteOfLine(p, authors, line))
  {
    var note := NoteOfLine(p, authors, line);
    var a, b := TrimTrims(line, IsReturn);
    assert a + "" == a;
    assert Spells(line, a, "", b, note);
  }

  /** The notes of a block are its lines, one by one, and the lines are the block without the white space around it. */
  ghost predicate CoversBlock(p: PullRequest, authors: set<Author>, notes: seq<ReleaseNote>)
    requires p.block.Some?
  {
    exists lines ::
      && |lines| == |notes| && Join(lines, '\n') == Trim(p.block.value, IsSpace)
      && (forall i :: 0 <= i < |lines| ==> Free(lines[i], '\n') && IsNoteOf(p, authors, lines[i], notes[i]))
  }

  lemma NotesCoverTheBlock(p: PullRequest, authors: set<Author>)
    requires p.block.Some? && !SaysNone(Trim(p.block.value, IsSpace))
    ensures CoversBlock(p, authors, NotesOfMerged(p, authors))
  {
    var note := Trim(p.block.value, IsSpace);
    var lines, notes := Split(note, '\n'), NotesOfMerged(p, authors);
    JoinSplit(note, '\n');
    forall i | 0 <= i < |lines|
      ensures IsNoteOf(p, authors, lines[i], notes[i])
    {
      if notes[i].breaking {
        BreakingLineIsNoted(p, authors, lines[i]);
      } else {
        PlainLineIsNoted(p, authors, lines[i]);
      }
    }
  }

  function NotesOf(service: Service, p: PullRequest): Result<seq<ReleaseNote>> {
    match service.isMerged(p.num)
    case CheckLimited => Err(RateLimit)
    case CheckFailed => Err(MergeUnknown(p.num))
    case Checked(false) => Ok([])
    case Checked(true) =>
      var authors := service.authors(p.num);
      if authors.None? then Err(AuthorsUnknown(p.num)) else Ok(NotesOfMerged(p, authors.value))
  }

  // ----- What is to be collected: a plain filter, without a stop

  function Numbers(prs: seq<PullRequest>): set<int> {
    set p <- prs :: p.num
  }

  /** Those merged after the date, the first of every number. */
  function Fresh(prs: seq<PullRequest>, date: int): seq<PullRequest> {
    if prs == [] then []
    else
      var last := prs[|prs| - 1];
      var before := Fresh(prs[..|prs| - 1], date);
      if last.mergedAt > date && last.num !in Numbers(before) then before + [last] else before
  }

  /** The notes of all of them, or the error of the first for which the service fails. */
  function Collect(service: Service, prs: seq<PullRequest>): Result<seq<ReleaseNote>> {
    if prs == [] then Ok([])
    else match Collect(service, prs[..|prs| - 1])
      case Err(error) => Err(error)
      case Ok(notes) =>
        match NotesOf(service, prs[|prs| - 1])
        case Err(error) => Err(error)
        case Ok(more) => Ok(notes + more)
  }

  /** What the pages list before the first that fails. */
  function Listed(pages: seq<Page>): seq<PullRequest> {
    if pages == [] || !pages[0].Page? then [] else pages[0].prs + Listed(pages[1..])
  }

  function ListError(pages: seq<Page>): Option<Error> {
    if pages == [] then None
    else match pages[0]
      case Page(_) => ListError(pages[1..])
      case PageLimited => Some(RateLimit)
      case PageFailed(message) => Some(ListFailed(message))
  }

  // ----- Where the scan stops

  /** At something last updated before the date, unless its number has been processed. */
  predicate StopsAt(prs: seq<PullRequest>, date: int, k: nat)
    requires k < |prs|
  {
    prs[k].updatedAt < date && prs[k].num !in Numbers(Fresh(prs[..k], date))
  }

  predicate Reaches(prs: seq<PullRequest>, date: int, k: nat) {
    k <= |prs| && forall i :: 0 <= i < k ==> !StopsAt(prs, date, i)
  }

  predicate IsStop(prs: seq<PullRequest>, date: int, k: nat) {
    Reaches(prs, date, k) && (k < |prs| ==> StopsAt(prs, date, k))
  }

  /** A page that fails matters only if the scan gets that far; the errors of earlier pull requests come first. */
  ghost predicate IsResult(service: Service, date: int, k: nat, r: Result<seq<ReleaseNote>>) {
    var prs := Listed(service.pages);
    var error := ListError(service.pages);
    && IsStop(prs, date, k)
    && var notes := Collect(service, Fresh(prs[..k], date));
       r == if notes.Err? || k < |prs| || error.None? then notes else Err(error.value)
  }

  // ----- The scan

  lemma FreshStep(prs: seq<PullRequest>, date: int, k: nat)
    requires k < |prs|
    ensures var before := Fresh(prs[..k], date);
            Fresh(prs[..k + 1], date) ==
              if prs[k].mergedAt > date && prs[k].num !in Numbers(before) then before + [prs[k]] else before
  {
    assert prs[..k + 1][..k] == prs[..k];
  }

  lemma NumbersOfAppended(prs: seq<PullRequest>, p: PullRequest)
    ensures Numbers(prs + [p]) == Numbers(prs) + {p.num}
  {
    assert p in prs + [p];
    forall q | q in prs ensures q in prs + [p] {
    }
  }

  lemma CollectStep(service: Service, prs: seq<PullRequest>, p: PullRequest)
    requires Collect(service, prs).Ok?
    ensures Collect(service, prs + [p]) ==
              match NotesOf(service, p)
              case Err(error) => Err(error)
              case Ok(more) => Ok(Collect(service, prs).value + more)
  {
    assert (prs + [p])[..|prs|] == prs;
  }

  lemma {:induction false} FirstErrorStays(service: Service, prs: seq<PullRequest>, more: seq<PullRequest>)
    requires Collect(service, prs).Err?
    ensures Collect(service, prs + more) == Collect(service, prs)
  {
    if more == [] {
      assert prs + more == prs;
    } else {
      var front := more[..|more| - 1];
      FirstErrorStays(service, prs, front);
      assert (prs + more)[..|prs + more| - 1] == prs + front;
    }
  }

  lemma PrefixOfAppended(a: seq<PullRequest>, b: seq<PullRequest>, p: PullRequest)
    requires a <= b
    ensures a <= b + [p]
  {
  }

  lemma {:induction false} FreshExtends(prs: seq<PullRequest>, date: int, i: nat, j: nat)
    requires i <= j <= |prs|
    ensures Fresh(prs[..i], date) <= Fresh(prs[..j], date)
    decreases j - i
  {
    if i < j {
      FreshExtends(prs, date, i, j - 1);
      FreshStep(prs, date, j - 1);
      PrefixOfAppended(Fresh(prs[..i], date), Fresh(prs[..j - 1], date), prs[j - 1]);
    }
  }

  lemma {:induction false} StopExists(prs: seq<PullRequest>, date: int, i: nat) returns (k: nat)
    requires Reaches(prs, date, i)
    ensures i <= k && IsStop(prs, date, k)
    decreases |prs| - i
  {
    if i == |prs| || StopsAt(prs, date, i) {
      k := i;
    } else {
      k := StopExists(prs, date, i + 1);
    }
  }

  lemma FirstErrorIsResult(service: Service, date: int, i: nat, error: Error)
    requires var prs := Listed(service.pages);
             Reaches(prs, date, i) && Collect(service, Fresh(prs[..i], date)) == Err(error)
    ensures exists k: nat :: IsResult(service, date, k, Err(error))
  {
    var prs := Listed(service.pages);
    var k := StopExists(prs, date, i);
    FreshExtends(prs, date, i, k);
    var first, all := Fresh(prs[..i], date), Fresh(prs[..k], date);
    FirstErrorStays(service, first, all[|first|..]);
    assert first + all[|first|..] == all;
    assert IsResult(service, date, k, Err(error));
  }

  /** The answers of the service for one pull request, turned into notes line by line. */
  method ReleaseNotesOf(service: Service, p: PullRequest) returns (r: Result<seq<ReleaseNote>>)
    ensures r == NotesOf(service, p)
    ensures r == Err(RateLimit) <==> service.isMerged(p.num).CheckLimited?
    ensures r == Err(MergeUnknown(p.num)) <==> service.isMerged(p.num).CheckFailed?
    ensures r == Err(AuthorsUnknown(p.num)) <==> service.isMerged(p.num) == Checked(true) && service.authors(p.num).None?
    ensures service.isMerged(p.num) == Checked(false) ==> r == Ok([])
    ensures r.Ok? && service.isMerged(p.num).merged && p.block.None? ==>
              r.value == [ReleaseNote(false, p.title, p.num, service.authors(p.num).value, p.mergedAt)]
    ensures r.Ok? && p.block.Some? && ToUpper(Trim(p.block.value, IsSpace)) == "NONE" ==> r.value == []
    ensures r.Ok? && service.isMerged(p.num).merged && p.block.Some? && !SaysNone(Trim(p.block.value, IsSpace)) ==>
              CoversBlock(p, service.authors(p.num).value, r.value)
  {
    var isMerged := service.isMerged(p.num);
    if isMerged.CheckLimited? {
      return Err(RateLimit);
    }
    if isMerged.CheckFailed? {
      return Err(MergeUnknown(p.num));
    }
    if !isMerged.merged {
      return Ok([]);
    }
    var authors := service.authors(p.num);
    if authors.None? {
      return Err(AuthorsUnknown(p.num));
    }
    if p.block.None? {
      return Ok([ReleaseNote(false, p.title, p.num, authors.value, p.mergedAt)]);
    }
    var note := Trim(p.block.value, IsSpace);
    if SaysNone(note) {
      return Ok([]);
    }
    var lines := Split(note, '\n');
    var notes := [];
    for i := 0 to |lines|
      invariant |notes| == i
      invariant forall j :: 0 <= j < i ==> notes[j] == NoteOfLine(p, authors.value, lines[j])
    {
      var n := Trim(lines[i], IsReturn);
      var breaking := false;
      if n != "" && n[0] == '!' {
        breaking := true;
        n := Trim(n[1..], IsSpace);
      }
      notes := notes + [ReleaseNote(breaking, n, p.num, authors.value, p.mergedAt)];
    }
    assert notes == NotesOfMerged(p, authors.value);
    NotesCoverTheBlock(p, authors.value);
    return Ok(notes);
  }

  /** How far the scan of one page gets. */
  datatype PageEnd = PageDone | Stopped | Failed(error: Error)

  /** The scan has dealt with the first `k` pull requests. */
  ghost predicate Scanned(service: Service, all: seq<PullRequest>, date: int, k: nat, processed: set<int>, notes: seq<ReleaseNote>) {
    && Reaches(all, date, k) && processed == Numbers(Fresh(all[..k], date))
    && Collect(service, Fresh(all[..k], date)) == Ok(notes)
  }

  lemma SkippedIsScanned(service: Service, all: seq<PullRequest>, date: int, k: nat, processed: set<int>, notes: seq<ReleaseNote>)
    requires k < |all| && Scanned(service, all, date, k, processed, notes)
    requires all[k].num in processed || all[k].mergedAt <= date <= all[k].updatedAt
    ensures Scanned(service, all, date, k + 1, processed, notes)
  {
    FreshStep(all, date, k);
  }

  lemma CollectedIsScanned(service: Service, all: seq<PullRequest>, date: int, k: nat, processed: set<int>, notes: seq<ReleaseNote>)
    requires k < |all| && Scanned(service, all, date, k, processed, notes)
    requires all[k].num !in processed && all[k].mergedAt > date && all[k].updatedAt >= date
    ensures match NotesOf(service, all[k])
            case Ok(more) => Scanned(service, all, date, k + 1, processed + {all[k].num}, notes + more)
            case Err(error) => Reaches(all, date, k + 1) && Collect(service, Fresh(all[..k + 1], date)) == Err(error)
  {
    FreshStep(all, date, k);
    NumbersOfAppended(Fresh(all[..k], date), all[k]);
    CollectStep(service, Fresh(all[..k], date), all[k]);
    assert !StopsAt(all, date, k);
  }

  /** Scans the pull requests of one page, which come after the first `start` of all those listed. */
  method ScanPage(service: Service, prs: seq<PullRequest>, date: int, processed0: set<int>, notes0: seq<ReleaseNote>,
                  ghost all: seq<PullRequest>, ghost start: nat)
    returns (processed: set<int>, notes: seq<ReleaseNote>, end: PageEnd)
    requires start + |prs| <= |all| && prs == all[start..start + |prs|]
    requires Scanned(service, all, date, start, processed0, notes0)
    ensures end.PageDone? ==> Scanned(service, all, date, start + |prs|, processed, notes)
    ensures end.Stopped? ==> exists k: nat :: k < |all| && IsStop(all, date, k) && Collect(service, Fresh(all[..k], date)) == Ok(notes)
    ensures end.Failed? ==> exists k: nat :: Reaches(all, date, k) && Collect(service, Fresh(all[..k], date)) == Err(end.error)
  {
    processed, notes := processed0, notes0;
    for i := 0 to |prs|
      invariant Scanned(service, all, date, start + i, processed, notes)
    {
      var p := prs[i];
      ghost var k := start + i;
      assert p == all[k];
      if p.num in processed {
        SkippedIsScanned(service, all, date, k, processed, notes);
        continue;
      }
      if p.updatedAt < date {
        assert IsStop(all, date, k);
        return processed, notes, Stopped;
      }
      if p.mergedAt <= date {
        SkippedIsScanned(service, all, date, k, processed, notes);
        continue;
      }
      CollectedIsScanned(service, all, date, k, processed, notes);
      processed := processed + {p.num};
      var more := ReleaseNotesOf(service, p);
      if more.Err? {
        assert Reaches(all, date, k + 1);
        return processed, notes, Failed(more.error);
      }
      notes := notes + more.value;
    }
    end := PageDone;
  }

  /** The pages before this one list the first `start` pull requests, and none of them failed. */
  ghost predicate Position(service: Service, page: nat, start: nat) {
    var all := Listed(service.pages);
    && page <= |service.pages| && start <= |all| && all[start..] == Listed(service.pages[page..])
    && ListError(service.pages) == ListError(service.pages[page..])
  }

  lemma NextPosition(service: Service, page: nat, start: nat)
    requires Position(service, page, start) && page < |service.pages| && service.pages[page].Page?
    ensures var all := Listed(service.pages);
            var prs := service.pages[page].prs;
            && start + |prs| <= |all| && prs == all[start..start + |prs|]
            && Position(service, page + 1, start + |prs|)
  {
    var all := Listed(service.pages);
    var prs := service.pages[page].prs;
    var later := Listed(service.pages[page + 1..]);
    assert service.pages[page..][1..] == service.pages[page + 1..];
    assert all[start..] == prs + later;
    assert all[start..][..|prs|] == prs;
    assert all[start..][|prs|..] == later;
  }

  lemma FailingPosition(service: Service, page: nat, start: nat)
    requires Position(service, page, start) && page < |service.pages| && !service.pages[page].Page?
    ensures start == |Listed(service.pages)|
    ensures ListError(service.pages) == Some(match service.pages[page]
                                             case PageLimited => RateLimit
                                             case PageFailed(message) => ListFailed(message))
  {
    assert Listed(service.pages[page..]) == [];
  }

  lemma ScannedIsResult(service: Service, date: int, processed: set<int>, notes: seq<ReleaseNote>)
    requires Scanned(service, Listed(service.pages), date, |Listed(service.pages)|, processed, notes)
    ensures IsResult(service, date, |Listed(service.pages)|,
                     if ListError(service.pages).None? then Ok(notes) else Err(ListError(service.pages).value))
  {
  }

  lemma StoppedIsResult(service: Service, date: int, k: nat, notes: seq<ReleaseNote>)
    requires var all := Listed(service.pages);
             k < |all| && IsStop(all, date, k) && Collect(service, Fresh(all[..k], date)) == Ok(notes)
    ensures IsResult(service, date, k, Ok(notes))
  {
  }

  method GetReleaseNotes(service: Service, lastPrNr: int, lastPrMonth: int) returns (r: Result<seq<ReleaseNote>>)
    ensures var date := if lastPrNr == 0 then Some(lastPrMonth) else service.mergedAt(lastPrNr);
            if date.None? then r == Err(NoLastPr) else exists k: nat :: IsResult(service, date.value, k, r)
  {
    var lastPrDate := lastPrMonth;
    if lastPrNr != 0 {
      var mergedAt := service.mergedAt(lastPrNr);
      if mergedAt.None? {
        return Err(NoLastPr);
      }
      lastPrDate := mergedAt.value;
    }
    r := ScanPages(service, lastPrDate);
  }

  method ScanPages(service: Service, date: int) returns (r: Result<seq<ReleaseNote>>)
    ensures exists k: nat :: IsResult(service, date, k, r)
  {
    ghost var all := Listed(service.pages);
    ghost var start: nat := 0;
    var processed: set<int>, notes: seq<ReleaseNote> := {}, [];
    assert all[..0] == [];
    for page := 0 to |service.pages|
      invariant Position(service, page, start)
      invariant Scanned(service, all, date, start, processed, notes)
    {
      if !service.pages[page].Page? {
        FailingPosition(service, page, start);
        ScannedIsResult(service, date, processed, notes);
      }
      match service.pages[page]
      case PageLimited => return Err(RateLimit);
      case PageFailed(message) => return Err(ListFailed(message));
      case Page(prs) =>
        NextPosition(service, page, start);
        var end;
        processed, notes, end := ScanPage(service, prs, date, processed, notes, all, start);
        match end
        case Stopped =>
          ghost var k: nat :| k < |all| && IsStop(all, date, k) && Collect(service, Fresh(all[..k], date)) == Ok(notes);
          StoppedIsResult(service, date, k, notes);
          return Ok(notes);
        case Failed(error) =>
          ghost var k: nat :| Reaches(all, date, k) && Collect(service, Fresh(all[..k], date)) == Err(error);
          FirstErrorIsResult(service, date, k, error);
          return Err(error);
        case PageDone =>
          start := start + |prs|;
    }
    ScannedIsResult(service, date, processed, notes);
    return Ok(notes);
  }

  // ----- The scan and the plain filter

  /** A number is collected exactly if some pull request of that number was merged after the date. */
  lemma {:induction false} FreshNumbers(prs: seq<PullRequest>, date: int, num: int)
    ensures num in Numbers(Fresh(prs, date)) <==> exists i :: 0 <= i < |prs| && prs[i].num == num && prs[i].mergedAt > date
  {
    if prs != [] {
      var last := prs[|prs| - 1];
      var before := Fresh(prs[..|prs| - 1], date);
      FreshNumbers(prs[..|prs| - 1], date, num);
      NumbersOfAppended(before, last);
    }
  }

  /** And no number is collected twice. */
  lemma {:induction false} FreshIsDistinct(prs: seq<PullRequest>, date: int, i: nat, j: nat)
    requires i < j < |Fresh(prs, date)|
    ensures Fresh(prs, date)[i].num != Fresh(prs, date)[j].num
  {
    var last := prs[|prs| - 1];
    var before := Fresh(prs[..|prs| - 1], date);
    if j < |before| {
      FreshIsDistinct(prs[..|prs| - 1], date, i, j);
    } else {
      assert before[i].num in Numbers(before);
    }
  }

  /** Merged after the date, and none of its number before it was. */
  ghost predicate IsFirst(prs: seq<PullRequest>, date: int, k: nat)
    requires k < |prs|
  {
    prs[k].mergedAt > date && forall j :: 0 <= j < k && prs[j].num == prs[k].num ==> prs[j].mergedAt <= date
  }

  lemma FrontIsFirst(prs: seq<PullRequest>, n: nat, date: int, k: nat)
    requires k < n <= |prs|
    ensures IsFirst(prs[..n], date, k) <==> IsFirst(prs, date, k)
  {
  }

  lemma LastIsFirst(prs: seq<PullRequest>, date: int)
    requires prs != [] && prs[|prs| - 1].mergedAt > date
    ensures IsFirst(prs, date, |prs| - 1) <==> prs[|prs| - 1].num !in Numbers(Fresh(prs[..|prs| - 1], date))
  {
    FreshNumbers(prs[..|prs| - 1], date, prs[|prs| - 1].num);
  }

  /** Those collected are, in the order of the list, the first of their numbers to be merged after the date. */
  lemma {:induction false} FreshAreFirst(prs: seq<PullRequest>, date: int) returns (at: seq<nat>)
    ensures |at| == |Fresh(prs, date)|
    ensures forall i :: 0 <= i < |at| ==> at[i] < |prs| && prs[at[i]] == Fresh(prs, date)[i] && IsFirst(prs, date, at[i])
    ensures forall i, j :: 0 <= i < j < |at| ==> at[i] < at[j]
  {
    at := [];
    if prs != [] {
      var n := |prs| - 1;
      var earlier := FreshAreFirst(prs[..n], date);
      forall i | 0 <= i < |earlier|
        ensures IsFirst(prs, date, earlier[i])
      {
        FrontIsFirst(prs, n, date, earlier[i]);
      }
      at := earlier;
      if prs[n].mergedAt > date {
        LastIsFirst(prs, date);
        if IsFirst(prs, date, n) {
          at := earlier + [n];
        }
      }
    }
  }

  /** One outcome after another: the first error, or all notes in order. */
  function Then(a: Result<seq<ReleaseNote>>, b: Result<seq<ReleaseNote>>): Result<seq<ReleaseNote>> {
    if a.Err? then a else if b.Err? then b else Ok(a.value + b.value)
  }

  lemma ThenIsAssociative(a: Result<seq<ReleaseNote>>, b: Result<seq<ReleaseNote>>, c: Result<seq<ReleaseNote>>)
    ensures Then(Then(a, b), c) == Then(a, Then(b, c))
  {
    if a.Ok? && b.Ok? && c.Ok? {
      assert (a.value + b.value) + c.value == a.value + (b.value + c.value);
    }
  }

  lemma CollectLast(service: Service, prs: seq<PullRequest>, p: PullRequest)
    ensures Collect(service, prs + [p]) == Then(Collect(service, prs), NotesOf(service, p))
  {
    assert (prs + [p])[..|prs|] == prs;
  }

  /** The notes come in the order of the pull requests. */
  lemma {:induction false} CollectInOrder(service: Service, a: seq<PullRequest>, b: seq<PullRequest>)
    ensures Collect(service, a + b) == Then(Collect(service, a), Collect(service, b))
  {
    if b == [] {
      assert a + b == a;
      assert Collect(service, a).Ok? ==> Collect(service, a).value + [] == Collect(service, a).value;
    } else {
      var front, last := b[..|b| - 1], b[|b| - 1];
      CollectInOrder(service, a, front);
      CollectLast(service, a + front, last);
      CollectLast(service, front, last);
      assert (a + front) + [last] == a + b && front + [last] == b;
      ThenIsAssociative(Collect(service, a), Collect(service, front), NotesOf(service, last));
    }
  }

  lemma CollectOne(service: Service, p: PullRequest)
    ensures Collect(service, [p]) == NotesOf(service, p)
  {
    assert [p][..0] == [];
    assert NotesOf(service, p).Ok? ==> [] + NotesOf(service, p).value == NotesOf(service, p).value;
  }

  /** A page that fails leads to an error unless something listed before was last updated before the date. */
  lemma FailingPageMatters(service: Service, date: int, k: nat, r: Result<seq<ReleaseNote>>)
    requires IsResult(service, date, k, r) && ListError(service.pages).Some?
    requires forall i :: 0 <= i < |Listed(service.pages)| ==> Listed(service.pages)[i].updatedAt >= date
    ensures r.Err?
  {
  }

  /** Everything after the stop was merged before the date or has been collected under its number. */
  ghost predicate NothingNewFrom(prs: seq<PullRequest>, date: int, k: nat)
    requires k <= |prs|
  {
    forall i :: k <= i < |prs| && prs[i].mergedAt > date ==> prs[i].num in Numbers(Fresh(prs[..k], date))
  }

  /** Stopping early loses nothing exactly then, whatever the order of the pull requests. */
  lemma StoppingLosesNothingExactlyWhen(prs: seq<PullRequest>, date: int, k: nat)
    requires k <= |prs|
    ensures Fresh(prs[..k], date) == Fresh(prs, date) <==> NothingNewFrom(prs, date, k)
  {
    assert prs[..|prs|] == prs;
    if NothingNewFrom(prs, date, k) {
      NothingNewAdds(prs, date, k, |prs|);
    } else {
      var i :| k <= i < |prs| && prs[i].mergedAt > date && prs[i].num !in Numbers(Fresh(prs[..k], date));
      FreshNumbers(prs, date, prs[i].num);
    }
  }

  lemma {:induction false} NothingNewAdds(prs: seq<PullRequest>, date: int, k: nat, j: nat)
    requires k <= j <= |prs| && NothingNewFrom(prs, date, k)
    ensures Fresh(prs[..j], date) == Fresh(prs[..k], date)
    decreases j - k
  {
    if k < j {
      NothingNewAdds(prs, date, k, j - 1);
      FreshStep(prs, date, j - 1);
      var p := prs[j - 1];
      assert p.mergedAt > date ==> p.num in Numbers(Fresh(prs[..k], date));
    }
  }

  /** How the pages are asked for, and what an update is. */
  ghost predicate LastUpdatedFirst(prs: seq<PullRequest>) {
    && (forall i, j :: 0 <= i < j < |prs| ==> prs[i].updatedAt >= prs[j].updatedAt)
    && (forall i :: 0 <= i < |prs| ==> prs[i].updatedAt >= prs[i].mergedAt)
  }

  /** So the scan, stopping early and skipping numbers it has seen, agrees with the plain filter over all pages, for all
      that the service may answer. */
  lemma ScanAgreesWithFilter(service: Service, date: int, k: nat, r: Result<seq<ReleaseNote>>)
    requires IsResult(service, date, k, r) && LastUpdatedFirst(Listed(service.pages))
    ensures var expected := Collect(service, Fresh(Listed(service.pages), date));
            && (ListError(service.pages).None? ==> r == expected)
            && (r.Ok? ==> r == expected)
            && (expected.Err? ==> r == expected)
  {
    var prs := Listed(service.pages);
    assert prs[..|prs|] == prs;
    StoppingLosesNothingExactlyWhen(prs, date, k);
  }

  /** The notes tell which pull request they come from, and when it was merged. */
  lemma {:induction false} CollectedNotes(service: Service, prs: seq<PullRequest>, i: nat)
    requires Collect(service, prs).Ok? && i < |Collect(service, prs).value|
    ensures var note := Collect(service, prs).value[i];
            exists j :: 0 <= j < |prs| && prs[j].num == note.num && prs[j].mergedAt == note.mergedAt
                        && service.isMerged(note.num) == Checked(true)
  {
    var front := prs[..|prs| - 1];
    var notes := Collect(service, front).value;
    if i < |notes| {
      CollectedNotes(service, front, i);
      var j :| 0 <= j < |front| && front[j].num == notes[i].num && front[j].mergedAt == notes[i].mergedAt;
      assert prs[j] == front[j];
    } else {
      assert prs[|prs| - 1].num == Collect(service, prs).value[i].num;
    }
  }
}
