/** The report downloader: deduplicated candidates are tried in priority order, year by
    year, against a store of files and a web that may answer anything. */
module Downloader {
  import opened Sequences

  datatype Candidate = Candidate(
    ticker: string,
    companyName: string,
    year: int,
    url: string,
    sourcePage: string,
    method_: string,
    priority: int
  )

  datatype Status = Downloaded | AlreadyExists | NotFound | NotPdf | Error | NotDiscovered

  datatype Inspection = Inspection(pages: Option<nat>, detectedYears: string, validation: string)

  datatype Record = Record(
    ticker: string,
    companyName: string,
    year: int,
    sourcePage: string,
    sourceUrl: string,
    digest: string,
    bytes: nat,
    inspection: Inspection,
    method_: string,
    status: Status,
    error: string
  )

  /** What a request can come back with; Raised covers time-outs and error statuses other than 404. */
  datatype Response = Raised(message: string) | Missing | Body(content: string, contentType: string)

  /** How a write ends. Opening a file empties it, so a write that breaks after that leaves only
      the first bytes of the content, however few; one refused at opening leaves what was there. */
  datatype Write = Written | Refused(message: string) | Broken(kept: nat, message: string)

  /** The outside world: what the n-th request answers, how the write after it ends, and the two
      readers of file contents. */
  datatype World = World(
    answer: (nat, string) -> Response,
    write: nat -> Write,
    digest: string -> string,
    inspect: (string, int) -> Inspection
  )

  /** A report request: the ticker and year it was made for, and the address asked. */
  datatype Request = Request(place: (string, int), url: string)

  /** The files on disk by ticker and year, the report requests made so far, and the places where
      a write has broken after opening the file. */
  datatype Store = Store(files: map<(string, int), string>, requests: seq<Request>, broken: seq<(string, int)>)

  const PDF_MAGIC := "%PDF"
  const PDF_TYPE := "application/pdf"

  predicate Contains(s: string, part: string) {
    part <= s || (s != [] && Contains(s[1..], part))
  }

  predicate LooksLikePdf(content: string, contentType: string) {
    PDF_MAGIC <= content || Contains(contentType, PDF_TYPE)
  }

  predicate Successful(r: Record) {
    r.status in {Downloaded, AlreadyExists}
  }

  function Place(c: Candidate): (string, int) {
    (c.ticker, c.year)
  }

  function PlaceOf(r: Record): (string, int) {
    (r.ticker, r.year)
  }

  function Uninspected(): Inspection {
    Inspection(None, "", "not_checked")
  }

  function BaseRecord(c: Candidate, status: Status, error: string): Record {
    Record(c.ticker, c.companyName, c.year, c.sourcePage, c.url, "", 0, Uninspected(), c.method_, status, error)
  }

  function Described(c: Candidate, content: string, status: Status, w: World): Record {
    BaseRecord(c, status, "").(digest := w.digest(content), bytes := |content|,
                               inspection := w.inspect(content, c.year))
  }

  // ------------------------------------------------------------- one candidate

  function FirstPart(content: string, kept: nat): string {
    if kept <= |content| then content[..kept] else content
  }

  /** What trying one candidate records and leaves behind. */
  function Attempt(c: Candidate, s: Store, w: World, overwrite: bool): (Record, Store) {
    if Place(c) in s.files && !overwrite then (Described(c, s.files[Place(c)], AlreadyExists, w), s)
    else
      var asked := s.(requests := s.requests + [Request(Place(c), c.url)]);
      match w.answer(|s.requests|, c.url)
      case Missing => (BaseRecord(c, NotFound, ""), asked)
      case Raised(message) => (BaseRecord(c, Error, message), asked)
      case Body(content, contentType) =>
        if !LooksLikePdf(content, contentType) then (BaseRecord(c, NotPdf, "content_type=" + contentType), asked)
        else
          match w.write(|s.requests|)
          case Written =>
            (Described(c, content, Downloaded, w), asked.(files := asked.files[Place(c) := content]))
          case Refused(message) => (BaseRecord(c, Error, message), asked)
          case Broken(kept, message) =>
            (BaseRecord(c, Error, message),
             asked.(files := asked.files[Place(c) := FirstPart(content, kept)], broken := s.broken + [Place(c)]))
  }

  /** One attempt at a place: what it may change, and what its record says about that. A file changes
      by a download, which the record reports, or by a broken write, which it does not. */
  ghost predicate Attempted(place: (string, int), s: Store, t: Store, r: Record, w: World) {
    && PlaceOf(r) == place
    && (t.broken == s.broken || (t.broken == s.broken + [place] && r.status == Error && place in t.files))
    && (t.broken == s.broken && r.status != Downloaded ==> t.files == s.files)
    && (place in t.files ==> t.files == s.files[place := t.files[place]])
    && (place !in t.files ==> t.files == s.files)
    && (Successful(r) ==> place in t.files && Describes(r, t.files[place], w))
  }

  predicate Describes(r: Record, content: string, w: World) {
    r.digest == w.digest(content) && r.bytes == |content|
  }

  /** An attempt touches its own place only. Without overwriting, a file already there settles the
      matter with no request, so only a missing file can be downloaded or broken. */
  lemma AttemptFacts(c: Candidate, s: Store, w: World, overwrite: bool)
    ensures var (r, t) := Attempt(c, s, w, overwrite);
      && Attempted(Place(c), s, t, r, w)
      && (t.requests == s.requests || t.requests == s.requests + [Request(Place(c), c.url)])
      && (!overwrite && Place(c) in s.files ==> r.status == AlreadyExists && t == s)
      && (!overwrite && Place(c) !in s.files ==> r.status != AlreadyExists)
  {}

  /** part stands in s from place i on. */
  predicate OccursAt(s: string, part: string, i: nat) {
    i + |part| <= |s| && s[i..i + |part|] == part
  }

  lemma {:induction false} ContainsMeans(s: string, part: string)
    ensures Contains(s, part) <==> exists i: nat :: OccursAt(s, part, i)
  {
    if part <= s {
      assert OccursAt(s, part, 0);
    } else if s != [] {
      ContainsMeans(s[1..], part);
      if Contains(s[1..], part) {
        var i: nat :| OccursAt(s[1..], part, i);
        assert s[i + 1..i + 1 + |part|] == s[1..][i..i + |part|];
        assert OccursAt(s, part, i + 1);
      }
      if exists i: nat :: OccursAt(s, part, i) {
        var i: nat :| OccursAt(s, part, i);
        assert i > 0;
        assert s[1..][i - 1..i - 1 + |part|] == s[i..i + |part|];
        assert OccursAt(s[1..], part, i - 1);
      }
    }
  }

  /** What makes an answer a report: how the content begins, or its type. */
  ghost predicate IsReport(content: string, contentType: string) {
    "%PDF" <= content || exists i: nat :: OccursAt(contentType, "application/pdf", i)
  }

  /** A request is made exactly when overwriting or the file is missing. The answer then settles status,
      error and file: a report is stored whole if its write succeeds, in part if it breaks. */
  lemma AnswerSettles(c: Candidate, s: Store, w: World, overwrite: bool)
    ensures var (r, t) := Attempt(c, s, w, overwrite);
      var place := (c.ticker, c.year);
      if !overwrite && place in s.files then
        && t == s && r.status == AlreadyExists && r.error == "" && r.digest == w.digest(s.files[place])
        && r.bytes == |s.files[place]| && r.inspection == w.inspect(s.files[place], c.year)
      else
        && t.requests == s.requests + [Request(place, c.url)]
        && match w.answer(|s.requests|, c.url)
           case Missing => r.status == NotFound && r.error == "" && t.files == s.files
           case Raised(message) => r.status == Error && r.error == message && t.files == s.files
           case Body(content, contentType) =>
             && (r.status == NotPdf <==> !IsReport(content, contentType))
             && (r.status == NotPdf ==> t.files == s.files && r.error == "content_type=" + contentType)
             && (IsReport(content, contentType) ==>
                   match w.write(|s.requests|)
                   case Written =>
                     && r.status == Downloaded && t.files == s.files[place := content] && r.error == ""
                     && r.digest == w.digest(content) && r.bytes == |content|
                     && r.inspection == w.inspect(content, c.year)
                   case Refused(message) => r.status == Error && r.error == message && t.files == s.files
                   case Broken(kept, message) =>
                     && r.status == Error && r.error == message && place in t.files && t.files[place] <= content
                     && |t.files[place]| == (if kept < |content| then kept else |content|)
                     && t.files == s.files[place := t.files[place]] && t.broken == s.broken + [place])
  {
    match w.answer(|s.requests|, c.url)
    case Body(content, contentType) => ContainsMeans(contentType, "application/pdf");
    case _ =>
  }

  /** Every record names its candidate, and an attempt without a report describes none. */
  lemma RecordsNameCandidates(c: Candidate, s: Store, w: World, overwrite: bool)
    ensures var r := Attempt(c, s, w, overwrite).0;
      && r.ticker == c.ticker && r.companyName == c.companyName && r.year == c.year
      && r.sourcePage == c.sourcePage && r.sourceUrl == c.url && r.method_ == c.method_
      && (r.status !in {Downloaded, AlreadyExists} ==>
            r.digest == "" && r.bytes == 0 && r.inspection == Inspection(None, "", "not_checked"))
  {}

  // --------------------------------------------------------- choosing candidates

  function LinkOf(c: Candidate): (int, string) {
    (c.year, c.url)
  }

  type Unique = Dict<(int, string), Candidate>

  /** Keep a candidate if its link is new or its priority beats the one kept. */
  function Keep(unique: Unique, c: Candidate): Unique {
    if LinkOf(c) !in unique.at || c.priority > unique.at[LinkOf(c)].priority then unique.Put(LinkOf(c), c)
    else unique
  }

  function Deduplicated(found: seq<Candidate>): Unique {
    if found == [] then Dict([], map[])
    else Keep(Deduplicated(found[..|found| - 1]), found[|found| - 1])
  }

  /** i is the earliest of the highest-priority candidates with its link. */
  ghost predicate IsBest(found: seq<Candidate>, i: nat)
    requires i < |found|
  {
    forall j :: 0 <= j < |found| && LinkOf(found[j]) == LinkOf(found[i]) ==>
      found[j].priority <= found[i].priority && (j < i ==> found[j].priority < found[i].priority)
  }

  ghost predicate KeptAt(found: seq<Candidate>, unique: Unique, k: (int, string), i: nat)
    requires k in unique.at
  {
    i < |found| && IsBest(found, i) && found[i] == unique.at[k] && LinkOf(found[i]) == k
  }

  /** One entry per link that occurs, and it is the earliest of that link's highest priority. */
  ghost predicate KeepsBest(found: seq<Candidate>, unique: Unique) {
    && unique.Valid()
    && (forall i :: 0 <= i < |found| ==> LinkOf(found[i]) in unique.at)
    && (forall k :: k in unique.at ==> exists i :: KeptAt(found, unique, k, i))
  }

  lemma {:induction false} DeduplicatedFacts(found: seq<Candidate>)
    ensures KeepsBest(found, Deduplicated(found))
  {
    if found != [] {
      var n := |found| - 1;
      DeduplicatedFacts(found[..n]);
      assert found == found[..n] + [found[n]];
      KeepStep(found[..n], Deduplicated(found[..n]), found[n]);
    }
  }

  lemma KeepStep(rest: seq<Candidate>, before: Unique, c: Candidate)
    requires KeepsBest(rest, before)
    ensures KeepsBest(rest + [c], Keep(before, c))
  {
    var found, after, n := rest + [c], Keep(before, c), |rest|;
    forall k | k in after.at ensures exists i :: KeptAt(found, after, k, i) {
      if k in before.at && after.at[k] == before.at[k] {
        var i :| KeptAt(rest, before, k, i);
        assert KeptAt(found, after, k, i) by { BestAfterMore(rest, c, i); }
      } else {
        assert KeptAt(found, after, k, n) by { BestIsNew(rest, before, c); }
      }
    }
  }

  lemma BestAfterMore(rest: seq<Candidate>, c: Candidate, i: nat)
    requires i < |rest| && IsBest(rest, i)
    requires LinkOf(c) == LinkOf(rest[i]) ==> c.priority <= rest[i].priority
    ensures IsBest(rest + [c], i)
  {
    var found := rest + [c];
    forall j | 0 <= j < |found| && LinkOf(found[j]) == LinkOf(found[i])
      ensures found[j].priority <= found[i].priority && (j < i ==> found[j].priority < found[i].priority)
    {
      assert j < |rest| ==> rest[j] == found[j];
    }
  }

  lemma BestIsNew(rest: seq<Candidate>, before: Unique, c: Candidate)
    requires KeepsBest(rest, before)
    requires LinkOf(c) !in before.at || c.priority > before.at[LinkOf(c)].priority
    ensures IsBest(rest + [c], |rest|)
  {
    var found := rest + [c];
    forall j | 0 <= j < |rest| && LinkOf(found[j]) == LinkOf(c) ensures found[j].priority < c.priority {
      assert rest[j] == found[j] && LinkOf(rest[j]) in before.at;
      var i :| KeptAt(rest, before, LinkOf(c), i);
    }
  }

  /** The place of a link among the links found; their number if it is not among them. */
  function FirstFound(found: seq<Candidate>, link: (int, string)): nat {
    if found == [] then 0
    else if LinkOf(found[0]) == link then 0
    else 1 + FirstFound(found[1..], link)
  }

  lemma {:induction false} FirstFoundAfterMore(found: seq<Candidate>, c: Candidate, link: (int, string))
    ensures FirstFound(found, link) <= |found|
    ensures FirstFound(found, link) < |found| <==> exists i :: 0 <= i < |found| && LinkOf(found[i]) == link
    ensures FirstFound(found + [c], link)
         == if FirstFound(found, link) < |found| || LinkOf(c) == link then FirstFound(found, link) else |found| + 1
  {
    if found != [] && LinkOf(found[0]) != link {
      FirstFoundAfterMore(found[1..], c, link);
      assert (found + [c])[1..] == found[1..] + [c];
      if exists i :: 0 <= i < |found| && LinkOf(found[i]) == link {
        var i :| 0 <= i < |found| && LinkOf(found[i]) == link;
        assert found[1..][i - 1] == found[i];
      }
    }
  }

  ghost predicate InOrderFound(found: seq<Candidate>, links: seq<(int, string)>) {
    forall i, j :: 0 <= i < j < |links| ==> FirstFound(found, links[i]) < FirstFound(found, links[j])
  }

  lemma KeysInOrderStep(rest: seq<Candidate>, before: Unique, c: Candidate)
    requires KeepsBest(rest, before) && InOrderFound(rest, before.keys)
    ensures InOrderFound(rest + [c], Keep(before, c).keys)
  {
    var found, keys, n := rest + [c], before.keys, |rest|;
    forall i | 0 <= i < |keys| ensures FirstFound(found, keys[i]) == FirstFound(rest, keys[i]) < n {
      FirstFoundAfterMore(rest, c, keys[i]);
      KeyIndex(before, keys[i]);
      var l :| KeptAt(rest, before, keys[i], l);
    }
    FirstFoundAfterMore(rest, c, LinkOf(c));
    assert LinkOf(c) !in before.at ==> FirstFound(rest, LinkOf(c)) == n;
  }

  /** The dictionary's keys stand in the order in which their links were first found. */
  lemma {:induction false} KeysInOrder(found: seq<Candidate>)
    ensures InOrderFound(found, Deduplicated(found).keys)
  {
    if found != [] {
      var rest := found[..|found| - 1];
      KeysInOrder(rest);
      DeduplicatedFacts(rest);
      assert found == rest + [found[|found| - 1]];
      KeysInOrderStep(rest, Deduplicated(rest), found[|found| - 1]);
    }
  }

  /** The values of a dictionary in key order. */
  function Values(keys: seq<(int, string)>, at: map<(int, string), Candidate>): seq<Candidate> {
    if keys == [] then []
    else
      var n := |keys| - 1;
      Values(keys[..n], at) + if keys[n] in at then [at[keys[n]]] else []
  }

  function Unrepeated(found: seq<Candidate>): seq<Candidate> {
    var unique := Deduplicated(found);
    Values(unique.keys, unique.at)
  }

  lemma {:induction false} ValuesInOrder(keys: seq<(int, string)>, at: map<(int, string), Candidate>)
    requires forall i :: 0 <= i < |keys| ==> keys[i] in at
    ensures Values(keys, at) == seq(|keys|, i requires 0 <= i < |keys| => at[keys[i]])
  {
    if keys != [] {
      var n := |keys| - 1;
      assert forall i :: 0 <= i < n ==> keys[..n][i] == keys[i];
      ValuesInOrder(keys[..n], at);
    }
  }

  /** The candidates kept have pairwise different links, in the order in which these were first found,
      cover every link found, and each is the earliest of its link's highest priority. */
  lemma UnrepeatedFacts(found: seq<Candidate>)
    ensures var kept := Unrepeated(found);
      && (forall i, j :: 0 <= i < j < |kept| ==>
            LinkOf(kept[i]) != LinkOf(kept[j])
            && FirstFound(found, LinkOf(kept[i])) < FirstFound(found, LinkOf(kept[j])))
      && (forall i :: 0 <= i < |found| ==> exists j :: 0 <= j < |kept| && LinkOf(kept[j]) == LinkOf(found[i]))
      && (forall j :: 0 <= j < |kept| ==> exists i: nat :: i < |found| && IsBest(found, i) && found[i] == kept[j])
  {
    var unique, kept := Deduplicated(found), Unrepeated(found);
    DeduplicatedFacts(found);
    KeysInOrder(found);
    forall i | 0 <= i < |unique.keys| ensures unique.keys[i] in unique.at {
      KeyIndex(unique, unique.keys[i]);
    }
    ValuesInOrder(unique.keys, unique.at);
    forall j | 0 <= j < |kept|
      ensures LinkOf(kept[j]) == unique.keys[j]
      ensures exists i: nat :: i < |found| && IsBest(found, i) && found[i] == kept[j]
    {
      var i :| KeptAt(found, unique, unique.keys[j], i);
    }
    forall i | 0 <= i < |found| ensures exists j :: 0 <= j < |kept| && LinkOf(kept[j]) == LinkOf(found[i]) {
      KeyIndex(unique, LinkOf(found[i]));
      var j :| 0 <= j < |unique.keys| && unique.keys[j] == LinkOf(found[i]);
      assert LinkOf(kept[j]) == LinkOf(found[i]);
    }
  }

  lemma KeptWasFound(found: seq<Candidate>, j: nat) returns (i: nat)
    requires j < |Unrepeated(found)|
    ensures i < |found| && found[i] == Unrepeated(found)[j] && IsBest(found, i)
  {
    UnrepeatedFacts(found);
    i :| i < |found| && IsBest(found, i) && found[i] == Unrepeated(found)[j];
  }

  lemma FoundWasKept(found: seq<Candidate>, i: nat) returns (j: nat)
    requires i < |found|
    ensures j < |Unrepeated(found)| && KeptFor(Unrepeated(found)[j], found[i])
  {
    UnrepeatedFacts(found);
    var l :| 0 <= l < |Unrepeated(found)| && LinkOf(Unrepeated(found)[l]) == LinkOf(found[i]);
    j := l;
    var best := KeptWasFound(found, j);
    assert found[i].priority <= found[best].priority;
  }

  lemma KeptDiffer(found: seq<Candidate>, i: nat, j: nat)
    requires i < j < |Unrepeated(found)|
    ensures Unrepeated(found)[i].year != Unrepeated(found)[j].year
         || Unrepeated(found)[i].url != Unrepeated(found)[j].url
  {
    UnrepeatedFacts(found);
    assert LinkOf(Unrepeated(found)[i]) != LinkOf(Unrepeated(found)[j]);
  }

  /** a has the year and address of b and is at least as good. */
  predicate KeptFor(a: Candidate, b: Candidate) {
    a.year == b.year && a.url == b.url && a.priority >= b.priority
  }

  /** In the candidates' own terms: two kept ones differ in year or address, each was found, and every
      one found has a kept one of its year and address that is at least as good. */
  lemma KeptCandidates(found: seq<Candidate>, kept: seq<Candidate>)
    requires kept == Unrepeated(found)
    ensures forall i, j :: 0 <= i < j < |kept| ==> kept[i].year != kept[j].year || kept[i].url != kept[j].url
    ensures forall i :: 0 <= i < |found| ==> exists j :: 0 <= j < |kept| && KeptFor(kept[j], found[i])
    ensures forall j :: 0 <= j < |kept| ==> kept[j] in found
  {
    forall i: nat, j: nat | i < j < |kept| ensures kept[i].year != kept[j].year || kept[i].url != kept[j].url {
      KeptDiffer(found, i, j);
    }
    forall i: nat | i < |found| ensures exists j :: 0 <= j < |kept| && KeptFor(kept[j], found[i]) {
      var j := FoundWasKept(found, i);
    }
    forall j: nat | j < |kept| ensures kept[j] in found {
      var i := KeptWasFound(found, j);
    }
  }

  /** Deduplicate and keep the highest-priority candidate per year and address. */
  method Discover(found: seq<Candidate>) returns (candidates: seq<Candidate>)
    ensures candidates == Unrepeated(found)
  {
    var unique: Unique := Dict([], map[]);
    for i := 0 to |found|
      invariant unique == Deduplicated(found[..i])
    {
      assert found[..i + 1][..i] == found[..i];
      var c := found[i];
      if LinkOf(c) !in unique.at || c.priority > unique.at[LinkOf(c)].priority {
        unique := unique.Put(LinkOf(c), c);
      }
    }
    assert found[..|found|] == found;
    candidates := Values(unique.keys, unique.at);
  }

  function InYear(year: int): Candidate -> bool {
    (c: Candidate) => c.year == year
  }

  function Falling(): Candidate -> real {
    (c: Candidate) => -c.priority as real
  }

  /** The year's candidates, highest priority first, ties in order of discovery. */
  function RankedFor(candidates: seq<Candidate>, year: int): seq<Candidate> {
    StableSort(Falling(), Filter(InYear(year), candidates))
  }

  type Years = Dict<int, seq<Candidate>>

  /** The groups of these candidates, one per year, in order of discovery. */
  ghost predicate GroupedByYear(byYear: Years, candidates: seq<Candidate>) {
    byYear.Valid() && forall y :: byYear.GetOr(y, []) == Filter(InYear(y), candidates)
  }

  lemma GroupStep(byYear: Years, candidates: seq<Candidate>, c: Candidate)
    requires GroupedByYear(byYear, candidates)
    ensures GroupedByYear(byYear.Put(c.year, byYear.GetOr(c.year, []) + [c]), candidates + [c])
  {
    var more := byYear.Put(c.year, byYear.GetOr(c.year, []) + [c]);
    forall y ensures more.GetOr(y, []) == Filter(InYear(y), candidates + [c]) {
      FilterConcat(InYear(y), candidates, [c]);
    }
  }

  method GroupByYear(candidates: seq<Candidate>) returns (byYear: Years)
    ensures GroupedByYear(byYear, candidates)
  {
    byYear := EmptyDict();
    for i := 0 to |candidates|
      invariant GroupedByYear(byYear, candidates[..i])
    {
      var c := candidates[i];
      GroupStep(byYear, candidates[..i], c);
      assert candidates[..i + 1] == candidates[..i] + [c];
      byYear := byYear.Put(c.year, byYear.GetOr(c.year, []) + [c]);
    }
    assert candidates[..|candidates|] == candidates;
  }

  /** Group by year, then sort each group in place. */
  method ChooseBestByYear(candidates: seq<Candidate>) returns (byYear: Years)
    ensures forall y :: byYear.GetOr(y, []) == RankedFor(candidates, y)
  {
    byYear := GroupByYear(candidates);
    ghost var grouped := byYear;
    for i := 0 to |byYear.keys|
      invariant byYear.Valid() && byYear.keys == grouped.keys
      invariant forall k :: 0 <= k < i ==> byYear.GetOr(byYear.keys[k], []) == RankedFor(candidates, byYear.keys[k])
      invariant forall k :: i <= k < |byYear.keys| ==>
        byYear.GetOr(byYear.keys[k], []) == grouped.GetOr(byYear.keys[k], [])
    {
      var year := byYear.keys[i];
      KeyIndex(byYear, year);
      byYear := byYear.Put(year, StableSort(Falling(), byYear.GetOr(year, [])));
    }
    forall y ensures byYear.GetOr(y, []) == RankedFor(candidates, y) {
      KeyIndex(byYear, y);
      KeyIndex(grouped, y);
      assert grouped.GetOr(y, []) == Filter(InYear(y), candidates);
    }
  }

  /** The ranking holds exactly the year's candidates, priorities never rising, those of equal
      priority in order of discovery. */
  lemma RankedForFacts(candidates: seq<Candidate>, year: int)
    ensures multiset(RankedFor(candidates, year)) == multiset(Filter(InYear(year), candidates))
    ensures forall k: real :: Filter(KeyIs(Falling(), k), RankedFor(candidates, year))
                           == Filter(KeyIs(Falling(), k), Filter(InYear(year), candidates))
    ensures forall i :: 0 <= i < |RankedFor(candidates, year)| ==>
      RankedFor(candidates, year)[i] in candidates && RankedFor(candidates, year)[i].year == year
    ensures forall i, j :: 0 <= i < j < |RankedFor(candidates, year)| ==>
      RankedFor(candidates, year)[i].priority >= RankedFor(candidates, year)[j].priority
  {
    var group, ranked, key := Filter(InYear(year), candidates), RankedFor(candidates, year), Falling();
    StableSortSorts(key, group);
    FilterElements(InYear(year), candidates);
    forall k: real ensures Filter(KeyIs(key, k), ranked) == Filter(KeyIs(key, k), group) {
      StableSortKeepsTies(key, group, k);
    }
    forall i | 0 <= i < |ranked| ensures ranked[i] in candidates && ranked[i].year == year {
      assert ranked[i] in multiset(group);
      assert ranked[i] in group;
    }
    forall i, j | 0 <= i < j < |ranked| ensures ranked[i].priority >= ranked[j].priority {
      assert key(ranked[i]) <= key(ranked[j]);
    }
  }

  // ------------------------------------------------------------------- one year

  /** Try candidates in order until one succeeds; otherwise keep the last attempt. */
  function TryAll(candidates: seq<Candidate>, s: Store, w: World, overwrite: bool): (Record, Store)
    requires candidates != []
  {
    var (r, t) := Attempt(candidates[0], s, w, overwrite);
    if Successful(r) || |candidates| == 1 then (r, t) else TryAll(candidates[1..], t, w, overwrite)
  }

  /** The store after the first n candidates have all been tried. */
  function AfterTrying(candidates: seq<Candidate>, n: nat, s: Store, w: World, overwrite: bool): Store
    requires n <= |candidates|
  {
    if n == 0 then s else AfterTrying(candidates[1..], n - 1, Attempt(candidates[0], s, w, overwrite).1, w, overwrite)
  }

  /** The n-th candidate's attempt, made after all earlier ones. */
  function NthAttempt(candidates: seq<Candidate>, n: nat, s: Store, w: World, overwrite: bool): (Record, Store)
    requires n < |candidates|
  {
    Attempt(candidates[n], AfterTrying(candidates, n, s, w, overwrite), w, overwrite)
  }

  /** What is kept is the first success in order, or the last attempt when none succeeds. */
  lemma {:induction false} FirstSuccess(candidates: seq<Candidate>, s: Store, w: World, overwrite: bool)
      returns (n: nat)
    requires candidates != []
    ensures n < |candidates|
    ensures TryAll(candidates, s, w, overwrite) == NthAttempt(candidates, n, s, w, overwrite)
    ensures forall m: nat :: m < n ==>
      NthAttempt(candidates, m, s, w, overwrite).0.status !in {Downloaded, AlreadyExists}
    ensures TryAll(candidates, s, w, overwrite).0.status in {Downloaded, AlreadyExists} || n == |candidates| - 1
  {
    var (r, t) := Attempt(candidates[0], s, w, overwrite);
    if Successful(r) || |candidates| == 1 {
      n := 0;
    } else {
      var k := FirstSuccess(candidates[1..], t, w, overwrite);
      n := k + 1;
      forall m: nat | m < n
        ensures NthAttempt(candidates, m, s, w, overwrite).0.status !in {Downloaded, AlreadyExists}
      {
        if m > 0 {
          assert NthAttempt(candidates, m, s, w, overwrite) == NthAttempt(candidates[1..], m - 1, t, w, overwrite);
        }
      }
    }
  }

  // -------------------------------------------------------------------- all years

  datatype Company = Company(ticker: string, name: string, archiveUrl: string, method_: string, found: seq<Candidate>)

  /** Discovery stamps the company's ticker on every candidate it finds. */
  predicate Stamped(company: Company) {
    forall i :: 0 <= i < |company.found| ==> company.found[i].ticker == company.ticker
  }

  function Undiscovered(company: Company, year: int): Record {
    Record(company.ticker, company.name, year, company.archiveUrl, "", "", 0, Uninspected(), company.method_,
           NotDiscovered, "")
  }

  function CandidatesFor(company: Company, year: int): seq<Candidate> {
    RankedFor(Unrepeated(company.found), year)
  }

  function FoundAt(found: seq<Candidate>): Candidate -> int {
    (c: Candidate) => FirstFound(found, LinkOf(c))
  }

  /** The order in which a year's candidates are tried: higher priority first, and equal priorities in
      the order in which their links were first found. */
  lemma TriedInOrder(company: Company, year: int, i: nat, j: nat)
    requires i < j < |CandidatesFor(company, year)|
    ensures var (a, b) := (CandidatesFor(company, year)[i], CandidatesFor(company, year)[j]);
      a.priority > b.priority
      || (a.priority == b.priority && FirstFound(company.found, LinkOf(a)) < FirstFound(company.found, LinkOf(b)))
  {
    var kept, rank := Unrepeated(company.found), FoundAt(company.found);
    UnrepeatedFacts(company.found);
    assert RisesBy(rank, kept);
    FilterRises(rank, InYear(year), kept);
    StableSortRises(Falling(), rank, Filter(InYear(year), kept));
    var a, b := CandidatesFor(company, year)[i], CandidatesFor(company, year)[j];
    assert Falling()(a) < Falling()(b) || (Falling()(a) == Falling()(b) && rank(a) < rank(b));
  }

  /** A better duplicate found last takes the place of the one first found, and so is tried before an
      equally good candidate found in between. */
  lemma DuplicateMovesUp(a: Candidate, b: Candidate, a': Candidate)
    requires LinkOf(a) == LinkOf(a') != LinkOf(b) && a.priority < a'.priority
    ensures Unrepeated([a, b, a']) == [a', b]
  {
    var all := [a, b, a'];
    assert all[..2] == [a, b] && [a, b][..1] == [a] && [a][..0] == [];
    var none := Deduplicated([]);
    assert Deduplicated([a]) == none.Put(LinkOf(a), a);
    assert Deduplicated([a, b]) == Deduplicated([a]).Put(LinkOf(b), b);
    assert Deduplicated(all) == Deduplicated([a, b]).Put(LinkOf(a'), a');
    var links := Deduplicated(all).keys;
    assert links == [LinkOf(a), LinkOf(b)];
    ValuesInOrder(links, Deduplicated(all).at);
  }

  ghost predicate IsRanking(ranked: seq<Candidate>, company: Company, year: int) {
    ranked == CandidatesFor(company, year)
  }

  ghost predicate RanksAll(byYear: Years, company: Company) {
    forall y :: byYear.GetOr(y, []) == CandidatesFor(company, y)
  }

  lemma RanksOne(byYear: Years, company: Company, year: int)
    requires RanksAll(byYear, company)
    ensures IsRanking(byYear.GetOr(year, []), company, year)
  {}

  function YearRecord(company: Company, year: int, s: Store, w: World, overwrite: bool): (Record, Store) {
    var candidates := CandidatesFor(company, year);
    if candidates == [] then (Undiscovered(company, year), s) else TryAll(candidates, s, w, overwrite)
  }

  /** A run so far: the records kept and the store. */
  datatype Progress = Progress(records: seq<Record>, store: Store)

  function AddYear(p: Progress, company: Company, year: int, w: World, overwrite: bool): Progress {
    var (r, s) := YearRecord(company, year, p.store, w, overwrite);
    Progress(p.records + [r], s)
  }

  /** The years start, start + 1, ... up to but not including end. */
  function RunYears(p: Progress, company: Company, start: int, end: int, w: World, overwrite: bool): Progress
    decreases end - start
  {
    if end <= start then p
    else AddYear(RunYears(p, company, start, end - 1, w, overwrite), company, end - 1, w, overwrite)
  }

  function RunAll(companies: seq<Company>, start: int, end: int, s: Store, w: World, overwrite: bool): Progress {
    if companies == [] then Progress([], s)
    else
      var n := |companies| - 1;
      RunYears(RunAll(companies[..n], start, end, s, w, overwrite), companies[n], start, end, w, overwrite)
  }

  class Downloader {
    var files: map<(string, int), string>
    var requests: seq<Request>
    var broken: seq<(string, int)>
    const world: World
    const overwrite: bool

    constructor (world: World, overwrite: bool, files: map<(string, int), string>)
      ensures this.world == world && this.overwrite == overwrite && Disk() == Store(files, [], [])
    {
      this.world, this.overwrite, this.files, this.requests, this.broken := world, overwrite, files, [], [];
    }

    function Disk(): Store
      reads this
    {
      Store(files, requests, broken)
    }

    method DownloadCandidate(c: Candidate) returns (record: Record)
      modifies this
      ensures (record, Disk()) == Attempt(c, old(Disk()), world, overwrite)
    {
      var place := (c.ticker, c.year);
      record := BaseRecord(c, Error, "");
      if place in files && !overwrite {
        var content := files[place];
        record := record.(digest := world.digest(content), bytes := |content|,
                          inspection := world.inspect(content, c.year), status := AlreadyExists);
        return;
      }
      var n := |requests|;
      var response := world.answer(n, c.url);
      requests := requests + [Request(place, c.url)];
      match response
      case Missing =>
        record := record.(status := NotFound);
      case Raised(message) =>
        record := record.(status := Error, error := message);
      case Body(content, contentType) =>
        if !LooksLikePdf(content, contentType) {
          record := record.(status := NotPdf, error := "content_type=" + contentType);
          return;
        }
        match world.write(n)
        case Written =>
          files := files[place := content];
          record := record.(digest := world.digest(content), bytes := |content|,
                            inspection := world.inspect(content, c.year), status := Downloaded);
        case Refused(message) =>
          record := record.(status := Error, error := message);
        case Broken(kept, message) =>
          files, broken := files[place := FirstPart(content, kept)], broken + [place];
          record := record.(status := Error, error := message);
    }

    /** Try the year's candidates in priority order until one yields a report. */
    method TryYear(candidates: seq<Candidate>) returns (selected: Record)
      requires candidates != []
      modifies this
      ensures (selected, Disk()) == TryAll(candidates, old(Disk()), world, overwrite)
    {
      var i := 0;
      ghost var begin := Disk();
      selected := BaseRecord(candidates[0], Error, "");
      while i < |candidates|
        invariant 0 <= i <= |candidates|
        invariant i < |candidates| ==>
          TryAll(candidates[i..], Disk(), world, overwrite) == TryAll(candidates, begin, world, overwrite)
        invariant i == |candidates| ==> (selected, Disk()) == TryAll(candidates, begin, world, overwrite)
      {
        ghost var before := Disk();
        selected := DownloadCandidate(candidates[i]);
        assert candidates[i..][0] == candidates[i] && candidates[i..][1..] == candidates[i + 1..];
        if Successful(selected) {
          break;
        }
        i := i + 1;
      }
    }

    /** One more year of one company. */
    method RunYear(company: Company, year: int, ranked: seq<Candidate>, sofar: seq<Record>)
        returns (records: seq<Record>)
      requires IsRanking(ranked, company, year)
      modifies this
      ensures YearAdded(Progress(sofar, old(Disk())), Progress(records, Disk()), company, year, world, overwrite)
    {
      var record;
      if ranked == [] {
        record := Undiscovered(company, year);
      } else {
        record := TryYear(ranked);
      }
      records := sofar + [record];
    }

    method RankByYear(company: Company) returns (byYear: Years)
      ensures RanksAll(byYear, company)
    {
      var candidates := Discover(company.found);
      byYear := ChooseBestByYear(candidates);
    }

    /** One company's years in order, one record each, added to the records so far. */
    method RunCompany(company: Company, startYear: int, endYear: int, sofar: seq<Record>) returns (records: seq<Record>)
      modifies this
      ensures YearsRun(Progress(sofar, old(Disk())), Progress(records, Disk()),
                       company, startYear, endYear + 1, world, overwrite)
    {
      records := sofar;
      ghost var begin := Progress(sofar, Disk());
      if endYear < startYear {
        NoYearsRun(begin, company, startYear, endYear + 1, world, overwrite);
        return;
      }
      var byYear := RankByYear(company);
      NoYearsRun(begin, company, startYear, startYear, world, overwrite);
      for year := startYear to endYear + 1
        invariant YearsRun(begin, Progress(records, Disk()), company, startYear, year, world, overwrite)
      {
        ghost var before := Progress(records, Disk());
        RanksOne(byYear, company, year);
        records := RunYear(company, year, byYear.GetOr(year, []), records);
        YearsRunStep(begin, before, Progress(records, Disk()), company, startYear, year, world, overwrite);
      }
    }

    /** One record per company and year, companies and years in order. */
    method Run(companies: seq<Company>, startYear: int, endYear: int) returns (records: seq<Record>)
      modifies this
      ensures Progress(records, Disk())
           == RunAll(companies, startYear, endYear + 1, old(Disk()), world, overwrite)
    {
      records := [];
      ghost var begin := Disk();
      for n := 0 to |companies|
        invariant Progress(records, Disk()) == RunAll(companies[..n], startYear, endYear + 1, begin, world, overwrite)
      {
        assert companies[..n + 1][..n] == companies[..n];
        records := RunCompany(companies[n], startYear, endYear, records);
      }
      assert companies[..|companies|] == companies;
    }
  }

  ghost predicate YearAdded(p: Progress, q: Progress, company: Company, year: int, w: World, overwrite: bool) {
    q == AddYear(p, company, year, w, overwrite)
  }

  ghost predicate YearsRun(
    p: Progress, q: Progress, company: Company, start: int, end: int, w: World, overwrite: bool
  ) {
    q == RunYears(p, company, start, end, w, overwrite)
  }

  lemma NoYearsRun(p: Progress, company: Company, start: int, end: int, w: World, overwrite: bool)
    requires end <= start
    ensures YearsRun(p, p, company, start, end, w, overwrite)
  {}

  lemma YearsRunStep(
    p: Progress, q: Progress, r: Progress, company: Company, start: int, year: int, w: World, overwrite: bool
  )
    requires start <= year && YearsRun(p, q, company, start, year, w, overwrite)
    requires YearAdded(q, r, company, year, w, overwrite)
    ensures YearsRun(p, r, company, start, year + 1, w, overwrite)
  {}

  // ------------------------------------------------------- one record per year

  lemma CandidatesPlaced(company: Company, year: int)
    requires Stamped(company)
    ensures forall i :: 0 <= i < |CandidatesFor(company, year)| ==>
      Place(CandidatesFor(company, year)[i]) == (company.ticker, year)
  {
    var kept := Unrepeated(company.found);
    RankedForFacts(kept, year);
    KeptCandidates(company.found, kept);
    forall i | 0 <= i < |CandidatesFor(company, year)|
      ensures Place(CandidatesFor(company, year)[i]) == (company.ticker, year)
    {
      var c := CandidatesFor(company, year)[i];
      assert c in kept;
      var j :| 0 <= j < |kept| && kept[j] == c;
      assert c in company.found;
    }
  }

  lemma {:induction false} TryAllPlace(
    candidates: seq<Candidate>, s: Store, w: World, overwrite: bool, place: (string, int)
  )
    requires candidates != [] && forall i :: 0 <= i < |candidates| ==> Place(candidates[i]) == place
    ensures PlaceOf(TryAll(candidates, s, w, overwrite).0) == place
  {
    AttemptFacts(candidates[0], s, w, overwrite);
    var (r, t) := Attempt(candidates[0], s, w, overwrite);
    if !Successful(r) && |candidates| > 1 {
      TryAllPlace(candidates[1..], t, w, overwrite, place);
    }
  }

  function Places(records: seq<Record>): seq<(string, int)> {
    Map((r: Record) => PlaceOf(r), records)
  }

  /** Every company with every year from start up to but not including end. */
  function AllPlaces(companies: seq<Company>, start: int, end: int): seq<(string, int)> {
    if companies == [] then []
    else AllPlaces(companies[..|companies| - 1], start, end) + YearsOf(companies[|companies| - 1].ticker, start, end)
  }

  function YearsOf(ticker: string, start: int, end: int): seq<(string, int)> {
    seq(if start < end then end - start else 0, i => (ticker, start + i))
  }

  lemma {:induction false} YearsInOrder(p: Progress, company: Company, start: int, end: int, w: World, overwrite: bool)
    requires Stamped(company)
    ensures Places(RunYears(p, company, start, end, w, overwrite).records)
         == Places(p.records) + YearsOf(company.ticker, start, end)
    decreases end - start
  {
    if start < end {
      YearsInOrder(p, company, start, end - 1, w, overwrite);
      var q := RunYears(p, company, start, end - 1, w, overwrite);
      YearPlace(company, end - 1, q.store, w, overwrite);
      var r := YearRecord(company, end - 1, q.store, w, overwrite).0;
      assert Places(q.records + [r]) == Places(q.records) + [PlaceOf(r)];
      assert YearsOf(company.ticker, start, end)
          == YearsOf(company.ticker, start, end - 1) + [(company.ticker, end - 1)];
    }
  }

  lemma YearPlace(company: Company, year: int, s: Store, w: World, overwrite: bool)
    requires Stamped(company)
    ensures PlaceOf(YearRecord(company, year, s, w, overwrite).0) == (company.ticker, year)
  {
    CandidatesPlaced(company, year);
    if CandidatesFor(company, year) != [] {
      TryAllPlace(CandidatesFor(company, year), s, w, overwrite, (company.ticker, year));
    }
  }

  /** A run keeps exactly one record per company and year, companies and years in order. */
  lemma {:induction false} OneRecordEach(
    companies: seq<Company>, start: int, end: int, s: Store, w: World, overwrite: bool
  )
    requires forall n :: 0 <= n < |companies| ==> Stamped(companies[n])
    ensures Places(RunAll(companies, start, end, s, w, overwrite).records) == AllPlaces(companies, start, end)
  {
    if companies != [] {
      var n := |companies| - 1;
      OneRecordEach(companies[..n], start, end, s, w, overwrite);
      YearsInOrder(RunAll(companies[..n], start, end, s, w, overwrite), companies[n], start, end, w, overwrite);
    }
  }

  /** The record of company m for its y-th year stands at place m * (number of years) + y. */
  lemma {:induction false} PlaceAt(companies: seq<Company>, start: int, end: int, m: nat, y: nat)
    requires start <= end && m < |companies| && y < end - start
    ensures |AllPlaces(companies, start, end)| == |companies| * (end - start)
    ensures m * (end - start) + y < |companies| * (end - start)
    ensures AllPlaces(companies, start, end)[m * (end - start) + y] == (companies[m].ticker, start + y)
  {
    var n, span := |companies| - 1, end - start;
    PlacesCount(companies[..n], start, end);
    NextMultiple(n, span);
    if m < n {
      PlaceAt(companies[..n], start, end, m, y);
    }
  }

  lemma {:induction false} PlacesCount(companies: seq<Company>, start: int, end: int)
    requires start <= end
    ensures |AllPlaces(companies, start, end)| == |companies| * (end - start)
  {
    if companies != [] {
      PlacesCount(companies[..|companies| - 1], start, end);
      NextMultiple(|companies| - 1, end - start);
    }
  }

  lemma NextMultiple(n: int, span: int)
    ensures (n + 1) * span == n * span + span
  {}

  // ---------------------------------------------------------- what runs leave behind

  /** A write has broken at k since s. */
  ghost predicate NewlyBroken(s: Store, t: Store, k: (string, int)) {
    exists j :: |s.broken| <= j < |t.broken| && t.broken[j] == k
  }

  /** One place tried from s, leaving t and the record r; the requests added are all for that place,
      and so are the writes that broke. */
  ghost predicate Settled(place: (string, int), s: Store, t: Store, r: Record, w: World, overwrite: bool) {
    && PlaceOf(r) == place
    && s.broken <= t.broken
    && (forall j :: |s.broken| <= j < |t.broken| ==> t.broken[j] == place)
    && (t.broken != s.broken ==> place in t.files)
    && (t.broken == s.broken && r.status != Downloaded ==> t.files == s.files)
    && (place in t.files ==> t.files == s.files[place := t.files[place]])
    && (place !in t.files ==> t.files == s.files)
    && (Successful(r) ==> place in t.files && Describes(r, t.files[place], w))
    && s.requests <= t.requests
    && (forall j :: |s.requests| <= j < |t.requests| ==> t.requests[j].place == place)
    && (!overwrite && place in s.files ==> t == s && r.status in {AlreadyExists, NotDiscovered})
    && (!overwrite && t.broken != s.broken ==> r.status in {AlreadyExists, Error})
  }

  lemma {:induction false} TryAllSettles(
    candidates: seq<Candidate>, s: Store, w: World, overwrite: bool, place: (string, int)
  )
    requires candidates != []
    requires forall i :: 0 <= i < |candidates| ==> Place(candidates[i]) == place
    ensures var (r, t) := TryAll(candidates, s, w, overwrite); Settled(place, s, t, r, w, overwrite)
  {
    AttemptFacts(candidates[0], s, w, overwrite);
    var (r, t) := Attempt(candidates[0], s, w, overwrite);
    if !Successful(r) && |candidates| > 1 {
      TryAllSettles(candidates[1..], t, w, overwrite, place);
    }
  }

  lemma YearSettles(company: Company, year: int, s: Store, w: World, overwrite: bool)
    requires Stamped(company)
    ensures var (r, t) := YearRecord(company, year, s, w, overwrite);
      Settled((company.ticker, year), s, t, r, w, overwrite)
  {
    CandidatesPlaced(company, year);
    if CandidatesFor(company, year) != [] {
      TryAllSettles(CandidatesFor(company, year), s, w, overwrite, (company.ticker, year));
    }
  }

  ghost predicate Unchanged(s: Store, t: Store, k: (string, int)) {
    (k in s.files <==> k in t.files) && (k in s.files ==> s.files[k] == t.files[k])
  }

  ghost predicate SomeDownload(records: seq<Record>, k: (string, int)) {
    exists i :: 0 <= i < |records| && PlaceOf(records[i]) == k && records[i].status == Downloaded
  }

  /** A file changes only where a record says it was downloaded. */
  ghost predicate ChangesRecorded(s: Store, p: Progress) {
    forall k :: Unchanged(s, p.store, k) || SomeDownload(p.records, k)
  }

  /** A file changes only where a record says it was downloaded or a write has broken. */
  ghost predicate ChangesAccounted(s: Store, p: Progress) {
    && s.broken <= p.store.broken
    && forall k :: Unchanged(s, p.store, k) || SomeDownload(p.records, k) || NewlyBroken(s, p.store, k)
  }

  lemma SomeDownloadAfterMore(records: seq<Record>, r: Record, k: (string, int))
    ensures SomeDownload(records + [r], k) <==> SomeDownload(records, k) || (r.status == Downloaded && PlaceOf(r) == k)
  {
    var more := records + [r];
    assert more[|records|] == r;
    assert forall i :: 0 <= i < |records| ==> more[i] == records[i];
  }

  lemma NewlyBrokenAfterMore(s: Store, t: Store, u: Store, place: (string, int), k: (string, int))
    requires s.broken <= t.broken <= u.broken
    requires forall j :: |t.broken| <= j < |u.broken| ==> u.broken[j] == place
    ensures NewlyBroken(s, u, k) <==> NewlyBroken(s, t, k) || (u.broken != t.broken && k == place)
  {
    assert forall j :: 0 <= j < |t.broken| ==> u.broken[j] == t.broken[j];
    if u.broken != t.broken {
      assert |t.broken| < |u.broken| && u.broken[|t.broken|] == place;
    }
  }

  lemma ChangesAccountedStep(s: Store, p: Progress, r: Record, t: Store, w: World, overwrite: bool)
    requires ChangesAccounted(s, p) && Settled(PlaceOf(r), p.store, t, r, w, overwrite)
    ensures ChangesAccounted(s, Progress(p.records + [r], t))
  {
    forall k ensures Unchanged(s, t, k) || SomeDownload(p.records + [r], k) || NewlyBroken(s, t, k) {
      SomeDownloadAfterMore(p.records, r, k);
      NewlyBrokenAfterMore(s, p.store, t, PlaceOf(r), k);
      assert Unchanged(s, p.store, k) || SomeDownload(p.records, k) || NewlyBroken(s, p.store, k);
    }
  }

  /** What a broken write leaves stays on disk, in whatever state. */
  ghost predicate BreaksLeaveFiles(s: Store, p: Progress) {
    forall k :: NewlyBroken(s, p.store, k) ==> k in p.store.files
  }

  lemma BreaksLeaveFilesStep(s: Store, p: Progress, r: Record, t: Store, w: World, overwrite: bool)
    requires s.broken <= p.store.broken && BreaksLeaveFiles(s, p)
    requires Settled(PlaceOf(r), p.store, t, r, w, overwrite)
    ensures BreaksLeaveFiles(s, Progress(p.records + [r], t))
  {
    forall k | NewlyBroken(s, t, k) ensures k in t.files {
      NewlyBrokenAfterMore(s, p.store, t, PlaceOf(r), k);
    }
  }

  /** Without overwriting, a broken write goes unreported: the file it leaves is new, and no record
      of the whole run says it was downloaded. */
  ghost predicate BreaksUnreported(s: Store, p: Progress) {
    forall k :: NewlyBroken(s, p.store, k) ==> k !in s.files && k in p.store.files && !SomeDownload(p.records, k)
  }

  lemma BreaksUnreportedStep(s: Store, p: Progress, r: Record, t: Store, w: World)
    requires s.broken <= p.store.broken && BreaksUnreported(s, p) && OnlyAdds(s, p, w)
    requires Settled(PlaceOf(r), p.store, t, r, w, false)
    ensures BreaksUnreported(s, Progress(p.records + [r], t))
  {
    forall k | NewlyBroken(s, t, k) ensures k !in s.files && k in t.files && !SomeDownload(p.records + [r], k) {
      SomeDownloadAfterMore(p.records, r, k);
      NewlyBrokenAfterMore(s, p.store, t, PlaceOf(r), k);
      if SomeDownload(p.records, k) {
        var i :| 0 <= i < |p.records| && PlaceOf(p.records[i]) == k && p.records[i].status == Downloaded;
        assert Successful(p.records[i]);
      }
    }
  }

  /** Without overwriting: files are only added, successful records describe what is on disk, and
      places already on disk at the start are not requested again. */
  ghost predicate OnlyAdds(s: Store, p: Progress, w: World) {
    && (forall k :: k in s.files ==> k in p.store.files && p.store.files[k] == s.files[k])
    && (forall i :: 0 <= i < |p.records| && Successful(p.records[i]) ==>
          PlaceOf(p.records[i]) in p.store.files && Describes(p.records[i], p.store.files[PlaceOf(p.records[i])], w))
    && (forall i :: 0 <= i < |p.records| && PlaceOf(p.records[i]) in s.files ==>
          p.records[i].status in {AlreadyExists, NotDiscovered})
  }

  lemma OnlyAddsStep(s: Store, p: Progress, r: Record, t: Store, w: World)
    requires OnlyAdds(s, p, w) && Settled(PlaceOf(r), p.store, t, r, w, false)
    ensures OnlyAdds(s, Progress(p.records + [r], t), w)
  {}

  /** Requests are only added, and none for a place that was on disk at the start. */
  ghost predicate OnlyMissing(s: Store, t: Store) {
    s.requests <= t.requests && forall j :: |s.requests| <= j < |t.requests| ==> t.requests[j].place !in s.files
  }

  lemma OnlyMissingStep(s: Store, p: Progress, r: Record, t: Store, w: World)
    requires OnlyAdds(s, p, w) && OnlyMissing(s, p.store) && Settled(PlaceOf(r), p.store, t, r, w, false)
    ensures OnlyMissing(s, t)
  {
    if PlaceOf(r) !in p.store.files {
      forall j | |s.requests| <= j < |t.requests| ensures t.requests[j].place !in s.files {
        if j < |p.store.requests| {
          assert t.requests[j] == p.store.requests[j];
        }
      }
    }
  }

  /** What a run keeps at every point, p being what it has done since s. */
  ghost predicate Kept(s: Store, p: Progress, w: World, overwrite: bool) {
    && ChangesAccounted(s, p)
    && BreaksLeaveFiles(s, p)
    && (!overwrite ==> OnlyAdds(s, p, w) && OnlyMissing(s, p.store) && BreaksUnreported(s, p))
  }

  lemma {:induction false} YearsKeep(
    s: Store, p: Progress, company: Company, start: int, end: int, w: World, overwrite: bool
  )
    requires Stamped(company) && Kept(s, p, w, overwrite)
    ensures Kept(s, RunYears(p, company, start, end, w, overwrite), w, overwrite)
    decreases end - start
  {
    if start < end {
      YearsKeep(s, p, company, start, end - 1, w, overwrite);
      var q := RunYears(p, company, start, end - 1, w, overwrite);
      var (r, t) := YearRecord(company, end - 1, q.store, w, overwrite);
      YearSettles(company, end - 1, q.store, w, overwrite);
      ChangesAccountedStep(s, q, r, t, w, overwrite);
      BreaksLeaveFilesStep(s, q, r, t, w, overwrite);
      if !overwrite {
        OnlyAddsStep(s, q, r, t, w);
        OnlyMissingStep(s, q, r, t, w);
        BreaksUnreportedStep(s, q, r, t, w);
      }
    }
  }

  lemma {:induction false} RunKept(companies: seq<Company>, start: int, end: int, s: Store, w: World, overwrite: bool)
    requires forall n :: 0 <= n < |companies| ==> Stamped(companies[n])
    ensures Kept(s, RunAll(companies, start, end, s, w, overwrite), w, overwrite)
  {
    if companies != [] {
      var n := |companies| - 1;
      RunKept(companies[..n], start, end, s, w, overwrite);
      YearsKeep(s, RunAll(companies[..n], start, end, s, w, overwrite), companies[n], start, end, w, overwrite);
    }
  }

  lemma RecordedUnlessBroken(s: Store, p: Progress, w: World, overwrite: bool)
    requires Kept(s, p, w, overwrite)
    ensures p.store.broken == s.broken ==> ChangesRecorded(s, p)
    ensures !overwrite && ChangesRecorded(s, p) ==> p.store.broken == s.broken
  {
    if p.store.broken == s.broken {
      forall k ensures Unchanged(s, p.store, k) || SomeDownload(p.records, k) {
        assert !NewlyBroken(s, p.store, k);
      }
    } else if !overwrite {
      var k := p.store.broken[|s.broken|];
      assert NewlyBroken(s, p.store, k);
      assert !Unchanged(s, p.store, k) && !SomeDownload(p.records, k);
    }
  }

  /** Whole runs. Every changed file has its download record if no write breaks after opening its file;
      without overwriting, only if none does. Without overwriting, files are only added, every
      successful record describes the file on disk when the run ends, and reports are requested only
      for places that were not on disk when it began. */
  lemma RunsKeep(companies: seq<Company>, start: int, end: int, s: Store, w: World, overwrite: bool)
    requires forall n :: 0 <= n < |companies| ==> Stamped(companies[n])
    ensures var p := RunAll(companies, start, end, s, w, overwrite);
      && ChangesAccounted(s, p)
      && (p.store.broken == s.broken ==> ChangesRecorded(s, p))
      && (!overwrite ==> (ChangesRecorded(s, p) <==> p.store.broken == s.broken))
      && (!overwrite ==> OnlyAdds(s, p, w) && OnlyMissing(s, p.store) && BreaksUnreported(s, p))
  {
    RunKept(companies, start, end, s, w, overwrite);
    RecordedUnlessBroken(s, RunAll(companies, start, end, s, w, overwrite), w, overwrite);
  }

  /** Two candidates for one missing file, the first answered with a report whose write breaks: the
      second finds what is left, so the year is recorded as already there, under an address never
      asked. */
  lemma BrokenWriteHidden(
    a: Candidate, b: Candidate, s: Store, w: World, content: string, contentType: string, kept: nat, message: string
  )
    requires Place(a) == Place(b) && Place(a) !in s.files && LooksLikePdf(content, contentType)
    requires w.answer(|s.requests|, a.url) == Body(content, contentType)
    requires w.write(|s.requests|) == Broken(kept, message)
    ensures var (r, t) := TryAll([a, b], s, w, false);
      && r.status == AlreadyExists && r.sourceUrl == b.url && r.error == ""
      && t.requests == s.requests + [Request(Place(a), a.url)] && t.broken == s.broken + [Place(a)]
      && t.files == s.files[Place(a) := FirstPart(content, kept)]
  {
    assert [a, b][1..] == [b];
  }

  // -------------------------------------------------------- runs that overwrite

  /** Two runs that have done the same, on whatever disks. */
  ghost predicate SameLog(p: Progress, q: Progress) {
    p.records == q.records && p.store.requests == q.store.requests && p.store.broken == q.store.broken
  }

  lemma {:induction false} TryAllSameLog(candidates: seq<Candidate>, s: Store, t: Store, w: World)
    requires candidates != [] && s.requests == t.requests && s.broken == t.broken
    ensures var ((r, s'), (q, t')) := (TryAll(candidates, s, w, true), TryAll(candidates, t, w, true));
      r == q && s'.requests == t'.requests && s'.broken == t'.broken
  {
    var (r, s') := Attempt(candidates[0], s, w, true);
    var (q, t') := Attempt(candidates[0], t, w, true);
    if !Successful(r) && |candidates| > 1 {
      TryAllSameLog(candidates[1..], s', t', w);
    }
  }

  lemma {:induction false} YearsSameLog(p: Progress, q: Progress, company: Company, start: int, end: int, w: World)
    requires SameLog(p, q)
    ensures SameLog(RunYears(p, company, start, end, w, true), RunYears(q, company, start, end, w, true))
    decreases end - start
  {
    if start < end {
      YearsSameLog(p, q, company, start, end - 1, w);
      var p', q' := RunYears(p, company, start, end - 1, w, true), RunYears(q, company, start, end - 1, w, true);
      if CandidatesFor(company, end - 1) != [] {
        TryAllSameLog(CandidatesFor(company, end - 1), p'.store, q'.store, w);
      }
    }
  }

  /** A run that overwrites does the same whatever is on disk. */
  lemma {:induction false} OverwritingIgnoresDisk(
    companies: seq<Company>, start: int, end: int, s: Store, t: Store, w: World
  )
    requires s.requests == t.requests && s.broken == t.broken
    ensures SameLog(RunAll(companies, start, end, s, w, true), RunAll(companies, start, end, t, w, true))
  {
    if companies != [] {
      var n := |companies| - 1;
      OverwritingIgnoresDisk(companies[..n], start, end, s, t, w);
      YearsSameLog(RunAll(companies[..n], start, end, s, w, true), RunAll(companies[..n], start, end, t, w, true),
                   companies[n], start, end, w);
    }
  }

  /** The overwriting run from a disk that holds these files records every change it makes. */
  ghost predicate RecordsChangesFrom(
    files: map<(string, int), string>, companies: seq<Company>, start: int, end: int, s: Store, w: World
  ) {
    ChangesRecorded(s.(files := files), RunAll(companies, start, end, s.(files := files), w, true))
  }

  ghost predicate BreaksMended(s: Store, p: Progress) {
    forall k :: NewlyBroken(s, p.store, k) ==> SomeDownload(p.records, k)
  }

  lemma MendedMeansRecorded(
    files: map<(string, int), string>, companies: seq<Company>, start: int, end: int, s: Store, w: World
  )
    requires forall n :: 0 <= n < |companies| ==> Stamped(companies[n])
    ensures BreaksMended(s, RunAll(companies, start, end, s, w, true)) ==>
      RecordsChangesFrom(files, companies, start, end, s, w)
    ensures files == map[] && RecordsChangesFrom(files, companies, start, end, s, w) ==>
      BreaksMended(s, RunAll(companies, start, end, s, w, true))
  {
    var t := s.(files := files);
    var p, q := RunAll(companies, start, end, s, w, true), RunAll(companies, start, end, t, w, true);
    OverwritingIgnoresDisk(companies, start, end, s, t, w);
    RunKept(companies, start, end, t, w, true);
    forall k ensures NewlyBroken(t, q.store, k) <==> NewlyBroken(s, p.store, k) {}
    if files == map[] && ChangesRecorded(t, q) {
      forall k | NewlyBroken(s, p.store, k) ensures SomeDownload(p.records, k) {
        assert !Unchanged(t, q.store, k);
      }
    }
  }

  /** When overwriting, a later candidate may mend what a write has broken. Whatever was on disk, every
      changed file then has its download record, exactly when every place where a write has broken is
      recorded as downloaded by the end. */
  lemma OverwritingRunsKeep(companies: seq<Company>, start: int, end: int, s: Store, w: World)
    requires forall n :: 0 <= n < |companies| ==> Stamped(companies[n])
    ensures (forall files :: RecordsChangesFrom(files, companies, start, end, s, w))
       <==> BreaksMended(s, RunAll(companies, start, end, s, w, true))
  {
    forall files
      ensures BreaksMended(s, RunAll(companies, start, end, s, w, true)) ==>
        RecordsChangesFrom(files, companies, start, end, s, w)
    {
      MendedMeansRecorded(files, companies, start, end, s, w);
    }
    MendedMeansRecorded(map[], companies, start, end, s, w);
  }

  // ------------------------------------------------------------------- repeat runs

  lemma {:induction false} TryAllDiscovered(candidates: seq<Candidate>, s: Store, w: World, overwrite: bool)
    requires candidates != []
    ensures TryAll(candidates, s, w, overwrite).0.status != NotDiscovered
  {
    var (r, t) := Attempt(candidates[0], s, w, overwrite);
    if !Successful(r) && |candidates| > 1 {
      TryAllDiscovered(candidates[1..], t, w, overwrite);
    }
  }

  lemma FoundIsTried(company: Company, year: int, i: nat)
    requires i < |company.found| && company.found[i].year == year
    ensures CandidatesFor(company, year) != []
  {
    var kept := Unrepeated(company.found);
    var j := FoundWasKept(company.found, i);
    FilterElements(InYear(year), kept);
    assert kept[j] in kept && InYear(year)(kept[j]);
    assert Filter(InYear(year), kept) != [];
    StableSortSorts(Falling(), Filter(InYear(year), kept));
    SameLength(CandidatesFor(company, year), Filter(InYear(year), kept));
  }

  lemma TriedWasFound(company: Company, year: int) returns (i: nat)
    requires CandidatesFor(company, year) != []
    ensures i < |company.found| && company.found[i].year == year
  {
    var kept, first := Unrepeated(company.found), CandidatesFor(company, year)[0];
    RankedForFacts(kept, year);
    assert first in kept && first.year == year;
    i := KeptWasFound(company.found, PositionOf(kept, first));
  }

  /** A year is recorded as not discovered, in the company's name and with nothing tried, exactly when no
      candidate was found for it. */
  lemma YearDiscovered(company: Company, year: int, s: Store, w: World, overwrite: bool)
    ensures var (r, t) := YearRecord(company, year, s, w, overwrite);
      && (r.status == NotDiscovered <==> forall i :: 0 <= i < |company.found| ==> company.found[i].year != year)
      && (r.status == NotDiscovered ==>
            t == s && r == Record(company.ticker, company.name, year, company.archiveUrl, "", "", 0,
                                  Inspection(None, "", "not_checked"), company.method_, NotDiscovered, ""))
  {
    if CandidatesFor(company, year) != [] {
      var i := TriedWasFound(company, year);
      TryAllDiscovered(CandidatesFor(company, year), s, w, overwrite);
    }
    forall i: nat | i < |company.found| && company.found[i].year == year ensures CandidatesFor(company, year) != [] {
      FoundIsTried(company, year, i);
    }
  }

  function Undiscovereds(records: seq<Record>): seq<bool> {
    Map((r: Record) => r.status == NotDiscovered, records)
  }

  lemma {:induction false} YearsDiscovered(
    p: Progress, q: Progress, company: Company, start: int, end: int, w: World, overwrite: bool
  )
    requires Undiscovereds(p.records) == Undiscovereds(q.records)
    ensures Undiscovereds(RunYears(p, company, start, end, w, overwrite).records)
         == Undiscovereds(RunYears(q, company, start, end, w, overwrite).records)
    decreases end - start
  {
    if start < end {
      YearsDiscovered(p, q, company, start, end - 1, w, overwrite);
      var p' := RunYears(p, company, start, end - 1, w, overwrite);
      var q' := RunYears(q, company, start, end - 1, w, overwrite);
      var r := YearRecord(company, end - 1, p'.store, w, overwrite).0;
      var t := YearRecord(company, end - 1, q'.store, w, overwrite).0;
      var candidates := CandidatesFor(company, end - 1);
      if candidates != [] {
        TryAllDiscovered(candidates, p'.store, w, overwrite);
        TryAllDiscovered(candidates, q'.store, w, overwrite);
      }
      assert Undiscovereds(p'.records + [r]) == Undiscovereds(p'.records) + [r.status == NotDiscovered];
      assert Undiscovereds(q'.records + [t]) == Undiscovereds(q'.records) + [t.status == NotDiscovered];
    }
  }

  /** Which years come out undiscovered does not depend on what is on disk. */
  lemma {:induction false} DiscoveryIgnoresDisk(
    companies: seq<Company>, start: int, end: int, s: Store, t: Store, w: World, overwrite: bool
  )
    ensures Undiscovereds(RunAll(companies, start, end, s, w, overwrite).records)
         == Undiscovereds(RunAll(companies, start, end, t, w, overwrite).records)
  {
    if companies != [] {
      var n := |companies| - 1;
      DiscoveryIgnoresDisk(companies[..n], start, end, s, t, w, overwrite);
      YearsDiscovered(RunAll(companies[..n], start, end, s, w, overwrite),
                      RunAll(companies[..n], start, end, t, w, overwrite), companies[n], start, end, w, overwrite);
    }
  }

  /** A repeat run: whatever the first run recorded as a success is still on disk, unchanged, after the
      second, which records it as already existing and requests nothing for any place on disk. */
  lemma RepeatRun(companies: seq<Company>, start: int, end: int, s: Store, w: World)
    requires forall n :: 0 <= n < |companies| ==> Stamped(companies[n])
    ensures var first := RunAll(companies, start, end, s, w, false);
      var second := RunAll(companies, start, end, first.store, w, false);
      && OnlyMissing(first.store, second.store)
      && |first.records| == |second.records|
      && forall i :: 0 <= i < |first.records| && Successful(first.records[i]) ==>
           var k := PlaceOf(first.records[i]);
           && k in first.store.files && k in second.store.files && second.store.files[k] == first.store.files[k]
           && PlaceOf(second.records[i]) == k && second.records[i].status == AlreadyExists
           && Describes(first.records[i], second.store.files[k], w)
           && Describes(second.records[i], second.store.files[k], w)
  {
    var first := RunAll(companies, start, end, s, w, false);
    var second := RunAll(companies, start, end, first.store, w, false);
    RunsKeep(companies, start, end, s, w, false);
    RunsKeep(companies, start, end, first.store, w, false);
    OneRecordEach(companies, start, end, s, w, false);
    OneRecordEach(companies, start, end, first.store, w, false);
    DiscoveryIgnoresDisk(companies, start, end, s, first.store, w, false);
    assert |Places(first.records)| == |Places(second.records)|;
    forall i | 0 <= i < |first.records| && Successful(first.records[i])
      ensures PlaceOf(second.records[i]) == PlaceOf(first.records[i]) && second.records[i].status == AlreadyExists
    {
      assert Places(first.records)[i] == Places(second.records)[i];
      assert Undiscovereds(first.records)[i] == Undiscovereds(second.records)[i];
    }
  }
}
