/** Composing one card per person: photo resolution, the progress line, and
    the run statistics threaded through the cards and the pages. */
module Cards {
  import opened Wrappers
  import opened Text
  import opened Sanitizer
  import opened Description
  import opened Paginator

  /** The two questions the program asks the file system about a photo:
      does the path exist, and can the image library open it. */
  datatype FileSystem = FileSystem(existing: set<string>, readable: set<string>)

  datatype Status = Ok | Warning {
    function Label(): string {
      if Ok? then "SUCCESS" else "WARNING"
    }
  }

  datatype PhotoOutcome = NoPath | NotFound | Unreadable | Found

  /** The photo shown on a card and how it was chosen. */
  datatype PhotoChoice = PhotoChoice(outcome: PhotoOutcome, path: string, status: Status, message: string)

  /** Whether a person's photo path earns them a place in the warning list:
      a path is given but the file is missing or cannot be opened. */
  predicate IsPhotoWarning(photo: string, fs: FileSystem) {
    photo != "" && (photo !in fs.existing || photo !in fs.readable)
  }

  /** The photo decision at the end of `_make_card`. */
  function ResolvePhoto(photo: string, defaultPhoto: string, fs: FileSystem): (r: PhotoChoice)
    ensures r.outcome == NoPath <==> photo == ""
    ensures r.outcome == NotFound <==> photo != "" && photo !in fs.existing
    ensures r.outcome == Unreadable <==> photo != "" && photo in fs.existing && photo !in fs.readable
    ensures r.outcome == Found <==> photo != "" && photo in fs.existing && photo in fs.readable
    ensures r.path == (if r.outcome == Found then photo else defaultPhoto)
    ensures r.status == Warning <==> IsPhotoWarning(photo, fs)
    ensures r.outcome == NoPath ==> r.message == "No photo path provided"
    ensures r.outcome == NotFound ==> r.message == "Photo path provided but photo not found; default used"
    ensures r.outcome == Unreadable ==> r.message == "Could not read photo at `" + photo + "`; default used"
    ensures r.outcome == Found ==> r.message == "Photo path provided and photo read"
  {
    if photo != "" then
      if photo !in fs.existing then
        PhotoChoice(NotFound, defaultPhoto, Warning, "Photo path provided but photo not found; default used")
      else if photo in fs.readable then
        PhotoChoice(Found, photo, Ok, "Photo path provided and photo read")
      else
        PhotoChoice(Unreadable, defaultPhoto, Warning, "Could not read photo at `" + photo + "`; default used")
    else
      PhotoChoice(NoPath, defaultPhoto, Ok, "No photo path provided")
  }

  // ---------------------------------------------------------------------
  // Reading a person off a sanitised record

  /** `row[name]`: the value of the first column with that label. */
  function Lookup(rec: Record, name: string): (r: Option<string>)
    ensures r.Some? <==> name in Labels(rec)
    ensures r.Some? ==> rec[IndexOf(Labels(rec), name)].value == r.value
  {
    if rec == [] then None
    else if rec[0].name == name then
      assert Labels(rec)[0] == name;
      Some(rec[0].value)
    else
      assert Labels(rec) == [rec[0].name] + Labels(rec[1..]);
      Lookup(rec[1..], name)
  }

  /** What a card needs from a row. */
  datatype Person = Person(fullName: string, photo: string, description: string)

  /** The lookups `_make_card` does on its row; `None` where one of them
      raises a KeyError. */
  function PersonOf(rec: Record, first: string, last: string, photo: string): (r: Option<Person>)
    ensures r.Some? <==> forall x :: x in Excluded(first, last, photo) ==> x in Labels(rec)
    ensures r.Some? ==> r.value == Person(Lookup(rec, FullNameLabel).value, Lookup(rec, photo).value,
                                          DescriptionOf(rec, first, last, photo).value)
  {
    var d := DescriptionOf(rec, first, last, photo);
    if d.Some? then
      assert FullNameLabel in Excluded(first, last, photo) && photo in Excluded(first, last, photo);
      Some(Person(Lookup(rec, FullNameLabel).value, Lookup(rec, photo).value, d.value))
    else None
  }

  // ---------------------------------------------------------------------
  // Statistics and the progress line

  /** The run statistics: cards made so far, cards to make, and the names
      whose photo could not be found or read, in processing order. */
  datatype Stats = Stats(created: nat, toCreate: nat, photoWarnings: seq<string>)

  /** One composed card. */
  datatype Card = Card(person: Person, photo: PhotoChoice, progress: string)

  /** `[<created + 1>/<to create>] <STATUS> : <full name> - <message>` */
  function ProgressLine(created: nat, toCreate: nat, status: Status, name: string, message: string): string {
    "[" + Decimal(created + 1) + "/" + Decimal(toCreate) + "] " + status.Label() + " : " + name + " - " + message
  }

  /** The run of decimal digits at the start of `s`. */
  function DigitPrefix(s: string): (r: string)
    ensures AllDigits(r) && r <= s
    ensures |r| < |s| ==> !IsDigit(s[|r|])
  {
    if s != [] && IsDigit(s[0]) then
      var t := DigitPrefix(s[1..]);
      assert [s[0]] + t <= s by { assert s == [s[0]] + s[1..]; }
      [s[0]] + t
    else []
  }

  lemma {:induction false} DigitPrefixOf(d: string, rest: string)
    requires AllDigits(d)
    requires rest == [] || !IsDigit(rest[0])
    ensures DigitPrefix(d + rest) == d
  {
    if d != [] {
      assert (d + rest)[1..] == d[1..] + rest;
      DigitPrefixOf(d[1..], rest);
      assert [d[0]] + d[1..] == d;
    } else {
      assert d + rest == rest;
    }
  }

  /** Reads the `[a/b]` counter at the start of a progress line. */
  function ProgressCounter(line: string): Option<(nat, nat)> {
    if |line| > 0 && line[0] == '[' then
      var a := DigitPrefix(line[1..]);
      var rest := line[1 + |a|..];
      if a != [] && |rest| > 0 && rest[0] == '/' then
        var b := DigitPrefix(rest[1..]);
        var rest2 := rest[1 + |b|..];
        if b != [] && |rest2| > 0 && rest2[0] == ']' then Some((ParseDecimal(a), ParseDecimal(b)))
        else None
      else None
    else None
  }

  /** A line `[a/b]...` whose counters are digit strings reads back as them. */
  lemma CounterOf(a: string, b: string, tail: string)
    requires a != [] && AllDigits(a) && b != [] && AllDigits(b)
    requires tail != [] && tail[0] == ']'
    ensures ProgressCounter("[" + (a + ("/" + (b + tail)))) == Some((ParseDecimal(a), ParseDecimal(b)))
  {
    var line := "[" + (a + ("/" + (b + tail)));
    assert line[1..] == a + ("/" + (b + tail));
    DigitPrefixOf(a, "/" + (b + tail));
    var rest := line[1 + |a|..];
    assert rest == "/" + (b + tail);
    assert rest[1..] == b + tail;
    DigitPrefixOf(b, tail);
    assert rest[1 + |b|..] == tail;
  }

  lemma LineShape(a: string, b: string, l: string, name: string, message: string)
    ensures "[" + a + "/" + b + "] " + l + " : " + name + " - " + message
            == "[" + (a + ("/" + (b + ("] " + l + " : " + name + " - " + message))))
  {
  }

  /** The counter of a progress line reads back as the number of the card
      being made (one more than the cards made so far) out of the cards to make. */
  lemma ProgressCounterOfLine(created: nat, toCreate: nat, status: Status, name: string, message: string)
    ensures ProgressCounter(ProgressLine(created, toCreate, status, name, message)) == Some((created + 1, toCreate))
  {
    var a := Decimal(created + 1);
    var b := Decimal(toCreate);
    var tail := "] " + status.Label() + " : " + name + " - " + message;
    LineShape(a, b, status.Label(), name, message);
    CounterOf(a, b, tail);
    ParseDecimalOfDecimal(created + 1);
    ParseDecimalOfDecimal(toCreate);
  }

  /** `_make_card` from the photo decision on: one more card made, at most
      one warning name appended, and the progress line for this card. */
  function MakeCard(stats: Stats, p: Person, defaultPhoto: string, fs: FileSystem): (r: (Stats, Card))
    ensures r.0.created == stats.created + 1 && r.0.toCreate == stats.toCreate
    ensures r.0.photoWarnings == stats.photoWarnings + (if IsPhotoWarning(p.photo, fs) then [p.fullName] else [])
    ensures r.1.person == p && r.1.photo == ResolvePhoto(p.photo, defaultPhoto, fs)
    ensures r.1.progress == ProgressLine(stats.created, stats.toCreate, r.1.photo.status, p.fullName, r.1.photo.message)
  {
    var choice := ResolvePhoto(p.photo, defaultPhoto, fs);
    var warnings := if choice.status == Warning then stats.photoWarnings + [p.fullName] else stats.photoWarnings;
    var line := ProgressLine(stats.created, stats.toCreate, choice.status, p.fullName, choice.message);
    (Stats(stats.created + 1, stats.toCreate, warnings), Card(p, choice, line))
  }

  /** Cards made one after another, threading the statistics through. */
  function RunCards(stats: Stats, people: seq<Person>, defaultPhoto: string, fs: FileSystem): (r: (Stats, seq<Card>))
    ensures r.0.created == stats.created + |people|
    ensures r.0.toCreate == stats.toCreate
    ensures |r.1| == |people|
    decreases |people|
  {
    if people == [] then (stats, [])
    else
      var first := MakeCard(stats, people[0], defaultPhoto, fs);
      var rest := RunCards(first.0, people[1..], defaultPhoto, fs);
      (rest.0, [first.1] + rest.1)
  }

  /** Reference: the full names of the people with a photo warning, in order. */
  function WarnedNames(people: seq<Person>, fs: FileSystem): seq<string> {
    if people == [] then []
    else (if IsPhotoWarning(people[0].photo, fs) then [people[0].fullName] else []) + WarnedNames(people[1..], fs)
  }

  /** The warning list grows by exactly the warned people's names, in
      processing order. */
  lemma {:induction false} RunCardsWarnings(stats: Stats, people: seq<Person>, defaultPhoto: string, fs: FileSystem)
    ensures RunCards(stats, people, defaultPhoto, fs).0.photoWarnings == stats.photoWarnings + WarnedNames(people, fs)
    decreases |people|
  {
    if people != [] {
      var first := MakeCard(stats, people[0], defaultPhoto, fs);
      RunCardsWarnings(first.0, people[1..], defaultPhoto, fs);
    }
  }

  function People(cards: seq<Card>): (r: seq<Person>)
    ensures |r| == |cards| && forall i :: 0 <= i < |cards| ==> r[i] == cards[i].person
  {
    seq(|cards|, i requires 0 <= i < |cards| => cards[i].person)
  }

  /** Card `k` of a run is for person `k`, shows that person's resolved
      photo, and its progress line counts `created + k + 1`. */
  lemma {:induction false} RunCardsAt(stats: Stats, people: seq<Person>, defaultPhoto: string, fs: FileSystem, k: nat)
    requires k < |people|
    ensures var choice := ResolvePhoto(people[k].photo, defaultPhoto, fs);
      RunCards(stats, people, defaultPhoto, fs).1[k]
      == Card(people[k], choice, ProgressLine(stats.created + k, stats.toCreate, choice.status,
                                               people[k].fullName, choice.message))
    decreases k
  {
    var first := MakeCard(stats, people[0], defaultPhoto, fs);
    var rest := RunCards(first.0, people[1..], defaultPhoto, fs);
    assert RunCards(stats, people, defaultPhoto, fs).1 == [first.1] + rest.1;
    if k > 0 {
      RunCardsAt(first.0, people[1..], defaultPhoto, fs, k - 1);
      assert people[1..][k - 1] == people[k];
    }
  }

  /** The cards of a run are for the people of the run, in order, each
      with its resolved photo and its progress line. */
  lemma RunCardsCards(stats: Stats, people: seq<Person>, defaultPhoto: string, fs: FileSystem)
    ensures var cards := RunCards(stats, people, defaultPhoto, fs).1;
      && People(cards) == people
      && forall k :: 0 <= k < |cards| ==>
           && cards[k].photo == ResolvePhoto(people[k].photo, defaultPhoto, fs)
           && cards[k].progress == ProgressLine(stats.created + k, stats.toCreate, cards[k].photo.status,
                                                people[k].fullName, cards[k].photo.message)
  {
    var cards := RunCards(stats, people, defaultPhoto, fs).1;
    forall k | 0 <= k < |cards|
      ensures cards[k].person == people[k]
      ensures cards[k].photo == ResolvePhoto(people[k].photo, defaultPhoto, fs)
      ensures cards[k].progress == ProgressLine(stats.created + k, stats.toCreate, cards[k].photo.status,
                                                people[k].fullName, cards[k].photo.message)
    {
      RunCardsAt(stats, people, defaultPhoto, fs, k);
    }
  }

  /** Making the cards of `a + b` is making those of `a`, then those of `b`
      from the statistics `a` left behind. */
  lemma {:induction false} RunCardsAppend(stats: Stats, a: seq<Person>, b: seq<Person>, defaultPhoto: string, fs: FileSystem)
    ensures var ra := RunCards(stats, a, defaultPhoto, fs);
      var rb := RunCards(ra.0, b, defaultPhoto, fs);
      RunCards(stats, a + b, defaultPhoto, fs) == (rb.0, ra.1 + rb.1)
    decreases |a|
  {
    if a == [] {
      assert a + b == b;
      var rb := RunCards(stats, b, defaultPhoto, fs);
      assert RunCards(stats, a, defaultPhoto, fs) == (stats, []);
      assert [] + rb.1 == rb.1;
    } else {
      var first := MakeCard(stats, a[0], defaultPhoto, fs);
      assert (a + b)[0] == a[0];
      assert (a + b)[1..] == a[1..] + b;
      RunCardsAppend(first.0, a[1..], b, defaultPhoto, fs);
      var ra := RunCards(first.0, a[1..], defaultPhoto, fs);
      var rb := RunCards(ra.0, b, defaultPhoto, fs);
      assert [first.1] + (ra.1 + rb.1) == ([first.1] + ra.1) + rb.1;
    }
  }

  // ---------------------------------------------------------------------
  // Pages

  /** One page: its 1-based number (the `k` of `figure{k}.png`) and its cards. */
  datatype Figure = Figure(index: nat, cards: seq<Card>)

  function AllCards(figures: seq<Figure>): seq<Card> {
    if figures == [] then [] else figures[0].cards + AllCards(figures[1..])
  }

  lemma {:induction false} AllCardsAppend(figures: seq<Figure>, f: Figure)
    ensures AllCards(figures + [f]) == AllCards(figures) + f.cards
  {
    if figures == [] {
      assert figures + [f] == [f];
    } else {
      var g := figures + [f];
      assert g[0] == figures[0];
      assert g[1..] == figures[1..] + [f];
      AllCardsAppend(figures[1..], f);
      calc {
        AllCards(g);
        g[0].cards + AllCards(g[1..]);
        figures[0].cards + (AllCards(figures[1..]) + f.cards);
        (figures[0].cards + AllCards(figures[1..])) + f.cards;
        AllCards(figures) + f.cards;
      }
    }
  }

  /** One round of the page loop extends the run over the rows before it. */
  lemma PageStep(stats0: Stats, people: seq<Person>, start: nat, end: nat, figures: seq<Figure>, stats: Stats,
                 f: Figure, defaultPhoto: string, fs: FileSystem)
    requires start <= end <= |people|
    requires (stats, AllCards(figures)) == RunCards(stats0, people[..start], defaultPhoto, fs)
    requires f.cards == RunCards(stats, people[start..end], defaultPhoto, fs).1
    ensures (RunCards(stats, people[start..end], defaultPhoto, fs).0, AllCards(figures + [f]))
            == RunCards(stats0, people[..end], defaultPhoto, fs)
  {
    RunCardsAppend(stats0, people[..start], people[start..end], defaultPhoto, fs);
    assert people[..start] + people[start..end] == people[..end];
    AllCardsAppend(figures, f);
  }

  /** The cards of one round are for the rows of that page. */
  lemma PageCards(stats: Stats, people: seq<Person>, k: nat, end: nat, defaultPhoto: string, fs: FileSystem)
    requires CardsPerPage * k <= end <= |people|
    requires end == Min(CardsPerPage * k + CardsPerPage, |people|)
    ensures People(RunCards(stats, people[CardsPerPage * k..end], defaultPhoto, fs).1) == PageRows(people, k)
  {
    RunCardsCards(stats, people[CardsPerPage * k..end], defaultPhoto, fs);
  }

  /** Page `k` is numbered `k + 1`, starts inside the rows, and holds the
      cards of exactly the rows of that page. */
  predicate PagesMatch(figures: seq<Figure>, people: seq<Person>) {
    forall k :: 0 <= k < |figures| ==>
      && figures[k].index == k + 1
      && CardsPerPage * k < |people|
      && People(figures[k].cards) == PageRows(people, k)
  }

  lemma PagesMatchAppend(figures: seq<Figure>, people: seq<Person>, f: Figure)
    requires PagesMatch(figures, people)
    requires f.index == |figures| + 1 && CardsPerPage * |figures| < |people|
    requires People(f.cards) == PageRows(people, |figures|)
    ensures PagesMatch(figures + [f], people)
  {
    var g := figures + [f];
    forall k | 0 <= k < |g|
      ensures g[k].index == k + 1 && CardsPerPage * k < |people| && People(g[k].cards) == PageRows(people, k)
    {
      if k < |figures| {
        assert g[k] == figures[k];
      }
    }
  }

  /** The page loop of `_make_figs`: `ceil(n / 4)` rounds, round `i` making
      the cards of rows `[4i, min(4i + 4, n))` into page `i + 1`. Together
      the pages make exactly the cards of all rows in order, with the
      statistics of one run over all of them. */
  method MakeFigs(people: seq<Person>, stats0: Stats, defaultPhoto: string, fs: FileSystem)
    returns (stats: Stats, figures: seq<Figure>)
    ensures (stats, AllCards(figures)) == RunCards(stats0, people, defaultPhoto, fs)
    ensures |figures| == CeilDiv(|people|, CardsPerPage)
    ensures PagesMatch(figures, people)
  {
    var n := |people|;
    var count := CeilDiv(n, CardsPerPage);
    stats := stats0;
    figures := [];
    var start := 0;
    var done := 0;
    var i := 0;
    while i < count
      invariant 0 <= i <= count
      invariant start == CardsPerPage * i
      invariant done == Min(start, n)
      invariant |figures| == i
      invariant PagesMatch(figures, people)
      invariant (stats, AllCards(figures)) == RunCards(stats0, people[..done], defaultPhoto, fs)
    {
      var end := if start + CardsPerPage <= n then start + CardsPerPage else n;
      var made := RunCards(stats, people[start..end], defaultPhoto, fs);
      var f := Figure(i + 1, made.1);
      PageStep(stats0, people, start, end, figures, stats, f, defaultPhoto, fs);
      PageCards(stats, people, i, end, defaultPhoto, fs);
      PagesMatchAppend(figures, people, f);
      figures := figures + [f];
      stats := made.0;
      start := start + CardsPerPage;
      done := end;
      i := i + 1;
    }
    assert people[..n] == people;
  }

  /** `_make_fig_preview`: the cards of the first `min(n, 4)` rows on one page. */
  function PreviewFigure(people: seq<Person>, stats0: Stats, defaultPhoto: string, fs: FileSystem): (r: (Stats, Figure))
    ensures r.0.created == stats0.created + Min(|people|, CardsPerPage)
    ensures r.0.toCreate == stats0.toCreate
    ensures |r.1.cards| == Min(|people|, CardsPerPage)
    ensures People(r.1.cards) == PreviewRows(people)
    ensures r.0.photoWarnings == stats0.photoWarnings + WarnedNames(PreviewRows(people), fs)
    ensures r.1.index == 1
    ensures forall k :: 0 <= k < |r.1.cards| ==>
      var p := PreviewRows(people)[k];
      && r.1.cards[k].photo == ResolvePhoto(p.photo, defaultPhoto, fs)
      && r.1.cards[k].progress == ProgressLine(stats0.created + k, stats0.toCreate, r.1.cards[k].photo.status,
                                               p.fullName, r.1.cards[k].photo.message)
  {
    RunCardsCards(stats0, PreviewRows(people), defaultPhoto, fs);
    RunCardsWarnings(stats0, PreviewRows(people), defaultPhoto, fs);
    var made := RunCards(stats0, PreviewRows(people), defaultPhoto, fs);
    (made.0, Figure(1, made.1))
  }
}
