/** The two entry points: `make_pdf`, which lays every row out on pages of
    four and binds the pages into one PDF, and `make_pdf_preview`, which
    shows the first page only. Both validate their arguments first. */
module Runs {
  import opened Wrappers
  import opened Text
  import opened Sanitizer
  import opened Paginator
  import opened Cards

  /** The ways a run stops before it returns its statistics. */
  datatype RunError =
    | DefaultPhotoNotFound
    | DefaultPhotoUnreadable(path: string)
    | MissingColumns(columns: seq<string>)
      /** `make_pdf` on an empty dataset: no page image exists to open. */
    | NoPageImages
  {
    function Message(): string {
      match this
      case DefaultPhotoNotFound =>
        "No photo exists at the specified default photo path. Please specify a valid path."
      case DefaultPhotoUnreadable(p) =>
        "Could not read the default photo at `" + p + "`. Make sure the photo is of a format supported by PIL."
      case MissingColumns(cs) =>
        "The following columns are not in `people_data`: " + Join(cs, ", ") + ". Please specify valid column names."
      case NoPageImages => "list index out of range"
    }
  }

  /** The columns of `cs` that the dataset lacks, in the order of `cs`. */
  function Missing(cs: seq<string>, columns: seq<string>): (r: seq<string>)
    ensures |r| <= |cs|
    ensures forall c :: c in r <==> c in cs && c !in columns
    ensures r == cs <==> forall c :: c in cs ==> c !in columns
    ensures r == [] <==> forall c :: c in cs ==> c in columns
  {
    if cs == [] then []
    else
      var rest := Missing(cs[1..], columns);
      if cs[0] in columns then
        assert cs[0] !in rest;
        assert forall c :: c in cs <==> c == cs[0] || c in cs[1..];
        rest
      else
        assert cs[0] in [cs[0]] + rest;
        [cs[0]] + rest
  }

  /** Filtering distributes over concatenation: the missing columns keep
      the order of `cs`, and a column named twice is listed twice. */
  lemma {:induction false} MissingAppend(a: seq<string>, b: seq<string>, columns: seq<string>)
    ensures Missing(a + b, columns) == Missing(a, columns) + Missing(b, columns)
    decreases |a|
  {
    if a == [] {
      assert a + b == b;
    } else {
      assert (a + b)[0] == a[0];
      assert (a + b)[1..] == a[1..] + b;
      MissingAppend(a[1..], b, columns);
    }
  }

  /** `[c]` when the dataset lacks column `c`, otherwise nothing. */
  function Absent(c: string, columns: seq<string>): seq<string> {
    if c in columns then [] else [c]
  }

  lemma MissingSingle(c: string, columns: seq<string>)
    ensures Missing([c], columns) == Absent(c, columns)
  {
    assert [c][1..] == [];
  }

  lemma MissingThree(columns: seq<string>, first: string, last: string, photo: string)
    ensures Missing([first, last, photo], columns)
         == Absent(first, columns) + Absent(last, columns) + Absent(photo, columns)
  {
    assert [first, last, photo] == [first] + ([last] + [photo]);
    MissingAppend([first], [last] + [photo], columns);
    MissingAppend([last], [photo], columns);
    MissingSingle(first, columns);
    MissingSingle(last, columns);
    MissingSingle(photo, columns);
  }

  /** The required columns (first name, last name, photo path) that the
      dataset lacks, in that order, each as often as it is named. */
  function MissingRequired(columns: seq<string>, first: string, last: string, photo: string): (r: seq<string>)
    ensures r == [] <==> first in columns && last in columns && photo in columns
    ensures forall c :: c in r <==> (c == first || c == last || c == photo) && c !in columns
    ensures r == Absent(first, columns) + Absent(last, columns) + Absent(photo, columns)
  {
    MissingThree(columns, first, last, photo);
    Missing([first, last, photo], columns)
  }

  lemma JoinThree(a: string, b: string, c: string, sep: string)
    ensures Join([a, b, c], sep) == a + sep + b + sep + c
  {
    var parts := [a, b, c];
    assert parts[1..] == [b, c] && parts[1..][1..] == [c];
    assert Join([c], sep) == c;
    assert Join([b, c], sep) == b + sep + c;
  }

  /** When none of the three required columns exists, the error lists all
      three, comma-separated, in argument order. */
  lemma MissingAllMessage(columns: seq<string>, first: string, last: string, photo: string)
    requires first !in columns && last !in columns && photo !in columns
    ensures MissingColumns(MissingRequired(columns, first, last, photo)).Message()
         == "The following columns are not in `people_data`: " + (first + ", " + last + ", " + photo)
            + ". Please specify valid column names."
  {
    assert MissingRequired(columns, first, last, photo) == [first, last, photo];
    JoinThree(first, last, photo, ", ");
  }

  /** The checks both entry points make before any card, in their order:
      the default photo exists, it can be opened, the required columns exist. */
  function Validate(columns: seq<string>, first: string, last: string, photo: string,
                    defaultPhoto: string, fs: FileSystem): (r: Option<RunError>)
    ensures r == Some(DefaultPhotoNotFound) <==> defaultPhoto !in fs.existing
    ensures r == Some(DefaultPhotoUnreadable(defaultPhoto)) <==>
      defaultPhoto in fs.existing && defaultPhoto !in fs.readable
    ensures r == Some(MissingColumns(MissingRequired(columns, first, last, photo))) <==>
      defaultPhoto in fs.existing && defaultPhoto in fs.readable && MissingRequired(columns, first, last, photo) != []
    ensures r == None <==>
      defaultPhoto in fs.existing && defaultPhoto in fs.readable
      && first in columns && last in columns && photo in columns
  {
    var missing := MissingRequired(columns, first, last, photo);
    if defaultPhoto !in fs.existing then Some(DefaultPhotoNotFound)
    else if defaultPhoto !in fs.readable then Some(DefaultPhotoUnreadable(defaultPhoto))
    else if missing != [] then Some(MissingColumns(missing))
    else None
  }

  /** The person on the card for row `i`, read off the sanitised row. */
  function RowPerson(t: Table, i: nat, first: string, last: string, photo: string): (p: Person)
    requires WellFormed(t) && i < |t.rows|
    requires first in t.columns && last in t.columns && photo in t.columns
    ensures PersonOf(FormatRow(t.columns, t.rows[i], first, last, photo), first, last, photo) == Some(p)
  {
    var rec := FormatRow(t.columns, t.rows[i], first, last, photo);
    FormatRowSpec(t.columns, t.rows[i], first, last, photo);
    PersonOf(rec, first, last, photo).value
  }

  /** Everyone in the dataset, in row order, as the cards see them. */
  function PeopleOf(t: Table, first: string, last: string, photo: string): (r: seq<Person>)
    requires WellFormed(t)
    requires first in t.columns && last in t.columns && photo in t.columns
    ensures |r| == |t.rows|
    ensures forall i :: 0 <= i < |t.rows| ==>
      Some(r[i]) == PersonOf(FormatData(t, first, last, photo).value[i], first, last, photo)
  {
    seq(|t.rows|, i requires 0 <= i < |t.rows| => RowPerson(t, i, first, last, photo))
  }

  /** What a finished run hands back: the statistics, the pages in order,
      and the page images in the order they are bound into the PDF. */
  datatype Report = Report(stats: Stats, figures: seq<Figure>, pdfPages: seq<string>)

  /** `make_pdf`. A dataset without rows gets through validation and the
      page loop but leaves no page image, so binding the PDF fails. */
  method MakePdf(t: Table, first: string, last: string, photo: string, defaultPhoto: string, fs: FileSystem)
    returns (r: Result<Report, RunError>)
    requires WellFormed(t)
    ensures var v := Validate(t.columns, first, last, photo, defaultPhoto, fs);
      && (v.Some? ==> r == Failure(v.value))
      && (v.None? && |t.rows| == 0 ==> r == Failure(NoPageImages))
      && (r.Success? <==> v.None? && |t.rows| > 0)
    ensures r.Success? ==>
      var people := PeopleOf(t, first, last, photo);
      var report := r.value;
      && report.stats == Stats(|t.rows|, |t.rows|, WarnedNames(people, fs))
      && |report.figures| == CeilDiv(|t.rows|, CardsPerPage)
      && PagesMatch(report.figures, people)
      && AllCards(report.figures) == RunCards(Stats(0, |t.rows|, []), people, defaultPhoto, fs).1
      && |report.pdfPages| == |report.figures|
      && forall k :: 0 <= k < |report.figures| ==> report.pdfPages[k] == FigureFileName(report.figures[k].index)
  {
    var v := Validate(t.columns, first, last, photo, defaultPhoto, fs);
    if v.Some? {
      return Failure(v.value);
    }
    assert first in t.columns && last in t.columns && photo in t.columns;
    var n := |t.rows|;
    var people := PeopleOf(t, first, last, photo);
    var stats0 := Stats(0, n, []);
    var stats, figures := MakeFigs(people, stats0, defaultPhoto, fs);
    RunCardsWarnings(stats0, people, defaultPhoto, fs);
    CeilDivClosedForm(n, CardsPerPage);
    if |figures| == 0 {
      return Failure(NoPageImages);
    }
    var pages := PageFileNames(|figures|);
    assert forall k :: 0 <= k < |figures| ==> pages[k] == FigureFileName(figures[k].index);
    r := Success(Report(stats, figures, pages));
  }

  /** `make_pdf_preview`: at most four cards, all on the first page. */
  method MakePdfPreview(t: Table, first: string, last: string, photo: string, defaultPhoto: string, fs: FileSystem)
    returns (r: Result<Report, RunError>)
    requires WellFormed(t)
    ensures var v := Validate(t.columns, first, last, photo, defaultPhoto, fs);
      && (v.Some? ==> r == Failure(v.value))
      && (r.Success? <==> v.None?)
    ensures r.Success? ==>
      var people := PeopleOf(t, first, last, photo);
      var report := r.value;
      var m := Min(|t.rows|, CardsPerPage);
      && report.stats == Stats(m, m, WarnedNames(PreviewRows(people), fs))
      && |report.figures| == 1
      && People(report.figures[0].cards) == PreviewRows(people)
      && AllCards(report.figures) == RunCards(Stats(0, m, []), PreviewRows(people), defaultPhoto, fs).1
      && (forall k :: 0 <= k < m ==>
            var card := report.figures[0].cards[k];
            && card.photo == ResolvePhoto(PreviewRows(people)[k].photo, defaultPhoto, fs)
            && card.progress == ProgressLine(k, m, card.photo.status, PreviewRows(people)[k].fullName, card.photo.message))
      && report.pdfPages == []
  {
    var v := Validate(t.columns, first, last, photo, defaultPhoto, fs);
    if v.Some? {
      return Failure(v.value);
    }
    var people := PeopleOf(t, first, last, photo);
    var m := Min(|t.rows|, CardsPerPage);
    var stats0 := Stats(0, m, []);
    var made := PreviewFigure(people, stats0, defaultPhoto, fs);
    RunCardsWarnings(stats0, PreviewRows(people), defaultPhoto, fs);
    RunCardsCards(stats0, PreviewRows(people), defaultPhoto, fs);
    r := Success(Report(made.0, [made.1], []));
  }
}
