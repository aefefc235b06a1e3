/** Splitting the rows into pages of four cards, and naming the page images
    so that they are reassembled in page order. */
module Paginator {
  import opened Wrappers
  import opened Text

  /** Cards on one page (a 2 x 2 grid of axes). */
  const CardsPerPage: nat := 4

  function Min(a: int, b: int): int {
    if a <= b then a else b
  }

  /** Python's `n // d`: the quotient rounded toward negative infinity. */
  function FloorDiv(n: int, d: int): (q: int)
    requires d != 0
    ensures d > 0 ==> d * q <= n < d * q + d
    ensures d < 0 ==> d * q + d < n <= d * q
  {
    if d > 0 then n / d else (-n) / (-d)
  }

  /** `_ceil_div`: ceiling division as the negated floor division by the
      negated divisor. */
  function CeilDiv(n: int, d: int): (q: int)
    requires d != 0
    ensures d > 0 ==> d * q - d < n <= d * q
  {
    -FloorDiv(n, -d)
  }

  lemma MulStep(d: int, a: int)
    ensures d * (a - 1) == d * a - d
  {
  }

  lemma MulMonotone(d: int, a: int, b: int)
    requires d > 0 && a <= b
    ensures d * a <= d * b
  {
  }

  /** For a count and a positive divisor the floor-division trick agrees
      with the usual integer formula `(n + d - 1) / d`; it is 0 for n = 0. */
  lemma CeilDivClosedForm(n: nat, d: int)
    requires d > 0
    ensures CeilDiv(n, d) == (n + d - 1) / d
    ensures n == 0 ==> CeilDiv(n, d) == 0
  {
    var q := CeilDiv(n, d);
    var p := (n + d - 1) / d;
    assert d * p <= n + d - 1 < d * p + d;
    MulStep(d, p);
    MulStep(d, q);
    assert q >= p by {
      if q < p {
        MulMonotone(d, q, p - 1);
      }
    }
    assert p >= q by {
      if p < q {
        MulMonotone(d, p, q - 1);
      }
    }
  }

  /** The pages of `rows`, front to back: four rows each, the rest on the last. */
  function Paginate<T>(rows: seq<T>): seq<seq<T>>
    decreases |rows|
  {
    if rows == [] then []
    else
      var e := Min(CardsPerPage, |rows|);
      [rows[..e]] + Paginate(rows[e..])
  }

  /** Rows `[4k, min(4k + 4, n))`: what `iloc[start_ind:end_ind]` selects
      in round `k` of the page loop. */
  function PageRows<T>(rows: seq<T>, k: nat): seq<T>
    requires CardsPerPage * k <= |rows|
  {
    rows[CardsPerPage * k .. Min(CardsPerPage * k + CardsPerPage, |rows|)]
  }

  function Flatten<T>(pages: seq<seq<T>>): seq<T> {
    if pages == [] then [] else pages[0] + Flatten(pages[1..])
  }

  /** The page count is `ceil(n / 4)`, so 0 pages for no rows. */
  lemma {:induction false} PaginateCount<T>(rows: seq<T>)
    ensures |Paginate(rows)| == CeilDiv(|rows|, CardsPerPage)
    decreases |rows|
  {
    CeilDivClosedForm(|rows|, CardsPerPage);
    if rows != [] {
      var e := Min(CardsPerPage, |rows|);
      PaginateCount(rows[e..]);
      CeilDivClosedForm(|rows[e..]|, CardsPerPage);
    }
  }

  /** Page `k` holds rows `[4k, min(4k + 4, n))`. */
  lemma {:induction false} PaginatePages<T>(rows: seq<T>)
    ensures forall k :: 0 <= k < |Paginate(rows)| ==>
      CardsPerPage * k < |rows| && Paginate(rows)[k] == PageRows(rows, k)
    decreases |rows|
  {
    if rows != [] {
      var pages := Paginate(rows);
      var e := Min(CardsPerPage, |rows|);
      var rest := rows[e..];
      PaginatePages(rest);
      assert pages == [rows[..e]] + Paginate(rest);
      forall k | 0 <= k < |pages|
        ensures CardsPerPage * k < |rows| && pages[k] == PageRows(rows, k)
      {
        if k > 0 {
          assert pages[k] == Paginate(rest)[k - 1];
          assert e == CardsPerPage;
          assert CardsPerPage * k == CardsPerPage * (k - 1) + CardsPerPage;
          assert rest[CardsPerPage * (k - 1) .. Min(CardsPerPage * (k - 1) + CardsPerPage, |rest|)]
              == rows[CardsPerPage * k .. Min(CardsPerPage * k + CardsPerPage, |rows|)];
        }
      }
    }
  }

  /** Every page but the last holds four rows; the last holds one to four. */
  lemma {:induction false} PaginateSizes<T>(rows: seq<T>)
    ensures var pages := Paginate(rows);
      && (forall k :: 0 <= k < |pages| - 1 ==> |pages[k]| == CardsPerPage)
      && (|pages| > 0 ==> 1 <= |pages[|pages| - 1]| <= CardsPerPage)
    decreases |rows|
  {
    if rows != [] {
      var pages := Paginate(rows);
      var e := Min(CardsPerPage, |rows|);
      var rest := rows[e..];
      PaginateSizes(rest);
      assert pages == [rows[..e]] + Paginate(rest);
      if rest != [] {
        assert e == CardsPerPage;
        assert forall k :: 1 <= k < |pages| ==> pages[k] == Paginate(rest)[k - 1];
      }
    }
  }

  /** Putting the pages back together gives the rows in their original order. */
  lemma {:induction false} PaginateFlatten<T>(rows: seq<T>)
    ensures Flatten(Paginate(rows)) == rows
    decreases |rows|
  {
    if rows != [] {
      var e := Min(CardsPerPage, |rows|);
      PaginateFlatten(rows[e..]);
      assert Paginate(rows)[1..] == Paginate(rows[e..]);
      assert rows[..e] + rows[e..] == rows;
    }
  }

  /** The rows shown by the preview: the first `min(n, 4)`, which is the
      first page when there is one. */
  function PreviewRows<T>(rows: seq<T>): (r: seq<T>)
    ensures |r| == Min(|rows|, CardsPerPage) && r == rows[..|r|]
    ensures rows != [] ==> r == Paginate(rows)[0]
  {
    rows[..Min(|rows|, CardsPerPage)]
  }

  // ---------------------------------------------------------------------
  // Page image names

  /** `figure{k}.png`, the file the `k`-th page (1-based) is saved to. */
  function FigureFileName(k: nat): string {
    "figure" + Decimal(k) + ".png"
  }

  /** The integer the program sorts page images by: the digits between
      `figure` and `.png`. */
  function FigureIndex(name: string): Option<nat> {
    if |name| > 10 && name[..6] == "figure" && name[|name| - 4..] == ".png"
       && AllDigits(name[6..|name| - 4])
    then Some(ParseDecimal(name[6..|name| - 4]))
    else None
  }

  /** The sort key read back from a page image's name is its page number. */
  lemma FigureIndexOfName(k: nat)
    ensures FigureIndex(FigureFileName(k)) == Some(k)
  {
    var name := FigureFileName(k);
    var d := Decimal(k);
    assert name[..6] == "figure";
    assert name[|name| - 4..] == ".png";
    assert name[6..|name| - 4] == d;
    ParseDecimalOfDecimal(k);
  }

  /** The names of the page images of a run with `n` pages, in page order. */
  function PageFileNames(n: nat): (r: seq<string>)
    ensures |r| == n && forall k :: 0 <= k < n ==> r[k] == FigureFileName(k + 1)
  {
    seq(n, k requires 0 <= k < n => FigureFileName(k + 1))
  }

  /** Keys strictly increasing along `names`. */
  predicate SortedByIndex(names: seq<string>) {
    && (forall j :: 0 <= j < |names| ==> FigureIndex(names[j]).Some?)
    && (forall i, j :: 0 <= i < j < |names| ==> FigureIndex(names[i]).value < FigureIndex(names[j]).value)
  }

  lemma {:induction false} IncreasingGap(ks: seq<int>, i: nat, j: nat)
    requires forall a, b :: 0 <= a < b < |ks| ==> ks[a] < ks[b]
    requires i <= j < |ks|
    ensures ks[j] - ks[i] >= j - i
    decreases j - i
  {
    if i < j {
      IncreasingGap(ks, i + 1, j);
    }
  }

  /** Sorting the `n` page images by their integer key puts them in page
      order: any arrangement of them with increasing keys is exactly
      `figure1.png, ..., figure{n}.png`. */
  lemma SortedNamesArePageOrder(names: seq<string>, n: nat)
    requires |names| == n
    requires forall j :: 0 <= j < n ==> names[j] in PageFileNames(n)
    requires SortedByIndex(names)
    ensures names == PageFileNames(n)
  {
    var pages := PageFileNames(n);
    var ks := seq(n, j requires 0 <= j < n => FigureIndex(names[j]).value);
    forall j | 0 <= j < n
      ensures 1 <= ks[j] <= n && names[j] == FigureFileName(ks[j])
    {
      var m :| 0 <= m < n && pages[m] == names[j];
      FigureIndexOfName(m + 1);
    }
    forall j | 0 <= j < n
      ensures names[j] == pages[j]
    {
      IncreasingGap(ks, 0, j);
      IncreasingGap(ks, j, n - 1);
      assert ks[j] == j + 1;
    }
  }

  /** Python's `<` on strings: lexicographic by code point. */
  predicate LexLess(a: string, b: string) {
    if a == [] then b != []
    else if b == [] then false
    else if a[0] != b[0] then a[0] < b[0]
    else LexLess(a[1..], b[1..])
  }

  /** An illustration of why the page images are ordered by their number
      (`SortedNamesArePageOrder`) rather than as strings: as strings,
      page 10 would come before page 2. */
  lemma LexicographicOrderIsNotPageOrder()
    ensures LexLess(FigureFileName(10), FigureFileName(2))
  {
    assert Decimal(10) == "10";
    assert Decimal(2) == "2";
    assert FigureFileName(10) == "figure10.png";
    assert FigureFileName(2) == "figure2.png";
  }
}
