/** The description text of a card: one bold `name: value` line per custom
    column with a non-empty value. */
module Description {
  import opened Wrappers
  import opened Text
  import opened Sanitizer

  /** `$<name>:$ <value>`: the dollars make the column name bold mathtext. */
  function Entry(f: Field): string {
    "$" + f.name + ":$ " + f.value
  }

  /** The labels the description leaves out. */
  function Excluded(first: string, last: string, photo: string): seq<string> {
    [FullNameLabel, first, last, photo]
  }

  /** The fields that make it into the description, in column order: label
      not excluded and value not empty. */
  function Kept(rec: Record, excluded: seq<string>): (k: Record)
    ensures |k| <= |rec|
    ensures forall f :: f in k <==> f in rec && f.name !in excluded && f.value != ""
  {
    if rec == [] then []
    else
      assert rec == [rec[0]] + rec[1..];
      (if rec[0].name !in excluded && rec[0].value != "" then [rec[0]] else []) + Kept(rec[1..], excluded)
  }

  /** Keeping commutes with concatenation, so kept fields stay in column order. */
  lemma {:induction false} KeptAppend(a: Record, b: Record, excluded: seq<string>)
    ensures Kept(a + b, excluded) == Kept(a, excluded) + Kept(b, excluded)
  {
    if a == [] {
      assert a + b == b;
    } else {
      assert (a + b)[0] == a[0];
      assert (a + b)[1..] == a[1..] + b;
      KeptAppend(a[1..], b, excluded);
    }
  }

  function Entries(rec: Record, excluded: seq<string>): (r: seq<string>)
    ensures |r| == |Kept(rec, excluded)|
    ensures forall i :: 0 <= i < |r| ==> r[i] == Entry(Kept(rec, excluded)[i])
  {
    var k := Kept(rec, excluded);
    seq(|k|, i requires 0 <= i < |k| => Entry(k[i]))
  }

  /** Python's `_get_description_string_from_row`: `None` where `row.drop`
      raises a KeyError because one of the four excluded labels is absent. */
  function DescriptionOf(rec: Record, first: string, last: string, photo: string): (r: Option<string>)
    ensures r.Some? <==> forall x :: x in Excluded(first, last, photo) ==> x in Labels(rec)
  {
    if forall x :: x in Excluded(first, last, photo) ==> x in Labels(rec) then
      Some(Join(Entries(rec, Excluded(first, last, photo)), "\n"))
    else None
  }

  /** The description is empty exactly when no field is kept; otherwise it
      starts with the `$` of the first entry (no leading newline). */
  lemma DescriptionEmpty(rec: Record, first: string, last: string, photo: string)
    requires DescriptionOf(rec, first, last, photo).Some?
    ensures var d := DescriptionOf(rec, first, last, photo).value;
      && (d == "" <==> forall f :: f in rec ==> f.name in Excluded(first, last, photo) || f.value == "")
      && (d != "" ==> d[0] == '$')
  {
    var ex := Excluded(first, last, photo);
    var es := Entries(rec, ex);
    JoinEmpty(es, "\n");
    if es != [] {
      JoinStartsWithFirst(es, "\n");
      assert Kept(rec, ex)[0] in Kept(rec, ex);
    } else {
      assert Kept(rec, ex) == [];
    }
  }

  lemma {:induction false} JoinStartsWithFirst(parts: seq<string>, sep: string)
    requires |parts| >= 1 && parts[0] != []
    ensures |Join(parts, sep)| >= 1 && Join(parts, sep)[0] == parts[0][0]
  {
  }

  /** Splitting the description on newlines gives back exactly one entry per
      kept field, in column order, provided no kept name or value contains a
      newline itself. */
  lemma DescriptionLines(rec: Record, first: string, last: string, photo: string)
    requires DescriptionOf(rec, first, last, photo).Some?
    requires forall f :: f in rec ==> '\n' !in f.name && '\n' !in f.value
    requires Kept(rec, Excluded(first, last, photo)) != []
    ensures Split(DescriptionOf(rec, first, last, photo).value, '\n')
         == Entries(rec, Excluded(first, last, photo))
  {
    var ex := Excluded(first, last, photo);
    var es := Entries(rec, ex);
    forall i | 0 <= i < |es| ensures '\n' !in es[i] {
      var f := Kept(rec, ex)[i];
      assert f in Kept(rec, ex);
      assert es[i] == "$" + f.name + ":$ " + f.value;
    }
    SplitJoin(es, '\n');
  }
}
