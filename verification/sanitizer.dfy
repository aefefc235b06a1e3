/** The dataset sanitiser: trims every cell, derives the "Full Name" column
    and makes custom column names and values safe for bold mathtext. */
module Sanitizer {
  import opened Wrappers
  import opened Text

  /** Label of the derived column holding `first + " " + last`, trimmed. */
  const FullNameLabel: string := "Full Name"

  /** Characters deleted from custom column names, in the program's order. */
  const Forbidden: seq<char> := ['~', '^', '\\']

  /** Characters given a backslash in custom column names, in the program's order. */
  const Special: seq<char> := [' ', '#', '$', '%', '_', '{', '}']

  // ---------------------------------------------------------------------
  // Column names, as written: one `str.replace` per character

  /** Deletes the characters of `cs` one after another. */
  function DeleteEach(s: string, cs: seq<char>): string
    decreases |cs|
  {
    if cs == [] then s else DeleteEach(ReplaceChar(s, cs[0], ""), cs[1..])
  }

  /** Puts a backslash before the characters of `cs`, one character after another. */
  function PrefixEach(s: string, cs: seq<char>): string
    decreases |cs|
  {
    if cs == [] then s else PrefixEach(ReplaceChar(s, cs[0], ['\\', cs[0]]), cs[1..])
  }

  /** The mathtext-safe name of a custom column: strip, delete the
      forbidden characters, then escape the special ones. */
  function FormatColumnName(col: string): string {
    PrefixEach(DeleteEach(Trim(col), Forbidden), Special)
  }

  // ---------------------------------------------------------------------
  // Column names, single-pass reference definitions

  /** `s` without the characters of `cs`. */
  function Remove(s: string, cs: seq<char>): string {
    if s == [] then [] else (if s[0] in cs then [] else [s[0]]) + Remove(s[1..], cs)
  }

  /** `s` with a backslash before every character of `cs`. */
  function Escape(s: string, cs: seq<char>): string {
    if s == [] then [] else (if s[0] in cs then ['\\', s[0]] else [s[0]]) + Escape(s[1..], cs)
  }

  /** Drops every backslash that escapes the character after it. */
  function Unescape(r: string): string {
    if |r| >= 2 && r[0] == '\\' then [r[1]] + Unescape(r[2..])
    else if r == [] then []
    else [r[0]] + Unescape(r[1..])
  }

  /** Removal keeps only characters of `s` outside `cs`. */
  lemma {:induction false} RemoveExcludes(s: string, cs: seq<char>)
    ensures forall x :: x in Remove(s, cs) ==> x in s && x !in cs
  {
    if s != [] {
      RemoveExcludes(s[1..], cs);
      assert Remove(s, cs) == (if s[0] in cs then [] else [s[0]]) + Remove(s[1..], cs);
    }
  }

  lemma {:induction false} RemoveAppend(a: string, b: string, cs: seq<char>)
    ensures Remove(a + b, cs) == Remove(a, cs) + Remove(b, cs)
  {
    if a == [] {
      assert a + b == b;
    } else {
      var head := if a[0] in cs then [] else [a[0]];
      assert (a + b)[0] == a[0];
      assert (a + b)[1..] == a[1..] + b;
      RemoveAppend(a[1..], b, cs);
      calc {
        Remove(a + b, cs);
        head + Remove(a[1..] + b, cs);
        head + (Remove(a[1..], cs) + Remove(b, cs));
        (head + Remove(a[1..], cs)) + Remove(b, cs);
        Remove(a, cs) + Remove(b, cs);
      }
    }
  }

  lemma {:induction false} DeleteCharIsRemove(s: string, c: char)
    ensures ReplaceChar(s, c, "") == Remove(s, [c])
  {
    if s != [] {
      DeleteCharIsRemove(s[1..], c);
    }
  }

  lemma {:induction false} RemoveRemove(s: string, c: char, cs: seq<char>)
    ensures Remove(Remove(s, [c]), cs) == Remove(s, [c] + cs)
  {
    if s != [] {
      RemoveRemove(s[1..], c, cs);
      RemoveAppend(if s[0] in [c] then [] else [s[0]], Remove(s[1..], [c]), cs);
    }
  }

  /** Deleting the characters one at a time deletes all of them at once. */
  lemma {:induction false} DeleteEachIsRemove(s: string, cs: seq<char>)
    ensures DeleteEach(s, cs) == Remove(s, cs)
    decreases |cs|
  {
    if cs == [] {
      RemoveNothing(s);
    } else {
      DeleteCharIsRemove(s, cs[0]);
      DeleteEachIsRemove(ReplaceChar(s, cs[0], ""), cs[1..]);
      RemoveRemove(s, cs[0], cs[1..]);
      assert [cs[0]] + cs[1..] == cs;
    }
  }

  lemma {:induction false} RemoveNothing(s: string)
    ensures Remove(s, []) == s
  {
    if s != [] {
      RemoveNothing(s[1..]);
      assert [s[0]] + s[1..] == s;
    }
  }

  lemma {:induction false} EscapeAppend(a: string, b: string, cs: seq<char>)
    ensures Escape(a + b, cs) == Escape(a, cs) + Escape(b, cs)
  {
    if a == [] {
      assert a + b == b;
    } else {
      var head := if a[0] in cs then ['\\', a[0]] else [a[0]];
      assert (a + b)[0] == a[0];
      assert (a + b)[1..] == a[1..] + b;
      EscapeAppend(a[1..], b, cs);
      calc {
        Escape(a + b, cs);
        head + Escape(a[1..] + b, cs);
        head + (Escape(a[1..], cs) + Escape(b, cs));
        (head + Escape(a[1..], cs)) + Escape(b, cs);
        Escape(a, cs) + Escape(b, cs);
      }
    }
  }

  lemma {:induction false} EscapeNothing(s: string)
    ensures Escape(s, []) == s
  {
    if s != [] {
      EscapeNothing(s[1..]);
      assert [s[0]] + s[1..] == s;
    }
  }

  lemma {:induction false} PrefixCharIsEscape(s: string, c: char)
    ensures ReplaceChar(s, c, ['\\', c]) == Escape(s, [c])
  {
    if s != [] {
      PrefixCharIsEscape(s[1..], c);
    }
  }

  /** Escaping `c` first and then the characters of `cs` is escaping all of
      them in one pass, provided a backslash or a `c` inserted by the first
      pass is not escaped again. */
  lemma {:induction false} EscapeEscape(s: string, c: char, cs: seq<char>)
    requires c !in cs && '\\' !in cs
    ensures Escape(Escape(s, [c]), cs) == Escape(s, [c] + cs)
  {
    if s != [] {
      var head := if s[0] in [c] then ['\\', s[0]] else [s[0]];
      EscapeAppend(head, Escape(s[1..], [c]), cs);
      EscapeEscape(s[1..], c, cs);
      if s[0] == c {
        assert Escape(head, cs) == ['\\'] + Escape([s[0]], cs) by {
          assert head[1..] == [s[0]];
        }
      }
    }
  }

  /** Prefixing the characters one at a time is one escaping pass, when the
      characters are distinct and do not include the backslash itself. */
  lemma {:induction false} PrefixEachIsEscape(s: string, cs: seq<char>)
    requires forall i, j :: 0 <= i < j < |cs| ==> cs[i] != cs[j]
    requires '\\' !in cs
    ensures PrefixEach(s, cs) == Escape(s, cs)
    decreases |cs|
  {
    if cs == [] {
      EscapeNothing(s);
    } else {
      PrefixCharIsEscape(s, cs[0]);
      PrefixEachIsEscape(ReplaceChar(s, cs[0], ['\\', cs[0]]), cs[1..]);
      assert cs[0] !in cs[1..] by {
        forall j | 0 <= j < |cs[1..]| ensures cs[1..][j] != cs[0] {
          assert cs[1..][j] == cs[j + 1];
        }
      }
      EscapeEscape(s, cs[0], cs[1..]);
      assert [cs[0]] + cs[1..] == cs;
    }
  }

  /** The program's chain of replacements equals the single-pass reference. */
  lemma FormatColumnNameOnePass(col: string)
    ensures FormatColumnName(col) == Escape(Remove(Trim(col), Forbidden), Special)
  {
    var t := Trim(col);
    DeleteEachIsRemove(t, Forbidden);
    SpecialDistinct();
    PrefixEachIsEscape(Remove(t, Forbidden), Special);
  }

  lemma SpecialDistinct()
    ensures forall i, j :: 0 <= i < j < |Special| ==> Special[i] != Special[j]
    ensures '\\' !in Special
  {
  }

  lemma {:induction false} UnescapeEscape(t: string, cs: seq<char>)
    requires '\\' !in t
    ensures Unescape(Escape(t, cs)) == t
  {
    if t != [] {
      var head := if t[0] in cs then ['\\', t[0]] else [t[0]];
      UnescapeEscape(t[1..], cs);
      assert Escape(t, cs) == head + Escape(t[1..], cs);
      if t[0] in cs {
        assert (head + Escape(t[1..], cs))[2..] == Escape(t[1..], cs);
      } else {
        assert (head + Escape(t[1..], cs))[1..] == Escape(t[1..], cs);
      }
      assert [t[0]] + t[1..] == t;
    }
  }

  /** Every backslash in `r` is followed by a character of `cs`. */
  predicate BackslashesEscape(r: string, cs: seq<char>) {
    forall i :: 0 <= i < |r| && r[i] == '\\' ==> i + 1 < |r| && r[i + 1] in cs
  }

  /** Every character of `cs` in `r` comes right after a backslash. */
  predicate SpecialsEscaped(r: string, cs: seq<char>) {
    forall i :: 0 <= i < |r| && r[i] in cs ==> i > 0 && r[i - 1] == '\\'
  }

  /** In an escaped backslash-free string every backslash escapes a character
      of `cs`, every character of `cs` is escaped, and no new character other
      than the backslash appears. */
  lemma {:induction false} EscapeShape(t: string, cs: seq<char>)
    requires '\\' !in t && '\\' !in cs
    ensures BackslashesEscape(Escape(t, cs), cs)
    ensures SpecialsEscaped(Escape(t, cs), cs)
    ensures forall x :: x in Escape(t, cs) ==> x in t || x == '\\'
  {
    if t != [] {
      EscapeShape(t[1..], cs);
      var tail := Escape(t[1..], cs);
      var r := Escape(t, cs);
      if t[0] in cs {
        assert r == ['\\', t[0]] + tail;
        forall i | 0 <= i < |r| && r[i] == '\\'
          ensures i + 1 < |r| && r[i + 1] in cs
        {
          if i >= 2 {
            assert tail[i - 2] == '\\';
            assert r[i + 1] == tail[i - 1];
          }
        }
        forall i | 0 <= i < |r| && r[i] in cs
          ensures i > 0 && r[i - 1] == '\\'
        {
          if i >= 2 {
            assert tail[i - 2] in cs;
            if i >= 3 {
              assert r[i - 1] == tail[i - 3];
            }
          }
        }
      } else {
        assert r == [t[0]] + tail;
        forall i | 0 <= i < |r| && r[i] == '\\'
          ensures i + 1 < |r| && r[i + 1] in cs
        {
          assert tail[i - 1] == '\\';
          assert r[i + 1] == tail[i];
        }
        forall i | 0 <= i < |r| && r[i] in cs
          ensures i > 0 && r[i - 1] == '\\'
        {
          assert tail[i - 1] in cs;
          assert i - 1 > 0;
          assert r[i - 1] == tail[i - 2];
        }
      }
    }
  }

  /** The properties of a sanitised custom column name: no `~` or `^`, every
      backslash escapes one of the seven special characters, every special
      character is escaped, and dropping the escaping backslashes gives the
      stripped name with the forbidden characters deleted. */
  lemma FormatColumnNameSpec(col: string)
    ensures var r := FormatColumnName(col);
      && '~' !in r && '^' !in r
      && BackslashesEscape(r, Special)
      && SpecialsEscaped(r, Special)
      && Unescape(r) == Remove(Trim(col), Forbidden)
  {
    var t0 := Trim(col);
    var t := Remove(t0, Forbidden);
    FormatColumnNameOnePass(col);
    RemoveExcludes(t0, Forbidden);
    ForbiddenFacts();
    assert '~' !in t && '^' !in t && '\\' !in t;
    SpecialDistinct();
    EscapeShape(t, Special);
    UnescapeEscape(t, Special);
  }

  lemma ForbiddenFacts()
    ensures '~' in Forbidden && '^' in Forbidden && '\\' in Forbidden
  {
  }

  // ---------------------------------------------------------------------
  // Custom column values

  /** A custom column's value with every `$` escaped as `\$`. */
  function EscapeDollars(v: string): string {
    ReplaceChar(v, '$', "\\$")
  }

  /** Turns every `\$` back into `$`, scanning left to right. */
  function UnescapeDollars(r: string): string {
    if |r| >= 2 && r[0] == '\\' && r[1] == '$' then ['$'] + UnescapeDollars(r[2..])
    else if r == [] then []
    else [r[0]] + UnescapeDollars(r[1..])
  }

  /** Escaping dollars inserts exactly one backslash per `$`, changes nothing
      else (unescaping gives the value back), and leaves no bare `$`. */
  lemma {:induction false} EscapeDollarsSpec(v: string)
    ensures var r := EscapeDollars(v);
      && |r| == |v| + Count(v, '$')
      && Count(r, '$') == Count(v, '$')
      && UnescapeDollars(r) == v
      && (forall i :: 0 <= i < |r| && r[i] == '$' ==> i > 0 && r[i - 1] == '\\')
      && (r != [] ==> r[0] != '$')
  {
    if v != [] {
      EscapeDollarsSpec(v[1..]);
      var tail := EscapeDollars(v[1..]);
      var r := EscapeDollars(v);
      if v[0] == '$' {
        assert r == ['\\', '$'] + tail;
        assert r[2..] == tail;
        assert Count(r, '$') == Count(r[1..], '$') by { assert r[1..] == ['$'] + tail; }
        forall i | 0 <= i < |r| && r[i] == '$'
          ensures i > 0 && r[i - 1] == '\\'
        {
          if i >= 2 {
            assert r[i] == tail[i - 2];
            assert r[i - 1] == tail[i - 3];
          }
        }
      } else {
        assert r == [v[0]] + tail;
        assert r[1..] == tail;
        forall i | 0 <= i < |r| && r[i] == '$'
          ensures i > 0 && r[i - 1] == '\\'
        {
          assert tail[i - 1] == '$';
          assert i - 1 > 0;
          assert r[i - 1] == tail[i - 2];
        }
      }
      assert [v[0]] + v[1..] == v;
    }
  }

  /** Escaping is not idempotent: escaping an escaped value that holds a `$`
      changes it again (each `\$` becomes `\\$`). */
  lemma EscapeDollarsNotIdempotent(v: string)
    requires '$' in v
    ensures EscapeDollars(EscapeDollars(v)) != EscapeDollars(v)
  {
    EscapeDollarsSpec(v);
    EscapeDollarsSpec(EscapeDollars(v));
    CountPositive(v, '$');
  }

  lemma {:induction false} CountPositive(s: string, c: char)
    requires c in s
    ensures Count(s, c) > 0
  {
    if s[0] != c {
      CountPositive(s[1..], c);
    }
  }

  // ---------------------------------------------------------------------
  // The dataset

  /** One column of a record: its (possibly sanitised) label and its value. */
  datatype Field = Field(name: string, value: string)

  /** One row of the sanitised dataset, in column order. */
  type Record = seq<Field>

  /** The input dataset: column labels and, per row, one cell per column;
      `None` is a null cell. */
  datatype Table = Table(columns: seq<string>, rows: seq<seq<Option<string>>>)

  predicate Distinct(s: seq<string>) {
    forall i, j :: 0 <= i < j < |s| ==> s[i] != s[j]
  }

  predicate WellFormed(t: Table) {
    && Distinct(t.columns)
    && forall i :: 0 <= i < |t.rows| ==> |t.rows[i]| == |t.columns|
  }

  function Labels(rec: Record): (r: seq<string>)
    ensures |r| == |rec| && forall i :: 0 <= i < |rec| ==> r[i] == rec[i].name
  {
    seq(|rec|, i requires 0 <= i < |rec| => rec[i].name)
  }

  /** A cell as text: null becomes the empty string, then it is stripped. */
  function CellText(v: Option<string>): string {
    Trim(v.GetOr(""))
  }

  /** `first + " " + last`, stripped. */
  function FullName(first: string, last: string): string {
    Trim(first + " " + last)
  }

  /** On stripped names the full name is the two names joined by one space;
      when either is empty it is the other one alone. */
  lemma FullNameOfTrimmed(first: string, last: string)
    requires IsTrimmed(first) && IsTrimmed(last)
    ensures first != [] && last != [] ==> FullName(first, last) == first + " " + last
    ensures first == [] ==> FullName(first, last) == last
    ensures last == [] ==> FullName(first, last) == first
  {
    var s := first + " " + last;
    assert IsWhitespace(' ');
    if first != [] && last != [] {
      assert s[0] == first[0] && s[|s| - 1] == last[|last| - 1];
      TrimUnchanged(s);
    } else if first == [] {
      assert s == [' '] + last;
      TrimLeadingWhitespace(' ', last);
      TrimUnchanged(last);
    } else {
      assert s == first + [' '];
      TrimTrailingWhitespace(first, ' ');
      TrimUnchanged(first);
    }
  }

  predicate IsDistinguished(col: string, first: string, last: string, photo: string) {
    col == FullNameLabel || col == first || col == last || col == photo
  }

  function IndexOf(s: seq<string>, x: string): (i: nat)
    requires x in s
    ensures i < |s| && s[i] == x && x !in s[..i]
  {
    if s[0] == x then 0 else 1 + IndexOf(s[1..], x)
  }

  /** The columns after the "Full Name" assignment: an existing column of
      that name is overwritten in place, otherwise one is appended. */
  function Schema(columns: seq<string>): (r: seq<string>)
    ensures FullNameLabel in r && columns <= r
    ensures |r| == |columns| + (if FullNameLabel in columns then 0 else 1)
  {
    if FullNameLabel in columns then columns else columns + [FullNameLabel]
  }

  /** The label a column gets: distinguished columns keep theirs. */
  function SanitizeLabel(col: string, first: string, last: string, photo: string): string {
    if IsDistinguished(col, first, last, photo) then col else FormatColumnName(col)
  }

  /** The full name of a row: its stripped first and last names joined. */
  function RowFullName(columns: seq<string>, row: seq<Option<string>>, first: string, last: string): string
    requires |row| == |columns| && first in columns && last in columns
  {
    FullName(CellText(row[IndexOf(columns, first)]), CellText(row[IndexOf(columns, last)]))
  }

  /** The stripped cells of a row laid out on `Schema(columns)`, with the
      full name in the "Full Name" slot. */
  function RowValues(columns: seq<string>, row: seq<Option<string>>, first: string, last: string): (v: seq<string>)
    requires |row| == |columns| && first in columns && last in columns
    ensures |v| == |Schema(columns)|
    ensures forall j :: 0 <= j < |columns| && columns[j] != FullNameLabel ==> v[j] == CellText(row[j])
    ensures v[IndexOf(Schema(columns), FullNameLabel)] == RowFullName(columns, row, first, last)
  {
    var cells := seq(|row|, j requires 0 <= j < |row| => CellText(row[j]));
    var full := RowFullName(columns, row, first, last);
    if FullNameLabel in columns then cells[IndexOf(columns, FullNameLabel) := full]
    else
      assert Schema(columns)[..|columns|] == columns;
      cells + [full]
  }

  /** A column of a row after sanitising: distinguished columns are passed
      through, custom columns get a formatted name and dollar-escaped value. */
  function SanitizeField(col: string, value: string, first: string, last: string, photo: string): (f: Field)
    ensures f.name == SanitizeLabel(col, first, last, photo)
  {
    if IsDistinguished(col, first, last, photo) then Field(col, value)
    else Field(FormatColumnName(col), EscapeDollars(value))
  }

  /** One sanitised row. */
  function FormatRow(columns: seq<string>, row: seq<Option<string>>,
                     first: string, last: string, photo: string): (r: Record)
    requires |row| == |columns| && first in columns && last in columns
    ensures |r| == |Schema(columns)|
  {
    var schema := Schema(columns);
    var values := RowValues(columns, row, first, last);
    seq(|schema|, j requires 0 <= j < |schema| => SanitizeField(schema[j], values[j], first, last, photo))
  }

  /** Field `j` of a sanitised row is column `j` of the schema, sanitised
      with value `j` of the row. */
  lemma FormatRowFields(columns: seq<string>, row: seq<Option<string>>,
                        first: string, last: string, photo: string)
    requires |row| == |columns| && first in columns && last in columns
    ensures var r := FormatRow(columns, row, first, last, photo);
      var schema := Schema(columns);
      var values := RowValues(columns, row, first, last);
      forall j :: 0 <= j < |r| ==> r[j] == SanitizeField(schema[j], values[j], first, last, photo)
  {
  }

  /** The labels of a sanitised row are the sanitised schema. */
  lemma FormatRowLabels(columns: seq<string>, row: seq<Option<string>>,
                        first: string, last: string, photo: string)
    requires |row| == |columns| && first in columns && last in columns
    ensures var r := FormatRow(columns, row, first, last, photo);
      forall j :: 0 <= j < |r| ==> r[j].name == SanitizeLabel(Schema(columns)[j], first, last, photo)
  {
    FormatRowFields(columns, row, first, last, photo);
  }

  /** An original column keeps its stripped value, dollar-escaped when it
      is a custom column. */
  lemma FormatRowValues(columns: seq<string>, row: seq<Option<string>>,
                        first: string, last: string, photo: string)
    requires |row| == |columns| && first in columns && last in columns
    ensures var r := FormatRow(columns, row, first, last, photo);
      forall j :: 0 <= j < |columns| && columns[j] != FullNameLabel ==>
        r[j].value == (if IsDistinguished(columns[j], first, last, photo)
                       then CellText(row[j]) else EscapeDollars(CellText(row[j])))
  {
    var r := FormatRow(columns, row, first, last, photo);
    var schema := Schema(columns);
    var values := RowValues(columns, row, first, last);
    FormatRowFields(columns, row, first, last, photo);
    forall j | 0 <= j < |columns| && columns[j] != FullNameLabel
      ensures r[j].value == (if IsDistinguished(columns[j], first, last, photo)
                             then CellText(row[j]) else EscapeDollars(CellText(row[j])))
    {
      assert schema[j] == columns[j];
      assert values[j] == CellText(row[j]);
    }
  }

  /** The "Full Name" slot holds the full name, under its own label. */
  lemma FormatRowFullName(columns: seq<string>, row: seq<Option<string>>,
                          first: string, last: string, photo: string)
    requires |row| == |columns| && first in columns && last in columns
    ensures var r := FormatRow(columns, row, first, last, photo);
      r[IndexOf(Schema(columns), FullNameLabel)] == Field(FullNameLabel, RowFullName(columns, row, first, last))
  {
    FormatRowFields(columns, row, first, last, photo);
  }

  /** The four distinguished labels survive sanitising (the photo label
      when the column exists). */
  lemma FormatRowLabelsPresent(columns: seq<string>, row: seq<Option<string>>,
                               first: string, last: string, photo: string)
    requires |row| == |columns| && first in columns && last in columns
    ensures var r := FormatRow(columns, row, first, last, photo);
      && FullNameLabel in Labels(r) && first in Labels(r) && last in Labels(r)
      && (photo in columns ==> photo in Labels(r))
  {
    var r := FormatRow(columns, row, first, last, photo);
    var schema := Schema(columns);
    FormatRowLabels(columns, row, first, last, photo);
    LabelPresent(r, schema, first, first, last, photo);
    LabelPresent(r, schema, last, first, last, photo);
    LabelPresent(r, schema, FullNameLabel, first, last, photo);
    LabelPresent(r, schema, photo, first, last, photo);
  }

  /** What a sanitised row holds: the labels are the sanitised schema; a
      distinguished column keeps its stripped value; a custom column's value
      is stripped and dollar-escaped; the "Full Name" slot holds the full
      name; and the four distinguished labels are all present. */
  lemma FormatRowSpec(columns: seq<string>, row: seq<Option<string>>,
                      first: string, last: string, photo: string)
    requires |row| == |columns| && first in columns && last in columns
    ensures var r := FormatRow(columns, row, first, last, photo);
      && (forall j :: 0 <= j < |r| ==> r[j].name == SanitizeLabel(Schema(columns)[j], first, last, photo))
      && (forall j :: 0 <= j < |columns| && columns[j] != FullNameLabel ==>
            r[j].value == (if IsDistinguished(columns[j], first, last, photo)
                           then CellText(row[j]) else EscapeDollars(CellText(row[j]))))
      && r[IndexOf(Schema(columns), FullNameLabel)] == Field(FullNameLabel, RowFullName(columns, row, first, last))
      && FullNameLabel in Labels(r) && first in Labels(r) && last in Labels(r)
      && (photo in columns ==> photo in Labels(r))
  {
    FormatRowLabels(columns, row, first, last, photo);
    FormatRowValues(columns, row, first, last, photo);
    FormatRowFullName(columns, row, first, last, photo);
    FormatRowLabelsPresent(columns, row, first, last, photo);
  }

  /** A distinguished column keeps its label, so it is still present. */
  lemma LabelPresent(r: Record, schema: seq<string>, x: string, first: string, last: string, photo: string)
    requires |r| == |schema| && IsDistinguished(x, first, last, photo)
    requires forall j :: 0 <= j < |schema| ==> r[j].name == SanitizeLabel(schema[j], first, last, photo)
    ensures x in schema ==> x in Labels(r)
  {
    if x in schema {
      var j := IndexOf(schema, x);
      assert Labels(r)[j] == x;
    }
  }

  /** Python's `_format_data_and_derive_full_names`: `None` where the
      program raises a KeyError because the first- or last-name column is
      absent. */
  function FormatData(t: Table, first: string, last: string, photo: string): (r: Option<seq<Record>>)
    requires WellFormed(t)
    ensures r.Some? <==> first in t.columns && last in t.columns
    ensures r.Some? ==> |r.value| == |t.rows|
    ensures r.Some? ==> forall i :: 0 <= i < |t.rows| ==>
      r.value[i] == FormatRow(t.columns, t.rows[i], first, last, photo)
  {
    if first in t.columns && last in t.columns then
      Some(seq(|t.rows|, i requires 0 <= i < |t.rows| => FormatRow(t.columns, t.rows[i], first, last, photo)))
    else None
  }
}
