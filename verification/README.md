# Intro cards: the layout bookkeeping, in Dafny

`create_intro_cards.py` turns a table of people into "intro cards". There are
four cards on each page. Each card shows:

- a bold full name;
- a photo, or a default photo;
- a description that lists every other non-blank column as a bold
  `name: value` line.

The pages are saved as `figure1.png`, `figure2.png`, … and then bound into a
single PDF. A preview mode draws only the first page.

This project models the part of the program that decides *what* goes where,
independent of how it is drawn:

- **Sanitising the table** (module `Sanitizer`). Every value is stripped, and
  a `Full Name` column is derived from the first and last names. A *custom*
  column is any column other than the first name, last name, photo path and
  `Full Name`. Custom columns get a MathText-safe name:
  - the name is stripped;
  - `~`, `^` and `\` are deleted;
  - a backslash is put before each of space, `#`, `$`, `%`, `_`, `{` and `}`.

  Custom columns also get their `$` signs escaped. The code does these steps
  as a chain of `str.replace` calls. The model has that chain as written, plus
  single-pass reference definitions (`Remove`, `Escape`, `Unescape`). Lemmas
  prove the two forms equal.
- **The description** (module `Description`). It has one `$name:$ value`
  entry per kept field, joined by newlines.
- **Pagination** (module `Paginator`). This covers:
  - the page count `_ceil_div(n, 4)`, written with Python floor division;
  - the rows on each page;
  - the preview's first `min(n, 4)` rows;
  - the page image names, and the fact that ordering them by their number
    gives page order while ordering them as strings does not.
- **Cards** (module `Cards`). This covers the photo decision, the progress
  line, and the run statistics threaded through all cards of all pages. The
  page loop of `_make_figs` is a method with loop invariants.
- **Runs** (module `Runs`). This covers the argument checks of `make_pdf` and
  `make_pdf_preview`, in their order and with their exact messages, and what a
  successful run returns.

The file system is a parameter: `FileSystem(existing, readable)` answers the
two questions the program asks about a path (`os.path.exists` and "PIL can
open it"). Values arrive as strings, or `None` for a null cell. Python's
`str.strip` is modelled with the exact set of characters `str.isspace` accepts
(`Text.IsWhitespace`).

Three behaviours worth knowing, all following the code:

- The blank-value test in the description is `value == ""` on values that
  were already stripped. It is not a separate whitespace test.
- A run on an empty table is not a successful run with zero cards.
  `make_pdf` makes no page, and then indexing the first page image fails
  (`sorted_figure_image_paths[0]`). The model returns `NoPageImages`. This
  assumes the output directory held no other `*.png` files.
- The description leaves out a field by its *label* after sanitising. A
  custom column whose sanitised name happens to equal one of the four
  distinguished labels is therefore left out too.

## Model

| member | source | states |
|---|---|---|
| Text.TrimSlice | create_intro_cards.py:1044 | `str.strip`: the result is the slice of the input between its maximal leading and trailing whitespace runs |
| Text.TrimIdempotent | create_intro_cards.py:1044-1046 | stripping an already stripped value changes nothing, so the stripped names feeding `Full Name` are stable |
| Text.SplitJoin | create_intro_cards.py:907 | splitting a `sep`-join of non-empty, separator-free parts gives the parts back |
| Text.ParseDecimalOfDecimal | create_intro_cards.py:858 | the decimal rendering of a count reads back as that count |
| Sanitizer.DeleteEachIsRemove | create_intro_cards.py:1061-1062 | deleting `~`, `^`, `\` one `replace` at a time equals removing all of them in one pass |
| Sanitizer.PrefixEachIsEscape | create_intro_cards.py:1063-1064 | the chain of `replace(c, "\\" + c)` over distinct non-backslash characters equals escaping each of them in one pass |
| Sanitizer.FormatColumnNameOnePass | create_intro_cards.py:1060-1065 | the custom column name is the one-pass escape of the stripped name with the forbidden characters removed |
| Sanitizer.UnescapeEscape | create_intro_cards.py:1063-1064 | dropping the inserted backslashes undoes the escaping |
| Sanitizer.FormatColumnNameSpec | create_intro_cards.py:1060-1065 | a custom name has no `~` or `^`; every `\` in it is followed by one of the seven specials, and every special has one before it; unescaping gives the stripped name minus `~ ^ \` |
| Sanitizer.EscapeDollarsSpec | create_intro_cards.py:1058 | escaping `$` grows the value by exactly its number of `$`, keeps that number, puts a `\` before every `$`, and unescaping gives the value back |
| Sanitizer.EscapeDollarsNotIdempotent | create_intro_cards.py:1058 | escaping twice differs from escaping once whenever the value has a `$` |
| Sanitizer.FullNameOfTrimmed | create_intro_cards.py:1046 | on stripped names the full name is `first + " " + last`, or just the non-empty one when the other is blank |
| Sanitizer.Schema | create_intro_cards.py:1046 | the columns after the `Full Name` assignment begin with the original columns, contain `Full Name`, and add exactly one column, only when `Full Name` was absent |
| Sanitizer.RowValues | create_intro_cards.py:1044-1046 | every original cell is stripped in place, and the `Full Name` slot holds the full name of the stripped first and last names |
| Sanitizer.FormatRowSpec | create_intro_cards.py:1044-1069 | a sanitised row: distinguished labels kept verbatim with stripped values; custom labels formatted, with stripped and dollar-escaped values; `Full Name` filled; all four distinguished labels present |
| Sanitizer.FormatData | create_intro_cards.py:1019-1070 | the table is sanitised row by row, and fails (KeyError) exactly when the first- or last-name column is absent |
| Description.Kept | create_intro_cards.py:898-904 | a field is kept exactly when its label is not one of the four distinguished labels and its value is not empty |
| Description.KeptAppend | create_intro_cards.py:900-904 | keeping commutes with concatenation, so entries stay in column order |
| Description.DescriptionOf | create_intro_cards.py:898-899 | the description exists exactly when all four distinguished labels are in the row (`row.drop` raises otherwise) |
| Description.DescriptionEmpty | create_intro_cards.py:901-907 | the description is `""` exactly when every field is distinguished or blank; otherwise it begins with `$`, with no leading newline |
| Description.DescriptionLines | create_intro_cards.py:901-907 | when at least one field is kept and no field name or value contains a newline, splitting the description on newlines gives back exactly the `$name:$ value` entries, in order |
| Paginator.FloorDiv | create_intro_cards.py:1016 | Python's `//` rounds toward negative infinity for both signs of the divisor |
| Paginator.CeilDiv | create_intro_cards.py:1005-1016 | `-(n // -d)` is the least multiple count covering `n`: `d*q - d < n <= d*q` |
| Paginator.CeilDivClosedForm | create_intro_cards.py:1016 | for a row count the trick equals `(n + d - 1) / d`, and is 0 for no rows |
| Paginator.PaginateCount | create_intro_cards.py:538 | there are `ceil(n / 4)` pages |
| Paginator.PaginatePages | create_intro_cards.py:537-542 | page `k` holds rows `[4k, min(4k + 4, n))` and starts inside the table |
| Paginator.PaginateSizes | create_intro_cards.py:539-542 | every page but the last holds four rows; the last holds one to four |
| Paginator.PaginateFlatten | create_intro_cards.py:537-567 | the pages put back together are the rows, in order |
| Paginator.PreviewRows | create_intro_cards.py:667-673 | the preview takes the first `min(n, 4)` rows, which is the first page when there are rows |
| Paginator.FigureIndexOfName | create_intro_cards.py:565 | the number read back out of `figure{k}.png` by the `figure(\d+)\.png` pattern is `k` |
| Paginator.SortedNamesArePageOrder | create_intro_cards.py:230-238 | `n` page image names ordered by their number are `figure1.png … figure{n}.png` in page order |
| Paginator.LexicographicOrderIsNotPageOrder | create_intro_cards.py:232-237 | ordering by string would put `figure10.png` before `figure2.png` |
| Cards.ResolvePhoto | create_intro_cards.py:823-846 | the four photo outcomes (no path, not found, unreadable, read) are decided exactly by the path and the file system; only a readable given path is used, otherwise the default; WARNING exactly for not found or unreadable; the message of each outcome |
| Cards.Lookup | create_intro_cards.py:778 | `row[name]` succeeds exactly when the label is present and gives the value of its first occurrence |
| Cards.PersonOf | create_intro_cards.py:778-865 | a card can be made from a row exactly when all four distinguished labels are present; its name, photo path and description are the row's |
| Cards.MakeCard | create_intro_cards.py:823-865 | a card counts one more card made, appends the full name to the warnings exactly when the photo is warned about, and logs the progress line for that count |
| Cards.ProgressCounterOfLine | create_intro_cards.py:857-863 | the `[a/b]` counter of a progress line reads back as (cards made + 1, cards to make) |
| Cards.RunCards | create_intro_cards.py:549-565 | a run over `m` people makes `m` cards and adds `m` to the cards made, leaving cards to make unchanged |
| Cards.RunCardsWarnings | create_intro_cards.py:823-846 | the warning list grows by exactly the full names of the people whose given photo is missing or unreadable, in processing order |
| Cards.RunCardsAt | create_intro_cards.py:857-865 | the `k`-th card of a run is exactly the card for person `k`: their resolved photo and the progress line counting `created + k + 1` |
| Cards.RunCardsCards | create_intro_cards.py:823-865 | card `k` is for person `k`, shows that person's resolved photo, and counts `created + k + 1` in its progress line |
| Cards.RunCardsAppend | create_intro_cards.py:537-567 | a run over `a + b` is the run over `a` followed by the run over `b` from where `a` left off |
| Cards.MakeFigs | create_intro_cards.py:537-567 | the page loop makes `ceil(n / 4)` pages numbered 1, 2, …; page `k` has the cards of rows `[4k, min(4k + 4, n))`; together the pages' cards and the final statistics equal one run over all rows |
| Cards.PreviewFigure | create_intro_cards.py:667-673 | the preview page holds exactly the cards of the first `min(n, 4)` rows, in order, each with its resolved photo and the progress line counting from the cards made so far; it adds their count to the cards made and exactly their warned names to the warnings |
| Runs.Missing | create_intro_cards.py:185-189 | a listed column is missing exactly when it is named and not in the table; nothing is missing exactly when all named columns exist |
| Runs.MissingAppend | create_intro_cards.py:185-189 | the filter distributes over concatenation, so missing columns keep argument order and a column named twice is listed twice |
| Runs.MissingRequired | create_intro_cards.py:185-189 | the missing required columns are first name, last name, photo path, in that order, each listed when absent; nothing is missing exactly when all three exist |
| Runs.MissingAllMessage | create_intro_cards.py:190-194 | with all three columns missing, the message names all three joined by `, ` |
| Runs.Validate | create_intro_cards.py:164-194 | a missing default photo is reported first, then an unreadable one, then the missing columns; a run passes exactly when none applies |
| Runs.PeopleOf | create_intro_cards.py:1019-1070 | every sanitised row yields a person when the required columns exist |
| Runs.MakePdf | create_intro_cards.py:164-246 | a failed check is returned as is; an empty table fails binding the PDF; otherwise all `n` cards are made (`created == to create == n`), the warnings are the warned names in row order, the pages are those of the page loop, and the PDF binds `figure1.png …` in page order |
| Runs.MakePdfPreview | create_intro_cards.py:367-420 | a failed check is returned as is; otherwise exactly the first `min(n, 4)` rows are made into cards on one page, each with its resolved photo and a progress line `[k/min(n, 4)]`, with `created == to create == min(n, 4)` and their warnings |

## Left out

- Drawing: figures, axes, the inset photo, `imshow`, `savefig` and
  `plt.show`. These are library calls with no bookkeeping. A page is
  modelled as its number and its cards.
- The font-shrink loop for descriptions and `_WrapText`. Both depend on
  floating-point bounding boxes that matplotlib computes, and the loop has no
  termination bound in the code.
- Binding the PDF with PIL. It is modelled only as the list of page image
  names in the order they are bound.
- Finding page images with `glob` and its regular expression. The model
  assumes the output directory holds exactly the page images of this run.
  `Paginator.SortedNamesArePageOrder` states why sorting them by number gives
  page order.
- Creating the output directory, and its failure (`make_pdf` only). This is
  file system I/O.
- Logging handlers, the timestamped log file and the end-of-run summary text.
  Only the per-card progress line is modelled.
- pandas coercion `fillna("").astype(str)`. Cells are strings or `None`, and
  `None` becomes `""`.
- Duplicate column names in the input table. `Sanitizer.WellFormed` requires
  distinct input names. Sanitising can still produce duplicate labels.
  `Cards.Lookup` then returns the first match, where pandas would return a
  Series. For a duplicated photo label, `row[photo_path_col] == ""` then
  compares a whole Series, so `not …` raises ValueError and the run stops;
  the model instead makes the card from the first match.
- `Runs.MakePdf`: assumes the output directory holds no stale `*.png` files.
  With stale files present, the real program can bind old pages, or bind a
  PDF for an empty table instead of failing.
- Description.DescriptionLines: the split-after-join round trip is stated
  only for rows where no field name or value contains a newline. A cell with
  an interior newline (a quoted multi-line CSV cell survives `strip`) makes
  the description split into more lines than it has entries; the description
  itself is still modelled exactly by `Description.DescriptionOf`.
