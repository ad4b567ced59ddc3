# Revenue report row extraction, modelled in Dafny

The Revenue Report Analyzer is a small Streamlit application. It reads the text of an
uploaded PDF revenue report and looks for table rows in that text. Its core is
`extract_table_rows`. The function splits the text into lines and strips each line of
surrounding whitespace. It then splits the line on tab characters and keeps the first
four fields whenever there are at least four and the second is a string of digits. The
four fields are the columns Row, Service, Last Month and This Month.

This project models that function and the Python string operations it relies on, and
proves properties of the model:

- `pystr.dfy` (module `PyStr`) holds `str.splitlines()`, `str.strip()`, `str.split(sep)`
  and `str.isdigit()` as pure functions. `splitlines` uses every line boundary CPython
  recognises. `strip` uses every character for which `str.isspace()` holds. Each
  function has lemmas relating it to a partner: `Join` for `split`, the whitespace
  predicate for `strip`, and text assembled from lines for `splitlines`.
- `seqs.dfy` (module `Seqs`) holds `FilterMap`. It keeps, in order, the values a partial
  function gives for the elements of a sequence. This is the shape of a loop that
  appends to a list for some elements only. The module also holds its list lemmas.
- `app.dfy` (module `App`) holds the row recogniser `LineRow` (the loop body) and the
  reference functions `TableRows` and `TextRows`. It also holds the method
  `ExtractTableRows`, the function's own `for` loop, which is proved against
  `TextRows`.

The application's wider design also describes rows recovered from embedded blocks,
money parsing, de-duplication and aggregation. `app.py` contains no code for them, so
they are not modelled; the model follows the code in `app.py`.

## Model

| member | source | states |
|---|---|---|
| App.ExtractTableRows | app.py:23-30 | The loop returns exactly the rows the reference `TextRows` gives. There are never more rows than lines. Every row has four tab-free fields, its second field is a non-empty digit string and its first field does not start with whitespace. Empty text gives no rows. |
| App.LineRowSpec | app.py:27-29 | A line yields the fields `fs` if and only if its stripped text is `fs` joined by tabs, or starts with that and one more tab, where `fs` has four tab-free fields and a digit-string second field. |
| App.LineRowSound | app.py:27-29 | A row a line yields is the first four tab-separated fields of the stripped line, and its second field is all digits. |
| App.LineRowComplete | app.py:27-29 | A stripped line that starts with four tab-separated fields whose second is all digits yields those four fields. |
| App.LineRowShape | app.py:27-29 | A row a line yields has four tab-free fields, a digit-string second field and a first field that is non-empty and does not start with whitespace. |
| App.EmptyLineRow | app.py:27-28 | An empty line yields no row: splitting it gives one field, fewer than four. |
| App.TableRowsShape | app.py:26-29 | Every row extracted from a list of lines has the table-row shape. |
| App.TableRowsAppend | app.py:26-29 | Lines contribute independently: the rows of two runs of lines are the rows of the first followed by the rows of the second. |
| App.TableRowsSkip | app.py:28 | A line too short or without a digit second field contributes nothing: dropping it leaves the result unchanged. |
| App.TableRowsOrigins | app.py:25-29 | Order is preserved. The k-th row is what the k-th contributing line yields, the contributing line indices strictly increase, and a line contributes if and only if it yields a row. |
| App.TextRowsJoin | app.py:24-29 | Lines are extracted independently across any line boundary: extracting from `a`, then a boundary (`"\n"`, `"\r\n"`, a lone `"\r"` not followed by `"\n"`, or any other boundary character), then `b` gives the rows of `a` followed by the rows of `b`. |
| App.TextRowsOfPages | app.py:15-17 | On text that `parse_pdf` assembles (each page's text followed by a newline), extraction works page by page: no row spans two pages and page boundaries neither add nor drop rows. |
| PyStr.SplitLinesShape | app.py:24 | No line contains a line boundary, there are at most as many lines as characters, and only empty text gives no lines. |
| PyStr.SplitLinesJoinTerminated | app.py:24 | Splitting boundary-free lines that are each followed by a newline gives back exactly those lines, with no trailing empty line. |
| PyStr.SplitLinesBoundary | app.py:24 | For every line boundary (a boundary character, or `"\r\n"` read as one boundary; a lone `"\r"` only when the rest does not start with `"\n"`), the lines of `a`, the boundary, then `b` are the lines of `a`, then the lines of `b`. One empty line comes between them exactly when `a` is empty or already ends in a boundary, except when `a` ends in a lone `"\r"` and the boundary is `"\n"`, which completes it to `"\r\n"`. |
| PyStr.StripSpec | app.py:27 | The stripped string is a contiguous slice of the input with only whitespace before and after it. When non-empty, it neither starts nor ends with whitespace. |
| PyStr.StripIdempotent | app.py:27 | Stripping twice gives the same result as stripping once. |
| PyStr.SplitSpec | app.py:27 | Splitting gives at least one part, no part contains the separator, and joining the parts with the separator gives back the input. |
| PyStr.SplitJoin | app.py:27 | Splitting parts joined by a separator that none of them contains gives back the parts. |
| PyStr.SplitPrefix | app.py:27 | Splitting fields joined by the separator, followed by one more separator and a rest, gives those fields followed by the parts of the rest. |
| Seqs.FilterMapAppend | app.py:26-29 | Filtering a concatenation gives the concatenation of the filtered parts. |
| Seqs.FilterMapOrigins | app.py:26-29 | The filtered result has one value per kept index, and each value is the one the function gives for the element at that index. |

## Left out

- `parse_pdf` (app.py:12-21): PDF reading through PyPDF2 and its exception handling are I/O and a foreign library. Only the shape of the text it builds (page text followed by `"\n"`, per page) is used, in `App.TextRowsOfPages`.
- The Streamlit page, the file upload, the warnings and the table display (app.py:7-10, 32-43) are user interface.
- The pandas `DataFrame`, `to_numeric` with `errors="coerce"`, the `Change` column and the CSV download (app.py:36-41) depend on pandas and floating point.
- Embedded-block rows, money parsing, de-duplication and aggregation, which the wider design describes: `app.py` contains no code for them.
- PyStr.IsDigit: accepts only the ASCII digits `0`-`9`. Python's `str.isdigit()` also accepts other Unicode digit characters, such as superscripts and other scripts' digits, so the model is narrower on such input.
- Python strings may hold lone surrogate code points, but Dafny's `char` cannot, so such strings are not representable.
