# ShadowPulse report layout, modelled in Dafny

The dashboard's only logic of its own is `create_pdf` in `app.py`. It takes a topic,
a narrative summary and a table of news headlines, writes a fixed-layout report
through the FPDF library, and returns the PDF's bytes. Before any piece of
user-derived text reaches the PDF writer, the nested helper `clean_text` runs it
through Python's `latin-1` codec with the `'replace'` error handler and back.

The model has four modules:

- `Wrappers` (`wrappers.dfy`): `Option`, for a summary that may be Python `None`.
- `Latin1` (`latin1.dfy`): `clean_text`. `Encode` is `str.encode('latin-1', 'replace')`
  over a `byte` newtype. `Decode` is `bytes.decode('latin-1')`. `Clean` is the round
  trip through both, and `CleanText` adds the `if not text: return ""` guard. The lemmas
  prove what the sanitiser guarantees. The output is pure ISO/IEC 8859-1 and has the
  same length as the input. A Latin-1 character is kept and any other becomes one `'?'`.
  Strings that are already Latin-1 are exactly the ones left unchanged, so cleaning is
  idempotent. Cleaning distributes over concatenation. Decoding then encoding gives back
  every byte sequence.
- `Casing` (`casing.dfy`): an ASCII-only `str.upper()`, used as one concrete upper-casing.
- `Report` (`report.dfy`): `create_pdf`. The FPDF object becomes the class `Document`.
  Its `WriteCell` and `WriteMultiCell` methods append `Cell(text)` and `MultiCell(text)`
  items to a sequence. `CreatePdf` performs the source's calls in the source's order:
  `WritePreamble` makes the five fixed writes, then a loop runs over `df.head(8)`. It is proved equal to the specification
  function `Layout`. The lemmas about `Layout` fix the order of the items. The title
  comes first, then the raw `Generated: ` line, the summary header, the cleaned summary
  and the headline header. After them come exactly `min(8, n)` headline entries for the
  first rows, in table order, and nothing else. The lemmas also say what each headline
  entry contains, and that every item is Latin-1 whenever the timestamp is.

The clock reading becomes the parameter `generated`: the string
`strftime('%Y-%m-%d %H:%M')` would produce. Python's `str.upper` becomes the
function parameter `upper`, so every `Report` lemma that takes `upper` holds for any
upper-casing function. `Casing.AsciiUpper` is the ASCII instance, and `AsciiTitle` is the
one lemma stated for it alone. The headline table becomes a
`seq<Headline>` holding the two columns the code reads, `title` and `source`.

`create_pdf` cleans only the title, the summary and the headline lines. The
`Generated:` line (app.py:16) and the two section headers (app.py:20, 28) are written
as they are. `LayoutLatin1` shows that the headers are Latin-1 anyway, and that the
timestamp line is Latin-1 exactly when the timestamp is. The title is cleaned as a
whole, banner included (app.py:13); `TitleParts` shows that this is the banner
followed by the cleaned upper-cased topic.

## Model

| member | source | states |
|---|---|---|
| `Latin1.Encode` | app.py:10 | `encode('latin-1', 'replace')` gives one byte per code point: the code point itself when it is at most U+00FF, otherwise the code of `'?'` |
| `Latin1.Decode` | app.py:10 | `decode('latin-1')` is total and gives one character per byte, whose code point is the byte's value |
| `Latin1.Clean` | app.py:10 | the encode/decode round trip keeps the length, keeps each Latin-1 character in place, replaces every other character by exactly one `'?'`, and its result is pure Latin-1 |
| `Latin1.CleanText` | app.py:7-10 | `clean_text(None)` is `""`; for a string, the early return on `""` agrees with the round trip, so `clean_text(s)` is `Clean(s)` |
| `Latin1.CleanTextLatin1` | app.py:7-10 | whatever `clean_text` returns, every character has a code point of at most 255 |
| `Latin1.ConcatLatin1` | app.py:10 | a concatenation is pure Latin-1 exactly when both parts are |
| `Latin1.EncodeDecode` | app.py:10 | decoding any byte sequence as Latin-1 and encoding it again gives the same bytes |
| `Latin1.CleanFixesExactlyLatin1` | app.py:10 | cleaning leaves a string unchanged if and only if every character is in ISO/IEC 8859-1 |
| `Latin1.CleanIdempotent` | app.py:7-10 | cleaning an already cleaned string changes nothing |
| `Latin1.CleanTextIdempotent` | app.py:7-10 | `clean_text(clean_text(t)) == clean_text(t)`, for `None` too |
| `Latin1.CleanConcat` | app.py:10 | cleaning a concatenation is concatenating the cleaned parts |
| `Latin1.CleanSmartQuote` | app.py:10 | a summary with the apostrophe U+2019 gets just that character replaced by one `'?'` and the rest kept |
| `Casing.AsciiUpper` | app.py:13 | upper-casing keeps the length, maps each `a`..`z` to its capital and leaves every other character alone |
| `Casing.AsciiUpperNoLower` | app.py:13 | no lower-case ASCII letter is left after upper-casing |
| `Casing.AsciiUpperIdempotent` | app.py:13 | upper-casing twice is upper-casing once |
| `Casing.AsciiUpperKeepsAscii` | app.py:13 | ASCII upper-casing of an ASCII string, where it agrees with `str.upper`, gives an ASCII string |
| `Casing.AsciiIsLatin1` | app.py:13 | an ASCII topic is also a Latin-1 one |
| `Casing.AsciiUpperKeepsLatin1` | app.py:13 | the ASCII upper-casing (not `str.upper`) of a Latin-1 string gives a Latin-1 string |
| `Report.Document.constructor` | app.py:3-4 | a new document holds no text items |
| `Report.Document.WriteCell` | app.py:13-28 | each of the four `cell` calls (app.py:13, 16, 20 and 28) appends one `Cell` item with the given text and changes nothing else |
| `Report.Document.WriteMultiCell` | app.py:24 | `multi_cell` appends one `MultiCell` item with the given text and changes nothing else |
| `Report.Title` | app.py:13 | the title text has one character per character of the banner and the upper-cased topic |
| `Report.Entry` | app.py:33 | a headline line has one character per character of `- {title} (Source: {source})` |
| `Report.Preamble` | app.py:12-28 | the fixed writes are five items, cells except for the one summary block in fourth place |
| `Report.WritePreamble` | app.py:12-28 | the five fixed writes append exactly the `Preamble` items to the document |
| `Report.Layout` | app.py:12-34 | the report is the five preamble items followed by one `MultiCell` entry for each of the first `min(8, n)` rows, in order, and nothing else |
| `Report.Shown` | app.py:31 | `df.head(8)` yields `min(8, n)` rows, the first ones in table order, and does not fail on fewer than 8 |
| `Report.HeadlineItems` | app.py:31-34 | the loop writes one `MultiCell` per shown row, in row order, holding that row's cleaned entry |
| `Report.CreatePdf` | app.py:1-34 | the items the method writes to the document, in order, are exactly `Layout` of its inputs |
| `Report.HeadlineItemsExtend` | app.py:31-34 | one more loop iteration appends exactly the next row's entry |
| `Report.HeadlineItemsAppend` | app.py:31-34 | the entries for a table with one more row are the old entries followed by that row's entry |
| `Report.LayoutOrder` | app.py:12-34 | the report is the cleaned title, `"Generated: " + ts`, `"Executive AI Summary:"`, the cleaned summary, `"Top Headlines Analyzed:"`, then the entries of the first `min(8, n)` rows in order, with nothing else between or after |
| `Report.HeadlineCount` | app.py:31 | a table of at most 8 rows adds one entry per row; a longer one adds exactly 8 |
| `Report.LayoutIgnoresLaterRows` | app.py:31 | rows after the eighth have no effect on the report |
| `Report.FixedTextLatin1` | app.py:13-33 | the banner, the `Generated:` label, both section headers and the punctuation of an entry are all Latin-1 |
| `Report.OnlyTimestampVaries` | app.py:16 | a report for another timestamp is the same report with only its `Generated:` item replaced |
| `Report.EntryParts` | app.py:33 | an entry is `"- "`, the cleaned title, `" (Source: "`, the cleaned source and `")"` |
| `Report.EntryVerbatim` | app.py:33 | with a Latin-1 title and source, the entry is `- {title} (Source: {source})` verbatim, so it contains `{title} (Source: {source})` |
| `Report.TitleParts` | app.py:13 | the title is the banner `"ShadowPulse Intelligence: "` followed by the cleaned upper-cased topic |
| `Report.LayoutLatin1` | app.py:13-36 | every item is Latin-1, except that the uncleaned timestamp line is Latin-1 exactly when the timestamp is, so when the timestamp is Latin-1, as the digits `strftime('%Y-%m-%d %H:%M')` writes are, no item text stands in the way of the final Latin-1 encoding, which itself is not modelled |
| `Report.EmptyReport` | app.py:8-34 | an empty or absent summary and an empty table still give the five fixed items, with an empty summary block and no entries |
| `Report.AsciiTitle` | app.py:13 | with ASCII upper-casing and an ASCII topic, where it agrees with `str.upper`, the title carries the upper-cased topic verbatim after the banner |

## Left out

- FPDF rendering: `add_page`, fonts, cell widths, alignment, `ln` spacing, line wrapping in `multi_cell`, and `pdf.output(dest='S').encode('latin-1')` (app.py:3-4, 12-36). These are calls into a library whose code is not part of this model. Only the sequence of text items passed to it is modelled.
- Report.CreatePdf: returns the sequence of text items instead of the PDF bytes, because the serialisation belongs to the PDF library.
- The clock read `datetime.datetime.now().strftime(...)` (app.py:16) is I/O. Its formatted result is the `generated` parameter.
- pandas `DataFrame.head(8).iterrows()` (app.py:31) is replaced by a prefix of a `seq<Headline>`. Columns other than `title` and `source`, and cells that are not strings, are not modelled.
- Casing.AsciiUpper: covers only ASCII letters. Python's full Unicode `str.upper()` (app.py:13) can change other letters and even the length (`ß` becomes `SS`). Its case-mapping table is not modelled, which is why the layout lemmas take `upper` as an arbitrary function.
- Casing.AsciiUpperKeepsLatin1: holds of the ASCII instance only; Python's `str.upper` can take Latin-1 text out of Latin-1 (`ÿ` becomes U+0178, `µ` becomes U+039C), which the title's cleaning then turns into `'?'`.
- A `None` topic (which makes `topic.upper()` raise) is not modelled. The topic is always a string.
- Python strings may hold lone surrogate code points, which Dafny's `char` excludes. The codec replaces them by `'?'` like any other non-Latin-1 code point, but they cannot be written down here.
- The search, sentiment, summarisation and Streamlit UI code is not part of this model.
