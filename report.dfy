/**
 * The layout of `create_pdf`: the PDF writer is replaced by a document that
 * records, in order, the text of every `cell` and `multi_cell` call. Fonts,
 * widths, alignment, spacing, wrapping and the final serialisation belong to
 * the PDF library and are not modelled.
 */
module Report {
  import opened Wrappers
  import opened Latin1
  import Casing

  /** One row of the headline table; `create_pdf` reads only these two columns. */
  datatype Headline = Headline(title: string, source: string)

  /** One text item handed to the PDF writer. */
  datatype Item = Cell(text: string) | MultiCell(text: string)

  const Banner: string := "ShadowPulse Intelligence: "
  const GeneratedLabel: string := "Generated: "
  const SummaryHeader: string := "Executive AI Summary:"
  const HeadlinesHeader: string := "Top Headlines Analyzed:"
  const EntryPrefix: string := "- "
  const SourceOpen: string := " (Source: "
  const SourceClose: string := ")"

  /** `df.head(8)`: at most this many headlines reach the report. */
  const MaxHeadlines: nat := 8

  /** The number of items written before the headline entries. */
  const PreambleLength: nat := 5

  function Min(a: int, b: int): int {
    if a <= b then a else b
  }

  /** The abstract PDF document: the items written to it so far. */
  class Document {
    var items: seq<Item>

    constructor ()
      ensures items == []
    {
      items := [];
    }

    /** `pdf.cell(..., txt=text, ...)` */
    method WriteCell(text: string)
      modifies this
      ensures items == old(items) + [Cell(text)]
    {
      items := items + [Cell(text)];
    }

    /** `pdf.multi_cell(..., txt=text)` */
    method WriteMultiCell(text: string)
      modifies this
      ensures items == old(items) + [MultiCell(text)]
    {
      items := items + [MultiCell(text)];
    }
  }

  /** The centred title: the banner and the upper-cased topic, cleaned together. */
  function Title(topic: string, upper: string -> string): (r: string)
    ensures |r| == |Banner| + |upper(topic)|
  {
    CleanText(Some(Banner + upper(topic)))
  }

  /** One headline line, `- {title} (Source: {source})`, cleaned as a whole. */
  function Entry(h: Headline): (r: string)
    ensures |r| == |EntryPrefix| + |h.title| + |SourceOpen| + |h.source| + |SourceClose|
  {
    CleanText(Some(EntryPrefix + h.title + SourceOpen + h.source + SourceClose))
  }

  /** The rows `df.head(8)` yields, in table order. */
  function Shown(rows: seq<Headline>): (r: seq<Headline>)
    ensures |r| == Min(MaxHeadlines, |rows|)
    ensures forall k :: 0 <= k < |r| ==> r[k] == rows[k]
  {
    rows[..Min(MaxHeadlines, |rows|)]
  }

  /** The items written before the headline loop: four cells around the one summary block. */
  function Preamble(topic: string, summary: Option<string>, generated: string, upper: string -> string): (r: seq<Item>)
    ensures |r| == PreambleLength
    ensures r[0].Cell? && r[1].Cell? && r[2].Cell? && r[3].MultiCell? && r[4].Cell?
  {
    [ Cell(Title(topic, upper)),
      Cell(GeneratedLabel + generated),
      Cell(SummaryHeader),
      MultiCell(CleanText(summary)),
      Cell(HeadlinesHeader) ]
  }

  /** One `multi_cell` per headline, in the order of the rows. */
  function HeadlineItems(rows: seq<Headline>): (r: seq<Item>)
    ensures |r| == |rows|
    ensures forall k :: 0 <= k < |rows| ==> r[k] == MultiCell(Entry(rows[k]))
  {
    if rows == [] then [] else [MultiCell(Entry(rows[0]))] + HeadlineItems(rows[1..])
  }

  /** The whole report as a sequence of text items. */
  function Layout(topic: string, summary: Option<string>, rows: seq<Headline>,
                  generated: string, upper: string -> string): (r: seq<Item>)
    ensures |r| == PreambleLength + Min(MaxHeadlines, |rows|)
    ensures forall k :: 0 <= k < PreambleLength ==> r[k] == Preamble(topic, summary, generated, upper)[k]
    ensures forall k :: 0 <= k < Min(MaxHeadlines, |rows|) ==> r[PreambleLength + k] == MultiCell(Entry(rows[k]))
  {
    Preamble(topic, summary, generated, upper) + HeadlineItems(Shown(rows))
  }

  /** The five fixed writes of `create_pdf` before its headline loop. */
  method WritePreamble(pdf: Document, topic: string, summary: Option<string>,
                       generated: string, upper: string -> string)
    modifies pdf
    ensures pdf.items == old(pdf.items) + Preamble(topic, summary, generated, upper)
  {
    pdf.WriteCell(CleanText(Some(Banner + upper(topic))));
    pdf.WriteCell(GeneratedLabel + generated);
    pdf.WriteCell(SummaryHeader);
    pdf.WriteMultiCell(CleanText(summary));
    pdf.WriteCell(HeadlinesHeader);
  }

  /**
   * `create_pdf(topic, summary, df)` with the clock reading passed in as the
   * already formatted `generated` and `str.upper` passed in as `upper`.
   */
  method CreatePdf(topic: string, summary: Option<string>, rows: seq<Headline>,
                   generated: string, upper: string -> string)
    returns (doc: seq<Item>)
    ensures doc == Layout(topic, summary, rows, generated, upper)
  {
    var pdf := new Document();
    WritePreamble(pdf, topic, summary, generated, upper);
    var shown := rows[..Min(MaxHeadlines, |rows|)];
    var i := 0;
    while i < |shown|
      invariant 0 <= i <= |shown|
      invariant pdf.items == Preamble(topic, summary, generated, upper) + HeadlineItems(shown[..i])
    {
      var row := shown[i];
      var headline := CleanText(Some(EntryPrefix + row.title + SourceOpen + row.source + SourceClose));
      pdf.WriteMultiCell(headline);
      HeadlineItemsExtend(shown, i);
      i := i + 1;
    }
    assert shown[..i] == shown;
    doc := pdf.items;
  }

  /** The entries for the first `i + 1` rows are those for the first `i` and one more. */
  lemma HeadlineItemsExtend(rows: seq<Headline>, i: nat)
    requires i < |rows|
    ensures HeadlineItems(rows[..i + 1]) == HeadlineItems(rows[..i]) + [MultiCell(Entry(rows[i]))]
  {
    assert rows[..i + 1] == rows[..i] + [rows[i]];
    HeadlineItemsAppend(rows[..i], rows[i]);
  }

  /** Writing one more headline appends one more entry at the end. */
  lemma {:induction false} HeadlineItemsAppend(rows: seq<Headline>, h: Headline)
    ensures HeadlineItems(rows + [h]) == HeadlineItems(rows) + [MultiCell(Entry(h))]
  {
    if rows != [] {
      assert (rows + [h])[1..] == rows[1..] + [h];
      HeadlineItemsAppend(rows[1..], h);
    }
  }

  /**
   * The fixed order of the report: title, timestamp line, summary header,
   * cleaned summary, headline header, then exactly `min(8, n)` entries for the
   * first rows in table order, and nothing else.
   */
  lemma LayoutOrder(topic: string, summary: Option<string>, rows: seq<Headline>,
                    generated: string, upper: string -> string)
    ensures var doc := Layout(topic, summary, rows, generated, upper);
      && |doc| == PreambleLength + Min(MaxHeadlines, |rows|)
      && doc[0] == Cell(Clean(Banner + upper(topic)))
      && doc[1] == Cell(GeneratedLabel + generated)
      && doc[2] == Cell(SummaryHeader)
      && doc[3] == MultiCell(CleanText(summary))
      && doc[4] == Cell(HeadlinesHeader)
      && forall k :: 0 <= k < Min(MaxHeadlines, |rows|) ==> doc[PreambleLength + k] == MultiCell(Entry(rows[k]))
  {
  }

  /** A table of fewer than eight rows is shown whole; a longer one is cut at eight. */
  lemma HeadlineCount(topic: string, summary: Option<string>, rows: seq<Headline>,
                      generated: string, upper: string -> string)
    ensures |rows| <= MaxHeadlines ==> |Layout(topic, summary, rows, generated, upper)| == PreambleLength + |rows|
    ensures |rows| > MaxHeadlines ==> |Layout(topic, summary, rows, generated, upper)| == PreambleLength + MaxHeadlines
  {
  }

  /** The report depends on the rows only through the first eight. */
  lemma LayoutIgnoresLaterRows(topic: string, summary: Option<string>, rows: seq<Headline>, more: seq<Headline>,
                               generated: string, upper: string -> string)
    requires |rows| >= MaxHeadlines
    ensures Layout(topic, summary, rows + more, generated, upper) == Layout(topic, summary, rows, generated, upper)
  {
    assert Shown(rows + more) == Shown(rows);
  }

  /** The fixed text `create_pdf` writes is all inside ISO/IEC 8859-1. */
  lemma FixedTextLatin1()
    ensures AllLatin1(Banner) && AllLatin1(GeneratedLabel)
    ensures AllLatin1(SummaryHeader) && AllLatin1(HeadlinesHeader)
    ensures AllLatin1(EntryPrefix) && AllLatin1(SourceOpen) && AllLatin1(SourceClose)
  {
    // One constant at a time: the same facts proved together cost the solver more.
    assert AllLatin1(Banner);
    assert AllLatin1(GeneratedLabel);
    assert AllLatin1(SummaryHeader);
    assert AllLatin1(HeadlinesHeader);
  }

  /** Two reports built from the same inputs at different times differ only in the timestamp line. */
  lemma OnlyTimestampVaries(topic: string, summary: Option<string>, rows: seq<Headline>,
                            generated: string, generated': string, upper: string -> string)
    ensures Layout(topic, summary, rows, generated', upper)
         == Layout(topic, summary, rows, generated, upper)[1 := Cell(GeneratedLabel + generated')]
  {
    var preamble := Preamble(topic, summary, generated, upper);
    assert Preamble(topic, summary, generated', upper) == preamble[1 := Cell(GeneratedLabel + generated')];
    UpdateInPrefix(preamble, HeadlineItems(Shown(rows)), 1, Cell(GeneratedLabel + generated'));
  }

  /** Replacing an item of the first part of a concatenation leaves the second part alone. */
  lemma UpdateInPrefix(a: seq<Item>, b: seq<Item>, i: nat, x: Item)
    requires i < |a|
    ensures (a + b)[i := x] == a[i := x] + b
  {
  }

  /** A headline line is its two fields, each cleaned, inside the fixed punctuation. */
  lemma EntryParts(h: Headline)
    ensures Entry(h) == EntryPrefix + Clean(h.title) + SourceOpen + Clean(h.source) + SourceClose
  {
    FixedTextLatin1();
    CleanFixesExactlyLatin1(EntryPrefix);
    CleanFixesExactlyLatin1(SourceOpen);
    CleanFixesExactlyLatin1(SourceClose);
    CleanConcat(EntryPrefix, h.title);
    CleanConcat(EntryPrefix + h.title, SourceOpen);
    CleanConcat(EntryPrefix + h.title + SourceOpen, h.source);
    CleanConcat(EntryPrefix + h.title + SourceOpen + h.source, SourceClose);
  }

  /** With Latin-1 fields, the line carries `{title} (Source: {source})` verbatim after `"- "`. */
  lemma EntryVerbatim(h: Headline)
    requires AllLatin1(h.title) && AllLatin1(h.source)
    ensures Entry(h) == EntryPrefix + h.title + SourceOpen + h.source + SourceClose
    ensures Entry(h)[|EntryPrefix|..] == h.title + SourceOpen + h.source + SourceClose
  {
    EntryParts(h);
    CleanFixesExactlyLatin1(h.title);
    CleanFixesExactlyLatin1(h.source);
  }

  /** The title is the banner followed by the cleaned upper-cased topic. */
  lemma TitleParts(topic: string, upper: string -> string)
    ensures Title(topic, upper) == Banner + Clean(upper(topic))
  {
    FixedTextLatin1();
    CleanFixesExactlyLatin1(Banner);
    CleanConcat(Banner, upper(topic));
  }

  /**
   * Every item can be encoded as Latin-1 as long as the timestamp can: the
   * timestamp line is the one item `create_pdf` writes without cleaning it.
   */
  lemma LayoutLatin1(topic: string, summary: Option<string>, rows: seq<Headline>,
                     generated: string, upper: string -> string)
    ensures var doc := Layout(topic, summary, rows, generated, upper);
      forall k :: 0 <= k < |doc| ==> (AllLatin1(doc[k].text) <==> k != 1 || AllLatin1(generated))
  {
    var doc := Layout(topic, summary, rows, generated, upper);
    FixedTextLatin1();
    ConcatLatin1(GeneratedLabel, generated);
    forall k | 0 <= k < |doc|
      ensures AllLatin1(doc[k].text) <==> k != 1 || AllLatin1(generated)
    {
      if k == 0 {
        CleanTextLatin1(Some(Banner + upper(topic)));
      } else if k == 3 {
        CleanTextLatin1(summary);
      } else if k >= PreambleLength {
        CleanTextLatin1(Some(EntryPrefix + Shown(rows)[k - PreambleLength].title + SourceOpen
                             + Shown(rows)[k - PreambleLength].source + SourceClose));
      }
    }
  }

  /** An empty summary and an empty table still give the five fixed items. */
  lemma EmptyReport(topic: string, generated: string, upper: string -> string)
    ensures Layout(topic, Some(""), [], generated, upper)
         == [ Cell(Title(topic, upper)), Cell(GeneratedLabel + generated), Cell(SummaryHeader),
              MultiCell(""), Cell(HeadlinesHeader) ]
    ensures Layout(topic, None, [], generated, upper) == Layout(topic, Some(""), [], generated, upper)
  {
  }

  /** With the ASCII upper-casing and an ASCII topic, where it agrees with `str.upper`, the title carries the upper-cased topic verbatim. */
  lemma AsciiTitle(topic: string)
    requires Casing.AllAscii(topic)
    ensures Title(topic, Casing.AsciiUpper) == Banner + Casing.AsciiUpper(topic)
  {
    TitleParts(topic, Casing.AsciiUpper);
    Casing.AsciiIsLatin1(topic);
    Casing.AsciiUpperKeepsLatin1(topic);
    CleanFixesExactlyLatin1(Casing.AsciiUpper(topic));
  }
}
