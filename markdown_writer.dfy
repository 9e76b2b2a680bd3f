// The Markdown report (save_to_markdown in src/reporting/markdown_writer.py):
// each content item becomes one paragraph followed by a blank line; titles,
// section headings and subheadings are marked with "## ". The file is the
// returned string; opening and writing it is not modelled.

module MarkdownWriter {
  import opened Util
  import opened Content
  import Config

  /** The item types written as Markdown headings. */
  const HeadingTypes: set<string> := {"title", "sectionHeading", "subheading"}

  /** The marker in front of a heading's text. */
  const Marker: string := "## "

  function Paragraph(item: ContentItem): string {
    if item.kind in HeadingTypes then Marker + item.text + "\n\n" else item.text + "\n\n"
  }

  /** The paragraphs of the items, in order. */
  function Paragraphs(items: seq<ContentItem>): seq<string> {
    seq(|items|, i requires 0 <= i < |items| => Paragraph(items[i]))
  }

  /** The whole document. */
  function Markdown(items: seq<ContentItem>): string {
    Flatten(Paragraphs(items))
  }

  /** The heading types are the structural roles of the configuration. */
  lemma HeadingTypesAreStructural()
    ensures HeadingTypes == Config.Default.structuralRoles
  {
  }

  /**
   * A paragraph gives its item back: the text sits between the marker (for
   * a heading) and the closing blank line.
   */
  lemma ParagraphText(item: ContentItem)
    ensures var p := Paragraph(item);
      var start := if item.kind in HeadingTypes then |Marker| else 0;
      && start + |item.text| + 2 == |p|
      && p[start..|p| - 2] == item.text
      && p[|p| - 2..] == "\n\n"
      && (item.kind in HeadingTypes ==> p[..start] == Marker)
  {
  }

  lemma MarkdownSnoc(items: seq<ContentItem>, x: ContentItem)
    ensures Markdown(items + [x]) == Markdown(items) + Paragraph(x)
  {
    assert Paragraphs(items + [x]) == Paragraphs(items) + [Paragraph(x)];
    FlattenSnoc(Paragraphs(items), Paragraph(x));
  }

  /** The document of two item lists is the two documents one after the other. */
  lemma MarkdownAppend(a: seq<ContentItem>, b: seq<ContentItem>)
    ensures Markdown(a + b) == Markdown(a) + Markdown(b)
  {
    assert Paragraphs(a + b) == Paragraphs(a) + Paragraphs(b);
    FlattenAppend(Paragraphs(a), Paragraphs(b));
  }

  /** The length: every item's text, two newlines each, and three characters per heading marker. */
  function HeadingCount(items: seq<ContentItem>): nat {
    if items == [] then 0
    else HeadingCount(items[..|items| - 1]) + if items[|items| - 1].kind in HeadingTypes then 1 else 0
  }

  function TextLength(items: seq<ContentItem>): nat {
    if items == [] then 0 else TextLength(items[..|items| - 1]) + |items[|items| - 1].text|
  }

  lemma {:induction false} MarkdownLength(items: seq<ContentItem>)
    ensures |Markdown(items)| == TextLength(items) + 2 * |items| + 3 * HeadingCount(items)
  {
    if items != [] {
      var n := |items| - 1;
      MarkdownLength(items[..n]);
      assert items == items[..n] + [items[n]];
      MarkdownSnoc(items[..n], items[n]);
    }
  }

  /** save_to_markdown: the paragraphs written one after another. */
  method SaveToMarkdown(content: seq<ContentItem>) returns (text: string)
    ensures text == Markdown(content)
  {
    text := "";
    for k := 0 to |content|
      invariant text == Markdown(content[..k])
    {
      assert content[..k + 1] == content[..k] + [content[k]];
      MarkdownSnoc(content[..k], content[k]);
      var item := content[k];
      if item.kind in HeadingTypes {
        text := text + ("## " + item.text + "\n\n");
      } else {
        text := text + (item.text + "\n\n");
      }
    }
    assert content[..|content|] == content;
  }
}
