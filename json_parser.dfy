// Segment reconstruction from an Azure Document Intelligence analysis
// (src/processing/json_parser.py): key validation, the offset -> page lookup,
// the first pass that filters paragraph records into segments, and the
// forward stitching pass that merges fragments into paragraphs.

module JsonParser {
  import opened Util
  import opened Text
  import opened Content
  import opened Config

  /** A character range of the analysed text. */
  datatype Span = Span(offset: nat, length: nat)

  /** A paragraph record; `role` is None when the record has no 'role' key. */
  datatype Paragraph = Paragraph(role: Option<string>, spans: seq<Span>)

  datatype Page = Page(pageNumber: int, spans: seq<Span>)

  /** The 'analyzeResult' object; a key absent from the JSON is None. */
  datatype AnalyzeResult = AnalyzeResult(
    content: Option<string>,
    paragraphs: Option<seq<Paragraph>>,
    pages: Option<seq<Page>>)

  /** The loaded JSON document; None when it has no 'analyzeResult' key. */
  datatype Document = Document(analyzeResult: Option<AnalyzeResult>)

  /** The ValueError raised for a missing key, naming the key. */
  datatype Error = MissingKey(key: string)

  datatype Fields = Fields(content: string, paragraphs: seq<Paragraph>, pages: seq<Page>)

  /** The keys read, in the order the source reads them. */
  const RequiredKeys: seq<string> := ["analyzeResult", "content", "paragraphs", "pages"]

  predicate HasKey(doc: Document, key: string) {
    match doc.analyzeResult
    case None => false
    case Some(ar) =>
      key == "analyzeResult"
      || (key == "content" && ar.content.Some?)
      || (key == "paragraphs" && ar.paragraphs.Some?)
      || (key == "pages" && ar.pages.Some?)
  }

  /** Reads content, paragraphs and pages, or names the first key that is missing. */
  function ReadFields(doc: Document): (r: Result<Fields, Error>)
    ensures r.Ok? <==> forall k :: 0 <= k < |RequiredKeys| ==> HasKey(doc, RequiredKeys[k])
    ensures r.Ok? ==> doc.analyzeResult == Some(AnalyzeResult(
      Some(r.value.content), Some(r.value.paragraphs), Some(r.value.pages)))
    ensures r.Err? ==> exists k :: (0 <= k < |RequiredKeys| && r.error.key == RequiredKeys[k]
      && !HasKey(doc, RequiredKeys[k]) && forall k' :: 0 <= k' < k ==> HasKey(doc, RequiredKeys[k']))
  {
    match doc.analyzeResult
    case None =>
      assert !HasKey(doc, RequiredKeys[0]);
      Err(MissingKey("analyzeResult"))
    case Some(ar) =>
      assert HasKey(doc, RequiredKeys[0]);
      if ar.content.None? then
        assert !HasKey(doc, RequiredKeys[1]);
        Err(MissingKey("content"))
      else if ar.paragraphs.None? then
        assert HasKey(doc, RequiredKeys[1]) && !HasKey(doc, RequiredKeys[2]);
        Err(MissingKey("paragraphs"))
      else if ar.pages.None? then
        assert HasKey(doc, RequiredKeys[1]) && HasKey(doc, RequiredKeys[2]) && !HasKey(doc, RequiredKeys[3]);
        Err(MissingKey("pages"))
      else Ok(Fields(ar.content.value, ar.paragraphs.value, ar.pages.value))
  }

  // ---------------------------------------------------------------------
  // Page lookup

  predicate Covers(sp: Span, i: int) {
    sp.offset <= i < sp.offset + sp.length
  }

  predicate SpansCover(spans: seq<Span>, i: int)
    ensures SpansCover(spans, i) <==> exists k :: 0 <= k < |spans| && Covers(spans[k], i)
  {
    spans != [] && (SpansCover(spans[..|spans| - 1], i) || Covers(spans[|spans| - 1], i))
  }

  /** The number of the last page one of whose spans covers offset i (later pages overwrite earlier ones). */
  function PageAt(pages: seq<Page>, i: int): (r: Option<int>)
    ensures r.None? <==> forall k :: 0 <= k < |pages| ==> !SpansCover(pages[k].spans, i)
    ensures r.Some? ==> exists k :: (0 <= k < |pages| && SpansCover(pages[k].spans, i)
      && pages[k].pageNumber == r.value
      && forall k' :: k < k' < |pages| ==> !SpansCover(pages[k'].spans, i))
  {
    if pages == [] then None
    else
      var last := |pages| - 1;
      if SpansCover(pages[last].spans, i) then Some(pages[last].pageNumber)
      else
        var r := PageAt(pages[..last], i);
        assert forall k :: 0 <= k < last ==> pages[..last][k] == pages[k];
        r
  }

  lemma SpansCoverNext(spans: seq<Span>, s: nat, i: int)
    requires s < |spans|
    ensures SpansCover(spans[..s + 1], i) <==> SpansCover(spans[..s], i) || Covers(spans[s], i)
  {
    assert spans[..s + 1][..s] == spans[..s];
  }

  lemma PageAtNext(pages: seq<Page>, p: nat, i: int)
    requires p < |pages|
    ensures PageAt(pages[..p + 1], i) == if SpansCover(pages[p].spans, i) then Some(pages[p].pageNumber) else PageAt(pages[..p], i)
  {
    assert pages[..p + 1][..p] == pages[..p];
  }

  /** The innermost loop: every offset of the span is assigned the page number. */
  method FillSpan(lookup: map<int, int>, span: Span, pageNumber: int) returns (out: map<int, int>)
    ensures forall i :: i in out <==> i in lookup || Covers(span, i)
    ensures forall i :: i in out ==> out[i] == if Covers(span, i) then pageNumber else lookup[i]
  {
    out := lookup;
    for k := span.offset to span.offset + span.length
      invariant forall i :: i in out <==> i in lookup || span.offset <= i < k
      invariant forall i :: i in out ==> out[i] == if span.offset <= i < k then pageNumber else lookup[i]
    {
      out := out[k := pageNumber];
    }
  }

  /** The loop over one page's spans: every offset a span covers is assigned the page number. */
  method FillPage(lookup: map<int, int>, page: Page) returns (out: map<int, int>)
    ensures forall i :: i in out <==> i in lookup || SpansCover(page.spans, i)
    ensures forall i :: i in out ==> out[i] == if SpansCover(page.spans, i) then page.pageNumber else lookup[i]
  {
    out := lookup;
    for s := 0 to |page.spans|
      invariant forall i :: i in out <==> i in lookup || SpansCover(page.spans[..s], i)
      invariant forall i :: i in out ==> out[i] == if SpansCover(page.spans[..s], i) then page.pageNumber else lookup[i]
    {
      forall i {
        SpansCoverNext(page.spans, s, i);
      }
      out := FillSpan(out, page.spans[s], page.pageNumber);
    }
    assert page.spans[..|page.spans|] == page.spans;
  }

  /** The page_lookup dictionary, filled offset by offset. */
  method BuildPageLookup(pages: seq<Page>) returns (lookup: map<int, int>)
    ensures forall i :: i in lookup <==> PageAt(pages, i).Some?
    ensures forall i :: i in lookup ==> lookup[i] == PageAt(pages, i).value
  {
    lookup := map[];
    for p := 0 to |pages|
      invariant forall i :: i in lookup <==> PageAt(pages[..p], i).Some?
      invariant forall i :: i in lookup ==> lookup[i] == PageAt(pages[..p], i).value
    {
      forall i {
        PageAtNext(pages, p, i);
      }
      lookup := FillPage(lookup, pages[p]);
    }
    assert pages[..|pages|] == pages;
  }

  // ---------------------------------------------------------------------
  // First pass: paragraph records to segments

  /** p.get('role', 'paragraph') */
  function RoleOf(p: Paragraph): string {
    p.role.GetOr("paragraph")
  }

  /** Python's s[a:b] for 0 <= a <= b: indices past the end are clamped. */
  function Slice(s: string, a: nat, b: nat): string
    requires a <= b
  {
    if a >= |s| then [] else s[a..if b <= |s| then b else |s|]
  }

  /** The text of a record's first span, stripped. */
  function FirstSpanText(content: string, p: Paragraph): string
    requires p.spans != []
  {
    Strip(Slice(content, p.spans[0].offset, p.spans[0].offset + p.spans[0].length))
  }

  /** The segment a paragraph record yields, if any. */
  function SegmentOf(content: string, pages: seq<Page>, ignored: set<string>, p: Paragraph): (r: Option<ContentItem>)
    ensures RoleOf(p) in ignored ==> r.None?
    ensures p.spans == [] ==> r.None?
    ensures RoleOf(p) !in ignored && p.spans != [] ==> (r.None? <==> AllSpace(
      Slice(content, p.spans[0].offset, p.spans[0].offset + p.spans[0].length)))
    ensures r.Some? ==> (r.value.text != [] && IsStripped(r.value.text)
      && r.value.text == FirstSpanText(content, p)
      && r.value.kind == RoleOf(p)
      && r.value.page == PageAt(pages, p.spans[0].offset).GetOr(0))
  {
    var role := RoleOf(p);
    if role in ignored || p.spans == [] then None
    else
      var text := FirstSpanText(content, p);
      if text == [] then None
      else Some(ContentItem(text, role, PageAt(pages, p.spans[0].offset).GetOr(0)))
  }

  /** The segments of the first pass, in record order. */
  function Segments(content: string, pages: seq<Page>, ignored: set<string>, ps: seq<Paragraph>): (segs: seq<ContentItem>)
    ensures |segs| <= |ps|
    ensures forall k :: 0 <= k < |segs| ==> segs[k].text != [] && IsStripped(segs[k].text) && segs[k].kind !in ignored
  {
    if ps == [] then []
    else
      var init := Segments(content, pages, ignored, ps[..|ps| - 1]);
      match SegmentOf(content, pages, ignored, ps[|ps| - 1])
      case None => init
      case Some(seg) => init + [seg]
  }

  lemma SegmentsSnoc(content: string, pages: seq<Page>, ignored: set<string>, ps: seq<Paragraph>, n: nat)
    requires n < |ps|
    ensures SegmentOf(content, pages, ignored, ps[n]).None? ==>
      Segments(content, pages, ignored, ps[..n + 1]) == Segments(content, pages, ignored, ps[..n])
    ensures SegmentOf(content, pages, ignored, ps[n]).Some? ==>
      Segments(content, pages, ignored, ps[..n + 1])
      == Segments(content, pages, ignored, ps[..n]) + [SegmentOf(content, pages, ignored, ps[n]).value]
  {
    assert ps[..n + 1][..n] == ps[..n];
  }

  method FilterSegments(content: string, paragraphs: seq<Paragraph>, lookup: map<int, int>,
                        ghost pages: seq<Page>, ignored: set<string>) returns (segs: seq<ContentItem>)
    requires forall i :: i in lookup <==> PageAt(pages, i).Some?
    requires forall i :: i in lookup ==> lookup[i] == PageAt(pages, i).value
    ensures segs == Segments(content, pages, ignored, paragraphs)
  {
    segs := [];
    for n := 0 to |paragraphs|
      invariant segs == Segments(content, pages, ignored, paragraphs[..n])
    {
      var p := paragraphs[n];
      var role := RoleOf(p);
      SegmentsSnoc(content, pages, ignored, paragraphs, n);
      if role in ignored {
        assert SegmentOf(content, pages, ignored, p).None?;
        continue;
      }
      if p.spans != [] {
        var offset := p.spans[0].offset;
        var text := FirstSpanText(content, p);
        var pageNumber := if offset in lookup then lookup[offset] else 0;
        assert pageNumber == PageAt(pages, offset).GetOr(0);
        if text != [] {
          assert SegmentOf(content, pages, ignored, p) == Some(ContentItem(text, role, pageNumber));
          segs := segs + [ContentItem(text, role, pageNumber)];
        } else {
          assert SegmentOf(content, pages, ignored, p).None?;
        }
      } else {
        assert SegmentOf(content, pages, ignored, p).None?;
      }
    }
    assert paragraphs[..|paragraphs|] == paragraphs;
  }

  // ---------------------------------------------------------------------
  // Second pass: stitching

  /** A stitched paragraph item. */
  function Flushed(text: string, page: int): ContentItem {
    ContentItem(text, "paragraph", page)
  }

  /** The loop state: items emitted so far, the stitch buffer and its page. */
  datatype StitchState = StitchState(done: seq<ContentItem>, buffer: string, page: int)

  /** One iteration of the stitching loop on segs[i]. */
  function Step(segs: seq<ContentItem>, i: nat, st: StitchState, structural: set<string>): StitchState
    requires i < |segs|
  {
    var seg := segs[i];
    var buffer := if st.buffer == [] then seg.text else st.buffer;
    var page := if st.buffer == [] then seg.page else st.page;
    if seg.kind in structural then
      StitchState(st.done + (if buffer != seg.text then [Flushed(buffer, page)] else []) + [seg], [], page)
    else if i > 0 && EndsWithTerminal(segs[i - 1].text) then
      StitchState(st.done + [Flushed(buffer, page)], seg.text, seg.page)
    else if buffer != seg.text then
      StitchState(st.done, buffer + " " + seg.text, page)
    else
      StitchState(st.done, buffer, page)
  }

  /** The loop state after the first n segments. */
  function Run(segs: seq<ContentItem>, n: nat, structural: set<string>): StitchState
    requires n <= |segs|
  {
    if n == 0 then StitchState([], [], 0)
    else Step(segs, n - 1, Run(segs, n - 1, structural), structural)
  }

  /** The stitched content: the loop's items and then the non-empty remaining buffer. */
  function Stitched(segs: seq<ContentItem>, structural: set<string>): seq<ContentItem> {
    var st := Run(segs, |segs|, structural);
    st.done + (if st.buffer != [] then [Flushed(st.buffer, st.page)] else [])
  }

  method Stitch(segs: seq<ContentItem>, structural: set<string>) returns (content: seq<ContentItem>)
    ensures content == Stitched(segs, structural)
  {
    content := [];
    var stitched: string := [];
    var page := 0;
    for i := 0 to |segs|
      invariant StitchState(content, stitched, page) == Run(segs, i, structural)
    {
      var seg := segs[i];
      if stitched == [] {
        stitched := seg.text;
        page := seg.page;
      }
      if seg.kind in structural {
        if stitched != seg.text {
          content := content + [Flushed(stitched, page)];
        }
        content := content + [seg];
        stitched := [];
        continue;
      }
      if i > 0 && EndsWithTerminal(segs[i - 1].text) {
        content := content + [Flushed(stitched, page)];
        stitched := seg.text;
        page := seg.page;
      } else if stitched != seg.text {
        stitched := stitched + " " + seg.text;
      }
    }
    if stitched != [] {
      content := content + [Flushed(stitched, page)];
    }
  }

  /** process_document_json on an already loaded document. */
  method ProcessDocument(doc: Document, settings: Settings) returns (r: Result<seq<ContentItem>, Error>)
    ensures ReadFields(doc).Err? ==> r == Err(ReadFields(doc).error)
    ensures ReadFields(doc).Ok? ==> r.Ok? && var f := ReadFields(doc).value;
      r.value == Stitched(Segments(f.content, f.pages, settings.ignoredRoles, f.paragraphs), settings.structuralRoles)
  {
    var fields := ReadFields(doc);
    if fields.Err? {
      return Err(fields.error);
    }
    var f := fields.value;
    var lookup := BuildPageLookup(f.pages);
    var segs := FilterSegments(f.content, f.paragraphs, lookup, f.pages, settings.ignoredRoles);
    var stitched := Stitch(segs, settings.structuralRoles);
    return Ok(stitched);
  }

  // ---------------------------------------------------------------------
  // Properties of the stitching pass

  /** The texts of the segments at the given indices. */
  function TextsAt(segs: seq<ContentItem>, frags: seq<nat>): (r: seq<string>)
    requires forall j :: 0 <= j < |frags| ==> frags[j] < |segs|
    ensures |r| == |frags| && forall j :: 0 <= j < |frags| ==> r[j] == segs[frags[j]].text
  {
    seq(|frags|, j requires 0 <= j < |frags| => segs[frags[j]].text)
  }

  /** The texts of the segments at the given indices, joined by single spaces. */
  function JoinAt(segs: seq<ContentItem>, frags: seq<nat>): string
    requires forall j :: 0 <= j < |frags| ==> frags[j] < |segs|
  {
    Join(" ", TextsAt(segs, frags))
  }

  /** The indices of an increasing list that are smaller than q. */
  function Before(frags: seq<nat>, q: nat): (r: seq<nat>)
    ensures |r| <= |frags| && r == frags[..|r|]
  {
    if frags == [] then []
    else if frags[|frags| - 1] < q then frags
    else Before(frags[..|frags| - 1], q)
  }

  /** Increasing indices of non-structural segments, none after `last`. */
  ghost predicate RunIndices(segs: seq<ContentItem>, structural: set<string>, frags: seq<nat>, last: nat) {
    && frags != [] && last < |segs|
    && (forall j :: 0 <= j < |frags| ==> frags[j] <= last && segs[frags[j]].kind !in structural)
    && (forall i, j :: 0 <= i < j < |frags| ==> frags[i] < frags[j])
  }

  /** From `first` to `last` no sentence ends before a segment and no segment is structural. */
  ghost predicate RunContinues(segs: seq<ContentItem>, structural: set<string>, first: nat, last: nat)
    requires last < |segs|
  {
    && (forall q :: first <= q < last ==> !EndsWithTerminal(segs[q].text))
    && (forall q :: first < q <= last ==> segs[q].kind !in structural)
  }

  /** Up to `last`, a segment after the first fragment that is not a fragment repeats the text stitched before it. */
  ghost predicate RunSkips(segs: seq<ContentItem>, frags: seq<nat>, last: nat)
    requires frags != [] && forall j :: 0 <= j < |frags| ==> frags[j] < |segs|
    requires last < |segs|
  {
    forall q :: frags[0] < q <= last && q !in frags ==> segs[q].text == JoinAt(segs, Before(frags, q))
  }

  /**
   * The segments at `frags`, in increasing order, were stitched into one
   * paragraph, and so was everything after the first of them up to `last`:
   * no structural segment, no predecessor ending a sentence, and a segment
   * that is not in `frags` repeats the text stitched before it and is skipped.
   */
  ghost predicate FragmentRun(segs: seq<ContentItem>, structural: set<string>, frags: seq<nat>, last: nat) {
    && RunIndices(segs, structural, frags, last)
    && RunContinues(segs, structural, frags[0], last)
    && RunSkips(segs, frags, last)
  }

  /** Where an emitted item comes from: a structural segment passed through, or stitched fragments. */
  datatype Origin = Passed(index: nat) | Joined(frags: seq<nat>)

  /** The item is what its origin says: the segment itself, or the fragments joined, on the first one's page. */
  ghost predicate OriginHolds(segs: seq<ContentItem>, structural: set<string>, o: Origin, it: ContentItem) {
    match o
    case Passed(i) => i < |segs| && segs[i].kind in structural && it == segs[i]
    case Joined(frags) =>
      && frags != []
      && FragmentRun(segs, structural, frags, frags[|frags| - 1])
      && it == Flushed(JoinAt(segs, frags), segs[frags[0]].page)
  }

  /** The origins of the emitted items and the fragments in the buffer, after the first n segments. */
  datatype Trace = Trace(origins: seq<Origin>, frags: seq<nat>)

  /** The trace of one stitching step on segs[i], mirroring Step. */
  ghost function TraceStep(segs: seq<ContentItem>, i: nat, st: StitchState, tr: Trace, structural: set<string>): Trace
    requires i < |segs|
  {
    var seg := segs[i];
    var buffer := if st.buffer == [] then seg.text else st.buffer;
    var frags := if st.buffer == [] then [i] else tr.frags;
    if seg.kind in structural then
      Trace(tr.origins + (if buffer != seg.text then [Joined(frags)] else []) + [Passed(i)], [])
    else if i > 0 && EndsWithTerminal(segs[i - 1].text) then
      Trace(tr.origins + [Joined(frags)], [i])
    else if buffer != seg.text then
      Trace(tr.origins, frags + [i])
    else
      Trace(tr.origins, frags)
  }

  ghost function Traced(segs: seq<ContentItem>, n: nat, structural: set<string>): Trace
    requires n <= |segs|
  {
    if n == 0 then Trace([], [])
    else TraceStep(segs, n - 1, Run(segs, n - 1, structural), Traced(segs, n - 1, structural), structural)
  }

  /**
   * A structural segment comes right after the paragraph its step flushed:
   * the buffer pending before it, unless that buffer was empty or equal to the
   * segment's text.
   */
  ghost predicate FlushedBefore(segs: seq<ContentItem>, structural: set<string>, origins: seq<Origin>,
                                items: seq<ContentItem>, k: nat)
    requires k < |origins| == |items|
  {
    match origins[k]
    case Joined(_) => true
    case Passed(i) =>
      i < |segs| &&
      var st := Run(segs, i, structural);
      st.buffer != [] && st.buffer != segs[i].text ==> 0 < k && items[k - 1] == Flushed(st.buffer, st.page)
  }

  /** Every item is what its origin says, and every structural item follows its step's flush. */
  ghost predicate AllHold(segs: seq<ContentItem>, structural: set<string>, origins: seq<Origin>, items: seq<ContentItem>) {
    && |origins| == |items|
    && (forall k :: 0 <= k < |origins| ==> OriginHolds(segs, structural, origins[k], items[k]))
    && (forall k :: 0 <= k < |origins| ==> FlushedBefore(segs, structural, origins, items, k))
  }

  lemma AllHoldSnoc(segs: seq<ContentItem>, structural: set<string>, origins: seq<Origin>, items: seq<ContentItem>,
                    o: Origin, it: ContentItem)
    requires AllHold(segs, structural, origins, items)
    requires OriginHolds(segs, structural, o, it)
    requires FlushedBefore(segs, structural, origins + [o], items + [it], |origins|)
    ensures AllHold(segs, structural, origins + [o], items + [it])
  {
    var os := origins + [o];
    var its := items + [it];
    forall k | 0 <= k < |os|
      ensures OriginHolds(segs, structural, os[k], its[k])
      ensures FlushedBefore(segs, structural, os, its, k)
    {
      if k < |origins| {
        assert os[k] == origins[k] && its[k] == items[k];
        assert FlushedBefore(segs, structural, origins, items, k);
        if k > 0 {
          assert its[k - 1] == items[k - 1];
        }
      }
    }
  }

  /** The buffer holds the texts of its fragments joined, on the first one's page. */
  ghost predicate BufferKept(segs: seq<ContentItem>, structural: set<string>, n: nat, st: StitchState, tr: Trace) {
    && (st.buffer == [] <==> tr.frags == [])
    && (tr.frags != [] ==>
          0 < n && FragmentRun(segs, structural, tr.frags, n - 1)
          && st.buffer == JoinAt(segs, tr.frags) && st.page == segs[tr.frags[0]].page)
  }

  /** The items hold their origins and the buffer its fragments. */
  ghost predicate TraceKept(segs: seq<ContentItem>, structural: set<string>, n: nat, st: StitchState, tr: Trace) {
    AllHold(segs, structural, tr.origins, st.done) && BufferKept(segs, structural, n, st, tr)
  }

  lemma JoinAtSnoc(segs: seq<ContentItem>, frags: seq<nat>, i: nat)
    requires frags != [] && i < |segs| && forall j :: 0 <= j < |frags| ==> frags[j] < |segs|
    ensures JoinAt(segs, frags + [i]) == JoinAt(segs, frags) + " " + segs[i].text
  {
    var t := TextsAt(segs, frags + [i]);
    assert t[..|t| - 1] == TextsAt(segs, frags);
  }

  lemma BeforeSnoc(frags: seq<nat>, i: nat, q: nat)
    requires q <= i
    ensures Before(frags + [i], q) == Before(frags, q)
  {
    assert (frags + [i])[..|frags|] == frags;
  }

  /** A run narrowed to end at its last fragment. */
  lemma FragmentRunNarrow(segs: seq<ContentItem>, structural: set<string>, frags: seq<nat>, last: nat)
    requires FragmentRun(segs, structural, frags, last)
    ensures FragmentRun(segs, structural, frags, frags[|frags| - 1])
  {
  }

  lemma RunContinuesNext(segs: seq<ContentItem>, structural: set<string>, first: nat, i: nat)
    requires first < i < |segs| && RunContinues(segs, structural, first, i - 1)
    requires segs[i].kind !in structural && !EndsWithTerminal(segs[i - 1].text)
    ensures RunContinues(segs, structural, first, i)
  {
  }

  /** Segment i, continuing the run, is stitched onto it. */
  lemma FragmentRunAppend(segs: seq<ContentItem>, structural: set<string>, frags: seq<nat>, i: nat)
    requires 0 < i < |segs| && FragmentRun(segs, structural, frags, i - 1)
    requires segs[i].kind !in structural && !EndsWithTerminal(segs[i - 1].text)
    ensures FragmentRun(segs, structural, frags + [i], i)
  {
    var f := frags + [i];
    assert f[0] == frags[0];
    forall j | 0 <= j < |f| ensures f[j] <= i && segs[f[j]].kind !in structural {
      if j < |frags| {
        assert f[j] == frags[j];
      }
    }
    forall a, b | 0 <= a < b < |f| ensures f[a] < f[b] {
      assert f[a] == frags[a];
      if b < |frags| {
        assert f[b] == frags[b];
      }
    }
    assert RunIndices(segs, structural, f, i);
    RunContinuesNext(segs, structural, frags[0], i);
    forall q | f[0] < q <= i && q !in f ensures segs[q].text == JoinAt(segs, Before(f, q)) {
      BeforeSnoc(frags, i, q);
      assert q !in frags;
    }
    assert RunSkips(segs, f, i);
  }

  /** Segment i, continuing the run, repeats the buffer and is skipped. */
  lemma FragmentRunSkip(segs: seq<ContentItem>, structural: set<string>, frags: seq<nat>, i: nat)
    requires 0 < i < |segs| && FragmentRun(segs, structural, frags, i - 1)
    requires segs[i].kind !in structural && !EndsWithTerminal(segs[i - 1].text)
    requires segs[i].text == JoinAt(segs, frags)
    ensures FragmentRun(segs, structural, frags, i)
  {
    assert RunIndices(segs, structural, frags, i);
    RunContinuesNext(segs, structural, frags[0], i);
    assert frags[|frags| - 1] < i;
    assert Before(frags, i) == frags;
    assert RunSkips(segs, frags, i);
  }

  lemma JoinAtNonEmpty(segs: seq<ContentItem>, frags: seq<nat>)
    requires frags != [] && forall j :: 0 <= j < |frags| ==> frags[j] < |segs| && segs[frags[j]].text != []
    ensures JoinAt(segs, frags) != []
  {
  }

  /** The buffer as the step sees it: the segment's text when empty, with the fragments behind it. */
  lemma StepBuffer(segs: seq<ContentItem>, i: nat, structural: set<string>, st: StitchState, tr: Trace)
    requires i < |segs| && forall k :: 0 <= k < |segs| ==> segs[k].text != []
    requires BufferKept(segs, structural, i, st, tr)
    ensures var frags := if st.buffer == [] then [i] else tr.frags;
      && (st.buffer != [] ==> FragmentRun(segs, structural, frags, i - 1))
      && (st.buffer != [] || segs[i].kind !in structural ==> FragmentRun(segs, structural, frags, frags[|frags| - 1]))
      && (if st.buffer == [] then segs[i].text else st.buffer) == JoinAt(segs, frags)
      && (if st.buffer == [] then segs[i].page else st.page) == segs[frags[0]].page
  {
    if st.buffer != [] {
      FragmentRunNarrow(segs, structural, tr.frags, i - 1);
    } else {
      assert JoinAt(segs, [i]) == segs[i].text;
    }
  }

  /** A structural segment after a buffer that differs from it: the buffer is flushed, then the segment emitted. */
  lemma StepTraceFlushStructural(segs: seq<ContentItem>, i: nat, structural: set<string>, st: StitchState, tr: Trace)
    requires i < |segs| && forall k :: 0 <= k < |segs| ==> segs[k].text != []
    requires st == Run(segs, i, structural) && TraceKept(segs, structural, i, st, tr)
    requires segs[i].kind in structural && st.buffer != [] && st.buffer != segs[i].text
    ensures TraceKept(segs, structural, i + 1, Step(segs, i, st, structural), TraceStep(segs, i, st, tr, structural))
  {
    var seg := segs[i];
    StepBuffer(segs, i, structural, st, tr);
    var f := Flushed(st.buffer, st.page);
    var os := tr.origins + [Joined(tr.frags)];
    var its := st.done + [f];
    assert OriginHolds(segs, structural, Joined(tr.frags), f);
    assert FlushedBefore(segs, structural, os, its, |tr.origins|);
    AllHoldSnoc(segs, structural, tr.origins, st.done, Joined(tr.frags), f);
    assert FlushedBefore(segs, structural, os + [Passed(i)], its + [seg], |os|);
    AllHoldSnoc(segs, structural, os, its, Passed(i), seg);
    assert TraceStep(segs, i, st, tr, structural) == Trace(os + [Passed(i)], []);
    assert Step(segs, i, st, structural) == StitchState(its + [seg], [], st.page);
  }

  /** A structural segment: the flush, if any, and the segment are emitted, and the buffer is emptied. */
  lemma StepTraceStructural(segs: seq<ContentItem>, i: nat, structural: set<string>, st: StitchState, tr: Trace)
    requires i < |segs| && forall k :: 0 <= k < |segs| ==> segs[k].text != []
    requires st == Run(segs, i, structural) && TraceKept(segs, structural, i, st, tr)
    requires segs[i].kind in structural
    ensures TraceKept(segs, structural, i + 1, Step(segs, i, st, structural), TraceStep(segs, i, st, tr, structural))
  {
    var seg := segs[i];
    if st.buffer != [] && st.buffer != seg.text {
      StepTraceFlushStructural(segs, i, structural, st, tr);
    } else {
      StepTracePassStructural(segs, i, structural, st, tr);
    }
  }

  /** A structural segment equal to the buffer, or after an empty one, is emitted alone. */
  lemma StepTracePassStructural(segs: seq<ContentItem>, i: nat, structural: set<string>, st: StitchState, tr: Trace)
    requires i < |segs| && forall k :: 0 <= k < |segs| ==> segs[k].text != []
    requires st == Run(segs, i, structural) && TraceKept(segs, structural, i, st, tr)
    requires segs[i].kind in structural && (st.buffer == [] || st.buffer == segs[i].text)
    ensures TraceKept(segs, structural, i + 1, Step(segs, i, st, structural), TraceStep(segs, i, st, tr, structural))
  {
    var seg := segs[i];
    var page := if st.buffer == [] then seg.page else st.page;
    var os := tr.origins + [Passed(i)];
    var its := st.done + [seg];
    assert FlushedBefore(segs, structural, os, its, |tr.origins|);
    AllHoldSnoc(segs, structural, tr.origins, st.done, Passed(i), seg);
    assert TraceStep(segs, i, st, tr, structural) == Trace(os, []);
    assert Step(segs, i, st, structural) == StitchState(its, [], page);
  }

  /** After a segment ending a sentence, the buffer is flushed and restarted with segment i. */
  lemma StepTraceBoundary(segs: seq<ContentItem>, i: nat, structural: set<string>, st: StitchState, tr: Trace)
    requires i < |segs| && forall k :: 0 <= k < |segs| ==> segs[k].text != []
    requires TraceKept(segs, structural, i, st, tr)
    requires segs[i].kind !in structural && i > 0 && EndsWithTerminal(segs[i - 1].text)
    ensures TraceKept(segs, structural, i + 1, Step(segs, i, st, structural), TraceStep(segs, i, st, tr, structural))
  {
    var seg := segs[i];
    var buffer := if st.buffer == [] then seg.text else st.buffer;
    var page := if st.buffer == [] then seg.page else st.page;
    var frags := if st.buffer == [] then [i] else tr.frags;
    StepBuffer(segs, i, structural, st, tr);
    var f := Flushed(buffer, page);
    assert OriginHolds(segs, structural, Joined(frags), f);
    assert FlushedBefore(segs, structural, tr.origins + [Joined(frags)], st.done + [f], |tr.origins|);
    AllHoldSnoc(segs, structural, tr.origins, st.done, Joined(frags), f);
    assert TraceStep(segs, i, st, tr, structural) == Trace(tr.origins + [Joined(frags)], [i]);
    assert Step(segs, i, st, structural) == StitchState(st.done + [f], seg.text, seg.page);
    assert JoinAt(segs, [i]) == seg.text;
  }

  /** Otherwise segment i is stitched on, or skipped when it repeats the buffer. */
  lemma StepTraceContinue(segs: seq<ContentItem>, i: nat, structural: set<string>, st: StitchState, tr: Trace)
    requires i < |segs| && forall k :: 0 <= k < |segs| ==> segs[k].text != []
    requires TraceKept(segs, structural, i, st, tr)
    requires segs[i].kind !in structural && !(i > 0 && EndsWithTerminal(segs[i - 1].text))
    ensures TraceKept(segs, structural, i + 1, Step(segs, i, st, structural), TraceStep(segs, i, st, tr, structural))
  {
    var seg := segs[i];
    StepBuffer(segs, i, structural, st, tr);
    if st.buffer == [] {
      assert TraceStep(segs, i, st, tr, structural) == Trace(tr.origins, [i]);
      assert Step(segs, i, st, structural) == StitchState(st.done, seg.text, seg.page);
    } else if st.buffer != seg.text {
      FragmentRunAppend(segs, structural, tr.frags, i);
      JoinAtSnoc(segs, tr.frags, i);
      assert (tr.frags + [i])[0] == tr.frags[0];
      assert TraceStep(segs, i, st, tr, structural) == Trace(tr.origins, tr.frags + [i]);
      assert Step(segs, i, st, structural) == StitchState(st.done, st.buffer + " " + seg.text, st.page);
    } else {
      FragmentRunSkip(segs, structural, tr.frags, i);
      assert TraceStep(segs, i, st, tr, structural) == Trace(tr.origins, tr.frags);
      assert Step(segs, i, st, structural) == st;
    }
  }

  lemma {:induction false} RunTrace(segs: seq<ContentItem>, n: nat, structural: set<string>)
    requires n <= |segs| && forall k :: 0 <= k < |segs| ==> segs[k].text != []
    ensures TraceKept(segs, structural, n, Run(segs, n, structural), Traced(segs, n, structural))
  {
    if n > 0 {
      RunTrace(segs, n - 1, structural);
      var i := n - 1;
      var st := Run(segs, i, structural);
      var tr := Traced(segs, i, structural);
      if segs[i].kind in structural {
        StepTraceStructural(segs, i, structural, st, tr);
      } else if i > 0 && EndsWithTerminal(segs[i - 1].text) {
        StepTraceBoundary(segs, i, structural, st, tr);
      } else {
        StepTraceContinue(segs, i, structural, st, tr);
      }
    }
  }

  /** The origins of the stitched items: the loop's, then the final flush's. */
  ghost function StitchedOrigins(segs: seq<ContentItem>, structural: set<string>): seq<Origin> {
    var st := Run(segs, |segs|, structural);
    var tr := Traced(segs, |segs|, structural);
    tr.origins + (if st.buffer != [] then [Joined(tr.frags)] else [])
  }

  /**
   * Every stitched item is a structural segment passed through unchanged, or
   * a 'paragraph' whose text is the texts of an increasing run of fragments
   * joined by single spaces, on the page of the first fragment; inside the
   * run no sentence ends and no structural segment occurs, and a segment left
   * out repeats the text stitched before it. A structural segment comes right
   * after the paragraph flushed by its step, unless the pending buffer was
   * empty or equal to the segment's text. The items come out in segment
   * order: each starts no earlier than the one before it, and strictly later
   * after a structural item.
   */
  lemma StitchedOrigin(segs: seq<ContentItem>, structural: set<string>)
    requires forall k :: 0 <= k < |segs| ==> segs[k].text != []
    ensures AllHold(segs, structural, StitchedOrigins(segs, structural), Stitched(segs, structural))
    ensures forall k :: 0 <= k < |Stitched(segs, structural)| ==> Stitched(segs, structural)[k].text != []
    ensures var os := StitchedOrigins(segs, structural);
      forall k, l :: 0 <= k < l < |os| ==>
        FirstIndex(os[k]) <= FirstIndex(os[l]) && (os[k].Passed? ==> FirstIndex(os[k]) < FirstIndex(os[l]))
  {
    StitchedHolds(segs, structural);
    StitchedInOrder(segs, structural);
    var os := StitchedOrigins(segs, structural);
    var out := Stitched(segs, structural);
    forall k | 0 <= k < |out| ensures out[k].text != [] {
      assert OriginHolds(segs, structural, os[k], out[k]);
      if os[k].Joined? {
        JoinAtNonEmpty(segs, os[k].frags);
      }
    }
  }

  lemma StitchedHolds(segs: seq<ContentItem>, structural: set<string>)
    requires forall k :: 0 <= k < |segs| ==> segs[k].text != []
    ensures AllHold(segs, structural, StitchedOrigins(segs, structural), Stitched(segs, structural))
  {
    RunTrace(segs, |segs|, structural);
    var st := Run(segs, |segs|, structural);
    var tr := Traced(segs, |segs|, structural);
    if st.buffer != [] {
      FragmentRunNarrow(segs, structural, tr.frags, |segs| - 1);
      var f := Flushed(st.buffer, st.page);
      assert OriginHolds(segs, structural, Joined(tr.frags), f);
      AllHoldSnoc(segs, structural, tr.origins, st.done, Joined(tr.frags), f);
    } else {
      assert StitchedOrigins(segs, structural) == tr.origins;
      assert Stitched(segs, structural) == st.done;
    }
  }

  /** The first segment an item was made from. */
  function FirstIndex(o: Origin): nat {
    match o
    case Passed(i) => i
    case Joined(frags) => if frags == [] then 0 else frags[0]
  }

  /** Origin o starts before position b, or at b when it is a paragraph (which may share its first fragment). */
  predicate StartsBy(o: Origin, b: nat) {
    if o.Passed? then FirstIndex(o) < b else FirstIndex(o) <= b
  }

  /** Each item starts by the start of the next, and the last by b. */
  predicate InOrder(os: seq<Origin>, b: nat)
    decreases |os|
  {
    os == [] || (StartsBy(os[|os| - 1], b) && InOrder(os[..|os| - 1], FirstIndex(os[|os| - 1])))
  }

  /** Where the next item can start after the first n segments: the buffer's first fragment, or n. */
  function NextStart(tr: Trace, n: nat): nat {
    if tr.frags == [] then n else tr.frags[0]
  }

  lemma InOrderRaise(os: seq<Origin>, b: nat, b': nat)
    requires InOrder(os, b) && b <= b'
    ensures InOrder(os, b')
  {
  }

  lemma InOrderSnoc(os: seq<Origin>, b: nat, o: Origin, b': nat)
    requires InOrder(os, b) && b <= FirstIndex(o) && StartsBy(o, b')
    ensures InOrder(os + [o], b')
  {
    InOrderRaise(os, b, FirstIndex(o));
    assert (os + [o])[..|os|] == os;
  }

  /** The chain gives the order between any two items. */
  lemma {:induction false} InOrderPairs(os: seq<Origin>, b: nat)
    requires InOrder(os, b)
    ensures forall k, l :: 0 <= k < l < |os| ==> StartsBy(os[k], FirstIndex(os[l]))
    ensures forall k :: 0 <= k < |os| ==> StartsBy(os[k], b)
    decreases |os|
  {
    if os != [] {
      var init := os[..|os| - 1];
      var last := os[|os| - 1];
      InOrderPairs(init, FirstIndex(last));
      forall k, l | 0 <= k < l < |os| ensures StartsBy(os[k], FirstIndex(os[l])) {
        assert os[k] == init[k];
        if l < |init| {
          assert os[l] == init[l];
        }
      }
      forall k | 0 <= k < |os| ensures StartsBy(os[k], b) {
        if k < |init| {
          assert os[k] == init[k] && StartsBy(init[k], FirstIndex(last));
        }
      }
    }
  }

  /** The buffer is empty exactly when it has no fragments, and its first fragment was read already. */
  lemma TraceShape(segs: seq<ContentItem>, n: nat, structural: set<string>)
    requires n <= |segs| && forall k :: 0 <= k < |segs| ==> segs[k].text != []
    ensures Run(segs, n, structural).buffer == [] <==> Traced(segs, n, structural).frags == []
    ensures Traced(segs, n, structural).frags != [] ==> Traced(segs, n, structural).frags[0] < n
  {
    RunTrace(segs, n, structural);
    var tr := Traced(segs, n, structural);
    if tr.frags != [] {
      assert RunIndices(segs, structural, tr.frags, n - 1);
    }
  }

  /** One step emits its items in order, each starting at or after every earlier one. */
  lemma StepInOrder(segs: seq<ContentItem>, i: nat, structural: set<string>, st: StitchState, tr: Trace)
    requires i < |segs|
    requires st.buffer == [] <==> tr.frags == []
    requires tr.frags != [] ==> tr.frags[0] < i
    requires InOrder(tr.origins, NextStart(tr, i))
    ensures InOrder(TraceStep(segs, i, st, tr, structural).origins, NextStart(TraceStep(segs, i, st, tr, structural), i + 1))
  {
    var seg := segs[i];
    var buffer := if st.buffer == [] then seg.text else st.buffer;
    var frags := if st.buffer == [] then [i] else tr.frags;
    var b := NextStart(tr, i);
    assert FirstIndex(Joined(frags)) == b;
    if seg.kind in structural {
      var os := tr.origins + (if buffer != seg.text then [Joined(frags)] else []);
      if buffer != seg.text {
        InOrderSnoc(tr.origins, b, Joined(frags), i);
      } else {
        InOrderRaise(tr.origins, b, i);
        assert os == tr.origins;
      }
      InOrderSnoc(os, i, Passed(i), i + 1);
    } else if i > 0 && EndsWithTerminal(segs[i - 1].text) {
      InOrderSnoc(tr.origins, b, Joined(frags), i);
    } else {
      if buffer != seg.text {
        assert TraceStep(segs, i, st, tr, structural) == Trace(tr.origins, frags + [i]);
        assert (frags + [i])[0] == frags[0];
      } else {
        assert TraceStep(segs, i, st, tr, structural) == Trace(tr.origins, frags);
      }
    }
  }

  lemma TracedUnfold(segs: seq<ContentItem>, n: nat, structural: set<string>)
    requires 0 < n <= |segs|
    ensures Traced(segs, n, structural) == TraceStep(segs, n - 1, Run(segs, n - 1, structural), Traced(segs, n - 1, structural), structural)
  {
  }

  lemma {:induction false} RunInOrder(segs: seq<ContentItem>, n: nat, structural: set<string>)
    requires n <= |segs| && forall k :: 0 <= k < |segs| ==> segs[k].text != []
    ensures InOrder(Traced(segs, n, structural).origins, NextStart(Traced(segs, n, structural), n))
  {
    if n > 0 {
      RunInOrder(segs, n - 1, structural);
      TraceShape(segs, n - 1, structural);
      var i := n - 1;
      var st := Run(segs, i, structural);
      var tr := Traced(segs, i, structural);
      StepInOrder(segs, i, structural, st, tr);
      TracedUnfold(segs, n, structural);
    }
  }

  /**
   * The stitched items come out in segment order: each starts no earlier than
   * the one before it, and strictly later after a structural item. Two
   * paragraphs may share a first fragment (the duplicate after a heading).
   */
  lemma StitchedInOrder(segs: seq<ContentItem>, structural: set<string>)
    requires forall k :: 0 <= k < |segs| ==> segs[k].text != []
    ensures var os := StitchedOrigins(segs, structural);
      forall k, l :: 0 <= k < l < |os| ==>
        FirstIndex(os[k]) <= FirstIndex(os[l]) && (os[k].Passed? ==> FirstIndex(os[k]) < FirstIndex(os[l]))
  {
    var st := Run(segs, |segs|, structural);
    var tr := Traced(segs, |segs|, structural);
    RunInOrder(segs, |segs|, structural);
    TraceShape(segs, |segs|, structural);
    var os := StitchedOrigins(segs, structural);
    if st.buffer != [] {
      InOrderSnoc(tr.origins, NextStart(tr, |segs|), Joined(tr.frags), |segs|);
    } else {
      assert os == tr.origins;
    }
    InOrderPairs(os, |segs|);
    forall k, l | 0 <= k < l < |os|
      ensures FirstIndex(os[k]) <= FirstIndex(os[l]) && (os[k].Passed? ==> FirstIndex(os[k]) < FirstIndex(os[l]))
    {
      assert StartsBy(os[k], FirstIndex(os[l]));
    }
  }

  function StructuralItems(s: seq<ContentItem>, structural: set<string>): seq<ContentItem> {
    if s == [] then []
    else StructuralItems(s[..|s| - 1], structural) + (if s[|s| - 1].kind in structural then [s[|s| - 1]] else [])
  }

  lemma {:induction false} StructuralItemsAppend(a: seq<ContentItem>, b: seq<ContentItem>, structural: set<string>)
    ensures StructuralItems(a + b, structural) == StructuralItems(a, structural) + StructuralItems(b, structural)
  {
    if b == [] {
      assert a + b == a;
    } else {
      assert (a + b)[..|a + b| - 1] == a + b[..|b| - 1];
      StructuralItemsAppend(a, b[..|b| - 1], structural);
    }
  }

  lemma StructuralItemsSnoc(s: seq<ContentItem>, x: ContentItem, structural: set<string>)
    ensures StructuralItems(s + [x], structural) == StructuralItems(s, structural) + if x.kind in structural then [x] else []
  {
    assert (s + [x])[..|s|] == s;
  }

  /** One step adds to the structural items emitted exactly the current segment, if it is structural. */
  lemma StepKeepsStructural(segs: seq<ContentItem>, i: nat, st: StitchState, structural: set<string>)
    requires i < |segs| && "paragraph" !in structural
    ensures StructuralItems(Step(segs, i, st, structural).done, structural)
      == StructuralItems(st.done, structural) + if segs[i].kind in structural then [segs[i]] else []
  {
    var buffer := if st.buffer == [] then segs[i].text else st.buffer;
    var page := if st.buffer == [] then segs[i].page else st.page;
    var f := Flushed(buffer, page);
    if segs[i].kind in structural {
      if buffer != segs[i].text {
        StructuralItemsSnoc(st.done, f, structural);
        StructuralItemsSnoc(st.done + [f], segs[i], structural);
      } else {
        assert st.done + [] == st.done;
        StructuralItemsSnoc(st.done, segs[i], structural);
      }
    } else if i > 0 && EndsWithTerminal(segs[i - 1].text) {
      StructuralItemsSnoc(st.done, f, structural);
    }
  }

  lemma {:induction false} RunKeepsStructural(segs: seq<ContentItem>, n: nat, structural: set<string>)
    requires n <= |segs| && "paragraph" !in structural
    ensures StructuralItems(Run(segs, n, structural).done, structural) == StructuralItems(segs[..n], structural)
  {
    if n > 0 {
      RunKeepsStructural(segs, n - 1, structural);
      StepKeepsStructural(segs, n - 1, Run(segs, n - 1, structural), structural);
      assert segs[..n] == segs[..n - 1] + [segs[n - 1]];
      StructuralItemsSnoc(segs[..n - 1], segs[n - 1], structural);
    }
  }

  /** Structural segments are emitted unchanged, all of them and in order; stitching only adds paragraphs. */
  lemma StitchKeepsStructural(segs: seq<ContentItem>, structural: set<string>)
    requires "paragraph" !in structural
    ensures StructuralItems(Stitched(segs, structural), structural) == StructuralItems(segs, structural)
  {
    var st := Run(segs, |segs|, structural);
    RunKeepsStructural(segs, |segs|, structural);
    assert segs[..|segs|] == segs;
    StructuralItemsAppend(st.done, if st.buffer != [] then [Flushed(st.buffer, st.page)] else [], structural);
  }

  /** Number of positions 1 <= i < n whose previous segment ends with terminal punctuation. */
  function Boundaries(segs: seq<ContentItem>, n: nat): nat
    requires n <= |segs|
  {
    if n <= 1 then 0
    else Boundaries(segs, n - 1) + (if EndsWithTerminal(segs[n - 2].text) then 1 else 0)
  }

  lemma {:induction false} RunFlowing(segs: seq<ContentItem>, n: nat, structural: set<string>)
    requires n <= |segs|
    requires forall k :: 0 <= k < |segs| ==> segs[k].text != [] && segs[k].kind !in structural
    ensures n > 0 ==> Run(segs, n, structural).buffer != []
    ensures |Run(segs, n, structural).done| == Boundaries(segs, n)
  {
    if n > 0 {
      RunFlowing(segs, n - 1, structural);
    }
  }

  /**
   * Without structural segments, a new paragraph starts exactly after each
   * segment ending in terminal punctuation: one item per boundary, plus the
   * final flush.
   */
  lemma StitchFlowingCount(segs: seq<ContentItem>, structural: set<string>)
    requires forall k :: 0 <= k < |segs| ==> segs[k].text != [] && segs[k].kind !in structural
    ensures |Stitched(segs, structural)| == if segs == [] then 0 else 1 + Boundaries(segs, |segs|)
  {
    RunFlowing(segs, |segs|, structural);
  }

  // ---------------------------------------------------------------------
  // Worked cases of the stitching pass (roles of config.py)

  /** Two fragments, the first without terminal punctuation, are joined with one space. */
  lemma MergeExample()
    ensures Stitched([ContentItem("A", "paragraph", 1), ContentItem("B", "paragraph", 1)], Default.structuralRoles)
      == [Flushed("A B", 1)]
  {
    var segs := [ContentItem("A", "paragraph", 1), ContentItem("B", "paragraph", 1)];
    assert Run(segs, 1, Default.structuralRoles) == StitchState([], "A", 1);
    assert Run(segs, 2, Default.structuralRoles) == StitchState([], "A B", 1);
  }

  /** A heading closes the open paragraph, which is emitted just before it. */
  lemma HeadingFlushesExample()
    ensures Stitched([ContentItem("Open text", "paragraph", 3), ContentItem("Risks", "sectionHeading", 4)],
                     Default.structuralRoles)
      == [Flushed("Open text", 3), ContentItem("Risks", "sectionHeading", 4)]
  {
    var segs := [ContentItem("Open text", "paragraph", 3), ContentItem("Risks", "sectionHeading", 4)];
    assert Run(segs, 1, Default.structuralRoles) == StitchState([], "Open text", 3);
  }

  /** A fragment equal to the whole buffer is dropped. */
  lemma RepeatedFragmentExample()
    ensures Stitched([ContentItem("Same", "paragraph", 1), ContentItem("Same", "paragraph", 2)], Default.structuralRoles)
      == [Flushed("Same", 1)]
  {
    var segs := [ContentItem("Same", "paragraph", 1), ContentItem("Same", "paragraph", 2)];
    assert Run(segs, 1, Default.structuralRoles) == StitchState([], "Same", 1);
  }

  /**
   * After a heading ending in terminal punctuation, the next fragment is
   * emitted at once and also kept as the new buffer, so it appears twice.
   */
  lemma DuplicateAfterHeadingExample()
    ensures Stitched([ContentItem("Scope:", "title", 1), ContentItem("Body", "paragraph", 1)], Default.structuralRoles)
      == [ContentItem("Scope:", "title", 1), Flushed("Body", 1), Flushed("Body", 1)]
  {
    var segs := [ContentItem("Scope:", "title", 1), ContentItem("Body", "paragraph", 1)];
    assert "title" in Default.structuralRoles && "paragraph" !in Default.structuralRoles;
    assert EndsWithTerminal("Scope:");
    assert Run(segs, 1, Default.structuralRoles) == StitchState([segs[0]], [], 1);
  }

  /** A heading ending in a colon, then two fragments. */
  lemma StitchOnceExample()
    ensures Stitched([ContentItem("T:", "title", 1), ContentItem("x", "paragraph", 1),
                      ContentItem("y", "paragraph", 1)], Default.structuralRoles)
      == [ContentItem("T:", "title", 1), Flushed("x", 1), Flushed("x y", 1)]
  {
    var segs := [ContentItem("T:", "title", 1), ContentItem("x", "paragraph", 1), ContentItem("y", "paragraph", 1)];
    var roles := Default.structuralRoles;
    assert "title" in roles && "paragraph" !in roles;
    assert EndsWithTerminal("T:") && !EndsWithTerminal("x");
    assert Run(segs, 1, roles) == StitchState([segs[0]], [], 1);
    assert Run(segs, 2, roles) == StitchState([segs[0], Flushed("x", 1)], "x", 1);
    assert Run(segs, 3, roles) == StitchState([segs[0], Flushed("x", 1)], "x y", 1);
  }

  /** Stitching an already stitched sequence can change it. */
  lemma StitchNotIdempotentExample()
    ensures var once := Stitched([ContentItem("T:", "title", 1), ContentItem("x", "paragraph", 1),
                                  ContentItem("y", "paragraph", 1)], Default.structuralRoles);
      Stitched(once, Default.structuralRoles) != once
  {
    StitchOnceExample();
    var roles := Default.structuralRoles;
    var once := [ContentItem("T:", "title", 1), Flushed("x", 1), Flushed("x y", 1)];
    assert "title" in roles && "paragraph" !in roles;
    assert EndsWithTerminal("T:") && !EndsWithTerminal("x");
    assert Run(once, 1, roles) == StitchState([once[0]], [], 1);
    assert Run(once, 2, roles) == StitchState([once[0], Flushed("x", 1)], "x", 1);
    assert Run(once, 3, roles) == StitchState([once[0], Flushed("x", 1)], "x x y", 1);
    assert Stitched(once, roles)[2].text == "x x y";
  }
}
