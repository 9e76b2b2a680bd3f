// Heading hierarchy of the PDF prototypes (build_hierarchy in test1.py and in
// test.py; the two differ only in the heading word limit). Text spans are
// classified as headings or body text; a stack of open headings gives each
// closed section its parent, and body text accumulates into the section that
// is open when it appears.

module Sections {
  import opened Util
  import opened Text

  /** A text span of the PDF: page, font size, boldness and text. */
  datatype Element = Element(page: int, size: real, bold: bool, text: string)

  /** An open heading on the stack. */
  datatype Frame = Frame(heading: string, level: int, page: int)

  /** An output section: heading, level, parent heading, page and joined body text. */
  datatype Section = Section(heading: string, level: int, parent: Option<string>, page: int, content: string)

  /** What classifies elements: the font-size levels, the level of unknown sizes minus one, the threshold, the word limit. */
  datatype Rules = Rules(fontLevels: map<real, int>, maxLevel: int, threshold: int, wordLimit: nat)

  // ---------------------------------------------------------------------
  // max(font_levels.values()) if font_levels else heading_threshold_level + 1

  /** The largest value the map holds at the given keys. */
  ghost function MaxAt(m: map<real, int>, keys: set<real>): (v: int)
    requires keys != {} && keys <= m.Keys
    ensures (exists k :: k in keys && m[k] == v) && forall k :: k in keys ==> m[k] <= v
    decreases keys
  {
    RealSetMember(keys);
    var k :| k in keys;
    if keys == {k} then m[k]
    else
      var rest := keys - {k};
      var v' := MaxAt(m, rest);
      assert forall k' :: k' in keys ==> k' == k || k' in rest;
      if m[k] < v' then v' else m[k]
  }

  /** The level given to sizes missing from the map, minus one. */
  ghost function MaxLevelOf(fontLevels: map<real, int>, threshold: int): (m: int)
    ensures fontLevels == map[] ==> m == threshold + 1
    ensures fontLevels != map[] ==>
      (exists k :: k in fontLevels && fontLevels[k] == m) && forall k :: k in fontLevels ==> fontLevels[k] <= m
  {
    if fontLevels == map[] then threshold + 1
    else
      MaxAt(fontLevels, fontLevels.Keys)
  }

  /** The maximum of the dictionary's values, by a pass over its keys. */
  method MaxLevel(fontLevels: map<real, int>, threshold: int) returns (v: int)
    ensures v == MaxLevelOf(fontLevels, threshold)
  {
    if fontLevels == map[] {
      return threshold + 1;
    }
    var keys := fontLevels.Keys;
    RealSetMember(keys);
    var k0 :| k0 in keys;
    v := fontLevels[k0];
    keys := keys - {k0};
    while keys != {}
      invariant keys <= fontLevels.Keys
      invariant exists k :: k in fontLevels && fontLevels[k] == v
      invariant forall k :: k in fontLevels && k !in keys ==> fontLevels[k] <= v
      decreases keys
    {
      RealSetMember(keys);
      var k :| k in keys;
      if fontLevels[k] > v {
        v := fontLevels[k];
      }
      keys := keys - {k};
    }
  }

  // ---------------------------------------------------------------------
  // Classification of elements

  /** font_levels.get(size, max_level + 1) */
  function LevelOf(r: Rules, el: Element): int {
    if el.size in r.fontLevels then r.fontLevels[el.size] else r.maxLevel + 1
  }

  /** Bold, or a shallow enough level with few enough words. */
  predicate IsHeading(r: Rules, el: Element) {
    el.bold || (LevelOf(r, el) <= r.threshold && WordCount(el.text) <= r.wordLimit)
  }

  /** The frames of the heading elements, in element order. */
  function HeadingFrames(r: Rules, els: seq<Element>): seq<Frame> {
    if els == [] then []
    else
      var el := els[|els| - 1];
      HeadingFrames(r, els[..|els| - 1]) + if IsHeading(r, el) then [Frame(el.text, LevelOf(r, el), el.page)] else []
  }

  /** The texts of the body elements, in element order. */
  function BodyTexts(r: Rules, els: seq<Element>): seq<string> {
    if els == [] then []
    else
      var el := els[|els| - 1];
      BodyTexts(r, els[..|els| - 1]) + if IsHeading(r, el) then [] else [el.text]
  }

  // ---------------------------------------------------------------------
  // The stack

  /** Levels strictly increase from the bottom of the stack to its top. */
  predicate Increasing(stack: seq<Frame>) {
    forall i, j :: 0 <= i < j < |stack| ==> stack[i].level < stack[j].level
  }

  /** `while stack and level <= stack[-1]["level"]: stack.pop()` */
  function PopWhile(stack: seq<Frame>, level: int): (r: seq<Frame>)
    ensures |r| <= |stack| && r == stack[..|r|]
    ensures r != [] ==> r[|r| - 1].level < level
    ensures forall k :: |r| <= k < |stack| ==> level <= stack[k].level
  {
    if stack != [] && level <= stack[|stack| - 1].level then PopWhile(stack[..|stack| - 1], level) else stack
  }

  /** The section record of the heading on top of the stack, with the body text gathered for it. */
  function Close(stack: seq<Frame>, content: seq<string>): Section
    requires stack != []
  {
    var top := stack[|stack| - 1];
    Section(top.heading, top.level, if |stack| > 1 then Some(stack[|stack| - 2].heading) else None,
            top.page, Strip(Join(" ", content)))
  }

  // ---------------------------------------------------------------------
  // The loop of build_hierarchy as a fold

  /**
   * The loop state: closed sections, the stack, the pending body texts, and
   * (for the specification only) the body texts of each closed section.
   */
  datatype Builder = Builder(sections: seq<Section>, stack: seq<Frame>, content: seq<string>, groups: seq<seq<string>>)

  function Step(r: Rules, b: Builder, el: Element): Builder {
    if IsHeading(r, el) then
      var level := LevelOf(r, el);
      Builder(
        b.sections + (if b.stack != [] then [Close(b.stack, b.content)] else []),
        PopWhile(b.stack, level) + [Frame(el.text, level, el.page)],
        if b.stack != [] then [] else b.content,
        b.groups + (if b.stack != [] then [b.content] else []))
    else
      b.(content := b.content + [el.text])
  }

  function Run(r: Rules, els: seq<Element>): Builder {
    if els == [] then Builder([], [], [], []) else Step(r, Run(r, els[..|els| - 1]), els[|els| - 1])
  }

  /** build_hierarchy: the loop, then the final flush of the open heading. */
  function Hierarchy(r: Rules, els: seq<Element>): seq<Section> {
    var b := Run(r, els);
    if b.stack != [] then b.sections + [Close(b.stack, b.content)] else b.sections
  }

  /** The body texts that end up in each section, section by section. */
  function Groups(r: Rules, els: seq<Element>): seq<seq<string>> {
    var b := Run(r, els);
    if b.stack != [] then b.groups + [b.content] else b.groups
  }

  // ---------------------------------------------------------------------
  // Invariants of the fold

  /** Closed sections follow the headings one by one; the top of the stack is the latest heading. */
  lemma {:induction false} RunSections(r: Rules, els: seq<Element>)
    ensures var b := Run(r, els); var h := HeadingFrames(r, els);
      && (b.stack == [] <==> h == [])
      && (h == [] ==> b.sections == [])
      && (h != [] ==> |b.sections| == |h| - 1 && b.stack[|b.stack| - 1] == h[|h| - 1])
      && (forall k :: 0 <= k < |b.sections| ==>
            b.sections[k].heading == h[k].heading && b.sections[k].level == h[k].level && b.sections[k].page == h[k].page)
  {
    if els != [] {
      var init := els[..|els| - 1];
      RunSections(r, init);
    }
  }

  /** Each closed section's text is its group, and the groups and pending texts are the given body texts in order. */
  ghost predicate TextsKept(b: Builder, body: seq<string>) {
    && |b.groups| == |b.sections|
    && (forall k :: 0 <= k < |b.sections| ==> b.sections[k].content == Strip(Join(" ", b.groups[k])))
    && Flatten(b.groups) + b.content == body
  }

  /** One step of the loop keeps the texts, adding the element's text when it is body text. */
  lemma StepTexts(r: Rules, b: Builder, el: Element, body: seq<string>)
    requires TextsKept(b, body)
    ensures TextsKept(Step(r, b, el), body + if IsHeading(r, el) then [] else [el.text])
  {
    if IsHeading(r, el) && b.stack != [] {
      var b' := Step(r, b, el);
      assert b'.groups == b.groups + [b.content] && b'.content == [];
      assert b'.sections == b.sections + [Close(b.stack, b.content)];
      FlattenSnoc(b.groups, b.content);
      assert Flatten(b'.groups) + b'.content == Flatten(b'.groups);
      assert body + [] == body;
    } else if !IsHeading(r, el) {
      assert Flatten(b.groups) + (b.content + [el.text]) == (Flatten(b.groups) + b.content) + [el.text];
    } else {
      var b' := Step(r, b, el);
      assert b'.groups == b.groups + [] == b.groups && b'.content == b.content && b'.sections == b.sections + [] == b.sections;
      assert body + [] == body;
    }
  }

  lemma {:induction false} RunTexts(r: Rules, els: seq<Element>)
    ensures TextsKept(Run(r, els), BodyTexts(r, els))
  {
    if els != [] {
      var init := els[..|els| - 1];
      RunTexts(r, init);
      StepTexts(r, Run(r, init), els[|els| - 1], BodyTexts(r, init));
    }
  }

  /** Pushing a heading after popping the deeper-or-equal ones keeps the levels increasing. */
  lemma PushIncreasing(stack: seq<Frame>, f: Frame)
    requires Increasing(stack)
    ensures Increasing(PopWhile(stack, f.level) + [f])
  {
    var p := PopWhile(stack, f.level);
    assert Increasing(p) by {
      forall i, j | 0 <= i < j < |p| ensures p[i].level < p[j].level {
        assert p[i] == stack[i] && p[j] == stack[j];
      }
    }
    var q := p + [f];
    forall i, j | 0 <= i < j < |q| ensures q[i].level < q[j].level {
      if j < |p| {
        assert q[i] == p[i] && q[j] == p[j];
      } else if i < |p| - 1 {
        assert q[i] == p[i] && p[i].level < p[|p| - 1].level;
      }
    }
  }

  /** The stack holds earlier headings with strictly increasing levels. */
  lemma {:induction false} RunStack(r: Rules, els: seq<Element>)
    ensures var b := Run(r, els);
      && Increasing(b.stack)
      && forall f :: f in b.stack ==> f in HeadingFrames(r, els)
  {
    if els != [] {
      var init := els[..|els| - 1];
      RunStack(r, init);
      var b0 := Run(r, init);
      var el := els[|els| - 1];
      if IsHeading(r, el) {
        var f := Frame(el.text, LevelOf(r, el), el.page);
        var p := PopWhile(b0.stack, f.level);
        assert Run(r, els).stack == p + [f];
        assert HeadingFrames(r, els) == HeadingFrames(r, init) + [f];
        PushIncreasing(b0.stack, f);
        assert forall g :: g in p ==> g in b0.stack;
      } else {
        assert Run(r, els).stack == b0.stack;
        assert HeadingFrames(r, els) == HeadingFrames(r, init) + [];
      }
    }
  }

  // ---------------------------------------------------------------------
  // The stack as the chain of nearest shallower headings

  /** The latest heading before position q whose level is smaller than `level`. */
  function Below(h: seq<Frame>, level: int, q: nat): (r: Option<nat>)
    requires q <= |h|
    ensures r.Some? ==> r.value < q && h[r.value].level < level
    ensures r.Some? ==> forall i :: r.value < i < q ==> level <= h[i].level
    ensures r.None? ==> forall i :: 0 <= i < q ==> level <= h[i].level
  {
    if q == 0 then None else if h[q - 1].level < level then Some(q - 1) else Below(h, level, q - 1)
  }

  /** Heading k and its ancestors, each the nearest earlier heading shallower than the next; outermost first. */
  function Chain(h: seq<Frame>, k: nat): (c: seq<nat>)
    requires k < |h|
    ensures c != [] && c[|c| - 1] == k && forall j :: 0 <= j < |c| ==> c[j] <= k
    decreases k
  {
    match Below(h, h[k].level, k)
    case None => [k]
    case Some(p) => Chain(h, p) + [k]
  }

  /** The ancestors that stay open when a heading of the given level arrives at position q. */
  function ChainBelow(h: seq<Frame>, level: int, q: nat): (c: seq<nat>)
    requires q <= |h|
    ensures forall j :: 0 <= j < |c| ==> c[j] < q
  {
    match Below(h, level, q)
    case None => []
    case Some(p) => Chain(h, p)
  }

  function Frames(h: seq<Frame>, c: seq<nat>): seq<Frame>
    requires forall j :: 0 <= j < |c| ==> c[j] < |h|
  {
    seq(|c|, j requires 0 <= j < |c| => h[c[j]])
  }

  /** The heading of the nearest earlier heading shallower than heading k, if there is one. */
  function ParentHeading(h: seq<Frame>, k: nat): Option<string>
    requires k < |h|
  {
    match Below(h, h[k].level, k)
    case None => None
    case Some(p) => Some(h[p].heading)
  }

  /** Headings from a to b that are no shallower than `level` do not change where Below stops. */
  lemma {:induction false} BelowSkip(h: seq<Frame>, level: int, a: nat, b: nat)
    requires a <= b <= |h| && forall i :: a <= i < b ==> level <= h[i].level
    ensures Below(h, level, b) == Below(h, level, a)
    decreases b
  {
    if a < b {
      BelowSkip(h, level, a, b - 1);
    }
  }

  lemma ChainStep(h: seq<Frame>, m: nat)
    requires m < |h|
    ensures Chain(h, m) == ChainBelow(h, h[m].level, m) + [m]
  {
  }

  lemma FramesSnoc(h: seq<Frame>, c: seq<nat>, m: nat)
    requires m < |h| && forall j :: 0 <= j < |c| ==> c[j] < |h|
    ensures Frames(h, c + [m]) == Frames(h, c) + [h[m]]
  {
    var a := Frames(h, c + [m]);
    var b := Frames(h, c) + [h[m]];
    forall j | 0 <= j < |a| ensures a[j] == b[j] {
      if j < |c| {
        assert (c + [m])[j] == c[j];
      }
    }
  }

  /** A frame at least as deep as the new level is popped. */
  lemma PopDeep(stack: seq<Frame>, x: Frame, level: int)
    requires level <= x.level
    ensures PopWhile(stack + [x], level) == PopWhile(stack, level)
  {
    assert (stack + [x])[..|stack|] == stack;
  }

  /** Skipping headings no shallower than `level` leaves the same open ancestors. */
  lemma ChainBelowSkip(h: seq<Frame>, level: int, a: nat, b: nat)
    requires a <= b <= |h| && forall i :: a <= i < b ==> level <= h[i].level
    ensures ChainBelow(h, level, b) == ChainBelow(h, level, a)
  {
    BelowSkip(h, level, a, b);
  }

  /** When heading m is at least as deep as `level`, popping its chain pops m and then the chain before it. */
  lemma PopChainDeep(h: seq<Frame>, level: int, m: nat)
    requires m < |h| && level <= h[m].level
    requires PopWhile(Frames(h, ChainBelow(h, h[m].level, m)), level) == Frames(h, ChainBelow(h, level, m))
    ensures PopWhile(Frames(h, Chain(h, m)), level) == Frames(h, ChainBelow(h, level, m + 1))
  {
    var pre := ChainBelow(h, h[m].level, m);
    ChainStep(h, m);
    FramesSnoc(h, pre, m);
    PopDeep(Frames(h, pre), h[m], level);
    ChainBelowSkip(h, level, m, m + 1);
  }

  /** When heading m is shallower than `level`, nothing is popped. */
  lemma PopChainShallow(h: seq<Frame>, level: int, m: nat)
    requires m < |h| && h[m].level < level
    ensures PopWhile(Frames(h, Chain(h, m)), level) == Frames(h, ChainBelow(h, level, m + 1))
  {
    var c := Chain(h, m);
    var fs := Frames(h, c);
    assert fs[|fs| - 1] == h[m];
    assert Below(h, level, m + 1) == Some(m);
  }

  /** Heading m has no shallower predecessor and is at least as deep as `level`: the whole chain goes. */
  lemma PopChainRoot(h: seq<Frame>, level: int, m: nat)
    requires m < |h| && level <= h[m].level && Below(h, h[m].level, m).None?
    ensures PopWhile(Frames(h, Chain(h, m)), level) == Frames(h, ChainBelow(h, level, m + 1))
  {
    var pre := ChainBelow(h, h[m].level, m);
    assert pre == [];
    forall i | 0 <= i < m ensures level <= h[i].level {
    }
    ChainBelowSkip(h, level, 0, m);
    assert PopWhile(Frames(h, pre), level) == [] == Frames(h, ChainBelow(h, level, m));
    PopChainDeep(h, level, m);
  }

  /** Heading m, at least as deep as `level`, goes; popping goes on along the chain of its parent p. */
  lemma PopChainParent(h: seq<Frame>, level: int, m: nat, p: nat)
    requires m < |h| && level <= h[m].level && Below(h, h[m].level, m) == Some(p)
    requires PopWhile(Frames(h, Chain(h, p)), level) == Frames(h, ChainBelow(h, level, p + 1))
    ensures PopWhile(Frames(h, Chain(h, m)), level) == Frames(h, ChainBelow(h, level, m + 1))
  {
    assert ChainBelow(h, h[m].level, m) == Chain(h, p);
    forall i | p + 1 <= i < m ensures level <= h[i].level {
    }
    ChainBelowSkip(h, level, p + 1, m);
    PopChainDeep(h, level, m);
  }

  /**
   * Popping the headings at least as deep as `level` off the chain of heading
   * m leaves the chain of the nearest heading shallower than `level`.
   */
  lemma {:induction false} PopChain(h: seq<Frame>, level: int, m: nat)
    requires m < |h|
    ensures PopWhile(Frames(h, Chain(h, m)), level) == Frames(h, ChainBelow(h, level, m + 1))
    decreases m
  {
    if h[m].level < level {
      PopChainShallow(h, level, m);
    } else {
      match Below(h, h[m].level, m)
      case None =>
        PopChainRoot(h, level, m);
      case Some(p) =>
        PopChain(h, level, p);
        PopChainParent(h, level, m, p);
    }
  }

  /** Adding a heading at the end does not change what comes before it. */
  lemma {:induction false} BelowPrefix(h: seq<Frame>, f: Frame, level: int, q: nat)
    requires q <= |h|
    ensures Below(h + [f], level, q) == Below(h, level, q)
    decreases q
  {
    if q > 0 {
      assert (h + [f])[q - 1] == h[q - 1];
      BelowPrefix(h, f, level, q - 1);
    }
  }

  lemma {:induction false} ChainPrefix(h: seq<Frame>, f: Frame, k: nat)
    requires k < |h|
    ensures Chain(h + [f], k) == Chain(h, k)
    decreases k
  {
    assert (h + [f])[k] == h[k];
    BelowPrefix(h, f, h[k].level, k);
    match Below(h, h[k].level, k)
    case None =>
    case Some(p) => ChainPrefix(h, f, p);
  }

  lemma ParentPrefix(h: seq<Frame>, f: Frame, k: nat)
    requires k < |h|
    ensures ParentHeading(h + [f], k) == ParentHeading(h, k)
  {
    assert (h + [f])[k] == h[k];
    BelowPrefix(h, f, h[k].level, k);
  }

  /** Closing the chain of heading k gives it as parent the nearest earlier shallower heading. */
  lemma CloseChain(h: seq<Frame>, k: nat, content: seq<string>)
    requires k < |h|
    ensures Close(Frames(h, Chain(h, k)), content).parent == ParentHeading(h, k)
  {
    var pre := ChainBelow(h, h[k].level, k);
    ChainStep(h, k);
    FramesSnoc(h, pre, k);
    var st := Frames(h, Chain(h, k));
    match Below(h, h[k].level, k)
    case None =>
      assert |st| == 1;
    case Some(p) =>
      assert st[|st| - 2] == Frames(h, pre)[|pre| - 1] == h[p];
  }

  lemma ChainBelowPrefix(h: seq<Frame>, f: Frame, level: int, q: nat)
    requires q <= |h|
    ensures ChainBelow(h + [f], level, q) == ChainBelow(h, level, q)
  {
    BelowPrefix(h, f, level, q);
    match Below(h, level, q)
    case None =>
    case Some(p) => ChainPrefix(h, f, p);
  }

  lemma FramesPrefix(h: seq<Frame>, f: Frame, c: seq<nat>)
    requires forall j :: 0 <= j < |c| ==> c[j] < |h|
    ensures Frames(h + [f], c) == Frames(h, c)
  {
    var a := Frames(h + [f], c);
    forall j | 0 <= j < |c| ensures a[j] == h[c[j]] {
      assert (h + [f])[c[j]] == h[c[j]];
    }
  }

  /** A heading arrives: the chain of the previous heading, popped, plus the new one, is the new heading's chain. */
  lemma PushChain(h0: seq<Frame>, f: Frame)
    requires h0 != []
    ensures PopWhile(Frames(h0, Chain(h0, |h0| - 1)), f.level) + [f] == Frames(h0 + [f], Chain(h0 + [f], |h0|))
  {
    var n := |h0|;
    var h := h0 + [f];
    PopChain(h0, f.level, n - 1);
    var c := ChainBelow(h0, f.level, n);
    ChainBelowPrefix(h0, f, f.level, n);
    assert h[n] == f;
    ChainStep(h, n);
    FramesSnoc(h, c, n);
    FramesPrefix(h0, f, c);
  }

  /** The stack is the chain of the latest heading, and every closed section's parent is its nearest shallower predecessor. */
  ghost predicate ChainKept(b: Builder, h: seq<Frame>) {
    && (b.stack == [] <==> h == [])
    && |b.sections| == (if h == [] then 0 else |h| - 1)
    && (h != [] ==> b.stack == Frames(h, Chain(h, |h| - 1)))
    && forall k :: 0 <= k < |b.sections| ==> b.sections[k].parent == ParentHeading(h, k)
  }

  /** The first heading opens the stack; nothing is closed. */
  lemma StepChainFirst(r: Rules, b: Builder, el: Element)
    requires ChainKept(b, []) && IsHeading(r, el)
    ensures ChainKept(Step(r, b, el), [Frame(el.text, LevelOf(r, el), el.page)])
  {
    var f := Frame(el.text, LevelOf(r, el), el.page);
    assert Step(r, b, el).stack == [f] && Step(r, b, el).sections == [];
    assert Chain([f], 0) == [0];
  }

  /** A later heading closes the section on top of the stack and pushes itself onto the popped chain. */
  lemma StepChainNext(r: Rules, b: Builder, h: seq<Frame>, el: Element)
    requires ChainKept(b, h) && h != [] && IsHeading(r, el)
    ensures ChainKept(Step(r, b, el), h + [Frame(el.text, LevelOf(r, el), el.page)])
  {
    var f := Frame(el.text, LevelOf(r, el), el.page);
    var b' := Step(r, b, el);
    var h' := h + [f];
    PushChain(h, f);
    CloseChain(h, |h| - 1, b.content);
    assert b'.stack == Frames(h', Chain(h', |h'| - 1));
    assert b'.sections == b.sections + [Close(b.stack, b.content)];
    forall k | 0 <= k < |b'.sections| ensures b'.sections[k].parent == ParentHeading(h', k) {
      ParentPrefix(h, f, k);
      if k < |b.sections| {
        assert b'.sections[k] == b.sections[k];
      }
    }
  }

  lemma StepChain(r: Rules, b: Builder, h: seq<Frame>, el: Element)
    requires ChainKept(b, h)
    ensures ChainKept(Step(r, b, el), h + if IsHeading(r, el) then [Frame(el.text, LevelOf(r, el), el.page)] else [])
  {
    if !IsHeading(r, el) {
      assert h + [] == h;
    } else if h == [] {
      StepChainFirst(r, b, el);
    } else {
      StepChainNext(r, b, h, el);
    }
  }

  lemma {:induction false} RunChain(r: Rules, els: seq<Element>)
    ensures ChainKept(Run(r, els), HeadingFrames(r, els))
  {
    if els != [] {
      var init := els[..|els| - 1];
      RunChain(r, init);
      StepChain(r, Run(r, init), HeadingFrames(r, init), els[|els| - 1]);
    }
  }

  /** The section of heading k has as parent the heading of its nearest shallower predecessor. */
  lemma HierarchyParentHeading(r: Rules, els: seq<Element>)
    ensures |Hierarchy(r, els)| == |HeadingFrames(r, els)|
    ensures forall k :: 0 <= k < |Hierarchy(r, els)| ==> Hierarchy(r, els)[k].parent == ParentHeading(HeadingFrames(r, els), k)
  {
    RunChain(r, els);
    var b := Run(r, els);
    var h := HeadingFrames(r, els);
    if b.stack != [] {
      CloseChain(h, |h| - 1, b.content);
      var hs := b.sections + [Close(b.stack, b.content)];
      assert Hierarchy(r, els) == hs;
      forall k | 0 <= k < |hs| ensures hs[k].parent == ParentHeading(h, k) {
        if k < |b.sections| {
          assert hs[k] == b.sections[k];
        }
      }
    }
  }

  /** Heading p is the nearest one before heading k with a smaller level, and its text is `name`. */
  ghost predicate NearestShallower(secs: seq<Section>, k: nat, name: string)
    requires k < |secs|
  {
    exists p :: 0 <= p < k && secs[p].heading == name && secs[p].level < secs[k].level
      && forall q :: p < q < k ==> secs[k].level <= secs[q].level
  }

  // ---------------------------------------------------------------------
  // What build_hierarchy promises

  /** One section per heading, in order, with the heading's text, level and page; no heading gives []. */
  lemma HierarchyHeadings(r: Rules, els: seq<Element>)
    ensures |Hierarchy(r, els)| == |HeadingFrames(r, els)|
    ensures forall k :: 0 <= k < |Hierarchy(r, els)| ==>
      Hierarchy(r, els)[k].heading == HeadingFrames(r, els)[k].heading
      && Hierarchy(r, els)[k].level == HeadingFrames(r, els)[k].level
      && Hierarchy(r, els)[k].page == HeadingFrames(r, els)[k].page
  {
    RunSections(r, els);
  }

  /**
   * Body text is distributed over the sections in order, none lost: each
   * section's content is its group joined by spaces and stripped, and the
   * groups concatenate to the body texts (text before the first heading
   * belongs to the first section).
   */
  lemma HierarchyContents(r: Rules, els: seq<Element>)
    requires HeadingFrames(r, els) != []
    ensures |Groups(r, els)| == |Hierarchy(r, els)|
    ensures forall k :: 0 <= k < |Hierarchy(r, els)| ==> Hierarchy(r, els)[k].content == Strip(Join(" ", Groups(r, els)[k]))
    ensures Flatten(Groups(r, els)) == BodyTexts(r, els)
  {
    RunSections(r, els);
    RunTexts(r, els);
    var b := Run(r, els);
    assert (b.groups + [b.content])[..|b.groups|] == b.groups;
  }

  /** Without headings all text is dropped. */
  lemma HierarchyNoHeadings(r: Rules, els: seq<Element>)
    requires HeadingFrames(r, els) == []
    ensures Hierarchy(r, els) == []
  {
    RunSections(r, els);
  }

  /**
   * Each section's parent is the heading of the nearest earlier section of
   * strictly smaller level; a section has no parent exactly when no earlier
   * section is shallower (so the first never has one).
   */
  lemma HierarchyParents(r: Rules, els: seq<Element>)
    ensures Hierarchy(r, els) != [] ==> Hierarchy(r, els)[0].parent == None
    ensures forall k :: 0 <= k < |Hierarchy(r, els)| ==>
      (Hierarchy(r, els)[k].parent.None? <==> forall q :: 0 <= q < k ==> Hierarchy(r, els)[k].level <= Hierarchy(r, els)[q].level)
    ensures forall k :: 0 <= k < |Hierarchy(r, els)| && Hierarchy(r, els)[k].parent.Some? ==>
      NearestShallower(Hierarchy(r, els), k, Hierarchy(r, els)[k].parent.value)
  {
    HierarchyParentHeading(r, els);
    HierarchyHeadings(r, els);
    var h := HeadingFrames(r, els);
    var hs := Hierarchy(r, els);
    forall k | 0 <= k < |hs|
      ensures hs[k].parent.None? <==> forall q :: 0 <= q < k ==> hs[k].level <= hs[q].level
      ensures hs[k].parent.Some? ==> NearestShallower(hs, k, hs[k].parent.value)
    {
      match Below(h, h[k].level, k)
      case None =>
      case Some(p) =>
        assert hs[p].heading == hs[k].parent.value;
    }
  }

  // ---------------------------------------------------------------------
  // The method

  /** `while stack and level <= stack[-1]["level"]: stack.pop()` on the stack of open headings. */
  method PopHeadings(stack: seq<Frame>, level: int) returns (popped: seq<Frame>)
    ensures popped == PopWhile(stack, level)
  {
    popped := stack;
    while popped != [] && level <= popped[|popped| - 1].level
      invariant PopWhile(popped, level) == PopWhile(stack, level)
      decreases |popped|
    {
      popped := popped[..|popped| - 1];
    }
  }

  /** One more element: the loop step. */
  lemma RunNext(r: Rules, els: seq<Element>, k: nat)
    requires k < |els|
    ensures Run(r, els[..k + 1]) == Step(r, Run(r, els[..k]), els[k])
  {
    assert els[..k + 1][..k] == els[..k];
  }

  /**
   * build_hierarchy(elements, font_levels, heading_threshold_level, word limit):
   * one pass with a stack of open headings and a list of pending body texts.
   */
  method BuildHierarchy(elements: seq<Element>, fontLevels: map<real, int>, threshold: int, wordLimit: nat)
    returns (sections: seq<Section>)
    ensures sections == Hierarchy(Rules(fontLevels, MaxLevelOf(fontLevels, threshold), threshold, wordLimit), elements)
  {
    var maxLevel := MaxLevel(fontLevels, threshold);
    ghost var r := Rules(fontLevels, maxLevel, threshold, wordLimit);
    sections := [];
    var stack: seq<Frame> := [];
    var content: seq<string> := [];
    for k := 0 to |elements|
      invariant sections == Run(r, elements[..k]).sections
      invariant stack == Run(r, elements[..k]).stack
      invariant content == Run(r, elements[..k]).content
    {
      RunNext(r, elements, k);
      var el := elements[k];
      var level := if el.size in fontLevels then fontLevels[el.size] else maxLevel + 1;
      var isHeading := el.bold || (level <= threshold && WordCount(el.text) <= wordLimit);
      assert level == LevelOf(r, el) && (isHeading <==> IsHeading(r, el));
      if isHeading {
        if stack != [] {
          sections := sections + [Close(stack, content)];
          content := [];
        }
        stack := PopHeadings(stack, level);
        stack := stack + [Frame(el.text, level, el.page)];
      } else {
        content := content + [el.text];
      }
    }
    assert elements[..|elements|] == elements;
    if stack != [] {
      sections := sections + [Close(stack, content)];
    }
  }
}
