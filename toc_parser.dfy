// Table-of-contents structuring (src/processing/toc_parser.py, structure_toc).
// Each stripped line of the form <digits><whitespace><title> becomes an item
// whose start page is the number plus the page offset; "Pages N – M"
// fragments are removed from the title; each item ends one page before the
// next one starts, and the last ends at page 999.
//
// The two regular expressions are matched by hand. On a stripped line,
// ^\s*(\d+)\s+(.*) matches exactly when a maximal run of digits is followed by
// whitespace, and the title is what follows the maximal whitespace run. In
// \s+Pages\s+\d+\s*–\s*\d+ every run is followed by a character its class
// excludes, so the greedy runs never backtrack and a match is determined by
// its start.

module TocParser {
  import opened Util
  import opened Text

  /** The en dash of the "Pages N – M" fragments. */
  const EnDash: char := '\U{2013}'

  /** End of the maximal run of digits starting at i. */
  function DigitRun(s: string, i: nat): (r: nat)
    requires i <= |s|
    ensures i <= r <= |s|
    decreases |s| - i
  {
    if i < |s| && IsDigit(s[i]) then DigitRun(s, i + 1) else i
  }

  /** DigitRun stops at the first non-digit. */
  lemma {:induction false} DigitRunFacts(s: string, i: nat)
    requires i <= |s|
    ensures forall k :: i <= k < DigitRun(s, i) ==> IsDigit(s[k])
    ensures DigitRun(s, i) == |s| || !IsDigit(s[DigitRun(s, i)])
    decreases |s| - i
  {
    if i < |s| && IsDigit(s[i]) {
      DigitRunFacts(s, i + 1);
    }
  }

  /** End of the maximal run of whitespace starting at i. */
  function SpaceRun(s: string, i: nat): (r: nat)
    requires i <= |s|
    ensures i <= r <= |s|
    decreases |s| - i
  {
    if i < |s| && IsSpace(s[i]) then SpaceRun(s, i + 1) else i
  }

  predicate AllDigits(s: string) {
    forall k :: 0 <= k < |s| ==> IsDigit(s[k])
  }

  /** int(s) for a string of ASCII digits. */
  function DigitsValue(s: string): nat {
    if s == [] then 0 else DigitsValue(s[..|s| - 1]) * 10 + (s[|s| - 1] as int - '0' as int) % 10
  }

  /** The decimal numeral of n, without leading zeros; the inverse of DigitsValue. */
  function Numeral(n: nat): (s: string)
    ensures s != [] && AllDigits(s)
    ensures DigitsValue(s) == n
  {
    var d := ['0' + (n % 10) as char];
    if n < 10 then d
    else
      var init := Numeral(n / 10);
      assert (init + d)[..|init + d| - 1] == init;
      init + d
  }

  /** A number and the text after it on a ToC line. */
  datatype Section = Section(number: nat, title: string)

  /** The regex ^\s*(\d+)\s+(.*) matches a stripped line: digits, then whitespace. */
  ghost predicate MatchesSection(line: string) {
    exists a :: 0 < a < |line| && AllDigits(line[..a]) && IsSpace(line[a])
  }

  /** section_pattern.match on a stripped line: the number and the title. */
  function ParseLine(line: string): Option<Section> {
    var a := DigitRun(line, 0);
    if a == 0 || a == |line| || !IsSpace(line[a]) then None
    else Some(Section(DigitsValue(line[..a]), line[SpaceRun(line, a)..]))
  }

  /** ParseLine accepts exactly the lines the regular expression matches. */
  lemma ParseLineMatches(line: string)
    ensures ParseLine(line).Some? <==> MatchesSection(line)
  {
    var a := DigitRun(line, 0);
    DigitRunFacts(line, 0);
    if a == 0 || a == |line| || !IsSpace(line[a]) {
      forall a' | 0 < a' < |line| && AllDigits(line[..a'])
        ensures a' <= a && (a' < a ==> !IsSpace(line[a']))
      {
        assert forall k :: 0 <= k < a' ==> line[..a'][k] == line[k];
        DigitRunCovers(line, 0, a');
      }
    } else {
      assert forall k :: 0 <= k < a ==> line[..a][k] == line[k];
    }
  }

  /** Printing a number, whitespace and a title that does not start with whitespace parses back to both. */
  lemma ParseLineInverse(n: nat, ws: string, title: string)
    requires ws != [] && AllSpace(ws)
    requires title == [] || !IsSpace(title[0])
    ensures ParseLine(Numeral(n) + ws + title) == Some(Section(n, title))
  {
    var ds := Numeral(n);
    var line := ds + ws + title;
    assert line[..|ds|] == ds;
    DigitRunIs(line, |ds|);
    SpaceRunIs(line, |ds|, |ds| + |ws|);
    assert line[|ds| + |ws|..] == title;
  }

  /** A run of digits from i to a is inside the maximal run. */
  lemma {:induction false} DigitRunCovers(s: string, i: nat, a: nat)
    requires i <= a <= |s| && forall k :: i <= k < a ==> IsDigit(s[k])
    ensures a <= DigitRun(s, i)
    decreases a - i
  {
    if i < a {
      DigitRunCovers(s, i + 1, a);
    }
  }

  lemma DigitRunIs(s: string, a: nat)
    requires a <= |s| && AllDigits(s[..a]) && (a == |s| || !IsDigit(s[a]))
    ensures DigitRun(s, 0) == a
  {
    assert forall k :: 0 <= k < a ==> s[..a][k] == s[k];
    DigitRunCovers(s, 0, a);
    DigitRunFacts(s, 0);
  }

  lemma SpaceRunIs(s: string, i: nat, b: nat)
    requires i <= b <= |s| && (forall k :: i <= k < b ==> IsSpace(s[k])) && (b == |s| || !IsSpace(s[b]))
    ensures SpaceRun(s, i) == b
    decreases b - i
  {
    if i < b {
      SpaceRunIs(s, i + 1, b);
    }
  }

  // ---------------------------------------------------------------------
  // re.sub(r'\s+Pages\s+\d+\s*–\s*\d+', '', title)

  /** One element of a regular expression made of character-class runs and literals. */
  datatype Token =
    | Spaces(atLeastOne: bool)   // \s+ or \s*
    | Digits                     // \d+
    | Literal(text: string)

  /** A token that cannot match the empty string. */
  predicate Consumes(t: Token) {
    match t
    case Spaces(one) => one
    case Digits => true
    case Literal(w) => w != []
  }

  /** Where a greedy token match starting at p ends, if the token matches there. */
  function TokenAt(s: string, p: nat, t: Token): (r: Option<nat>)
    requires p <= |s|
    ensures r.Some? ==> p <= r.value <= |s| && (Consumes(t) ==> p < r.value)
  {
    match t
    case Spaces(one) =>
      var e := SpaceRun(s, p);
      if one && e == p then None else Some(e)
    case Digits =>
      var e := DigitRun(s, p);
      if e == p then None else Some(e)
    case Literal(w) =>
      if p + |w| <= |s| && s[p..p + |w|] == w then Some(p + |w|) else None
  }

  /** Where a match of the tokens in sequence, starting at p, ends. */
  function MatchTokens(s: string, p: nat, pattern: seq<Token>): (r: Option<nat>)
    requires p <= |s|
    ensures r.Some? ==> p <= r.value <= |s|
    ensures r.Some? && pattern != [] && Consumes(pattern[0]) ==> p < r.value
    decreases |pattern|
  {
    if pattern == [] then Some(p)
    else
      match TokenAt(s, p, pattern[0])
      case None => None
      case Some(q) => MatchTokens(s, q, pattern[1..])
  }

  /** \s+Pages\s+\d+\s*–\s*\d+ */
  const PagesPattern: seq<Token> :=
    [Spaces(true), Literal("Pages"), Spaces(true), Digits, Spaces(false), Literal([EnDash]), Spaces(false), Digits]

  /** The end of a "Pages N – M" fragment starting at p, if one does. */
  function PagesMatchAt(s: string, p: nat): (r: Option<nat>)
    requires p <= |s|
    ensures r.Some? ==> p < r.value <= |s|
  {
    MatchTokens(s, p, PagesPattern)
  }

  /** re.sub from position p: leftmost fragments are removed, everything else is copied. */
  function RemovePagesFrom(s: string, p: nat): (r: string)
    requires p <= |s|
    ensures |r| <= |s| - p
    decreases |s| - p
  {
    if p == |s| then []
    else
      match PagesMatchAt(s, p)
      case Some(e) => RemovePagesFrom(s, e)
      case None => [s[p]] + RemovePagesFrom(s, p + 1)
  }

  function RemovePages(s: string): (r: string)
    ensures |r| <= |s|
  {
    RemovePagesFrom(s, 0)
  }

  /** A title without fragments is left as it is. */
  lemma {:induction false} RemovePagesNoFragment(s: string, p: nat)
    requires p <= |s|
    requires forall q :: p <= q < |s| ==> PagesMatchAt(s, q).None?
    ensures RemovePagesFrom(s, p) == s[p..]
    decreases |s| - p
  {
    if p < |s| {
      RemovePagesNoFragment(s, p + 1);
      assert s[p..] == [s[p]] + s[p + 1..];
    }
  }

  /** Where no fragment starts, the character is copied. */
  lemma RemovePagesCopies(s: string, p: nat)
    requires p < |s| && PagesMatchAt(s, p).None?
    ensures RemovePagesFrom(s, p) == [s[p]] + RemovePagesFrom(s, p + 1)
  {
  }

  // ---------------------------------------------------------------------
  // What the token matcher computes, against the language of the pattern

  /** The characters a run token repeats; a literal repeats none. */
  predicate InRun(t: Token, c: char) {
    match t
    case Spaces(_) => IsSpace(c)
    case Digits => IsDigit(c)
    case Literal(_) => false
  }

  /** s[p..k] is one of the strings the token stands for. */
  ghost predicate TokenSpan(s: string, p: nat, k: nat, t: Token)
    requires p <= k <= |s|
  {
    match t
    case Spaces(one) => (forall i :: p <= i < k ==> IsSpace(s[i])) && (one ==> p < k)
    case Digits => p < k && forall i :: p <= i < k ==> IsDigit(s[i])
    case Literal(w) => s[p..k] == w
  }

  /** s[p..e] splits into strings of the tokens, one after the other. */
  ghost predicate PatternSpan(s: string, p: nat, e: nat, pattern: seq<Token>)
    requires p <= e <= |s|
    decreases |pattern|
  {
    if pattern == [] then p == e
    else exists k :: p <= k <= e && TokenSpan(s, p, k, pattern[0]) && PatternSpan(s, k, e, pattern[1..])
  }

  /** s[p..e] matches \s+Pages\s+\d+\s*–\s*\d+ (whatever follows it). */
  ghost predicate PagesFragment(s: string, p: nat, e: nat)
    requires p <= e <= |s|
  {
    PatternSpan(s, p, e, PagesPattern)
  }

  /** A character a non-empty match of the pattern can start with. */
  predicate StartsWith(t: Token, c: char) {
    match t
    case Spaces(_) => IsSpace(c)
    case Digits => IsDigit(c)
    case Literal(w) => w != [] && w[0] == c
  }

  predicate CanBegin(pattern: seq<Token>, c: char)
    decreases |pattern|
  {
    pattern != [] && (StartsWith(pattern[0], c) || (!Consumes(pattern[0]) && CanBegin(pattern[1..], c)))
  }

  /** No run token can swallow the first character of what follows it, so greedy runs never give back. */
  predicate Separated(pattern: seq<Token>)
    decreases |pattern|
  {
    |pattern| <= 1
    || ((forall c :: CanBegin(pattern[1..], c) ==> !InRun(pattern[0], c)) && Separated(pattern[1..]))
  }

  lemma {:induction false} SpaceRunFacts(s: string, i: nat)
    requires i <= |s|
    ensures forall k :: i <= k < SpaceRun(s, i) ==> IsSpace(s[k])
    ensures SpaceRun(s, i) == |s| || !IsSpace(s[SpaceRun(s, i)])
    decreases |s| - i
  {
    if i < |s| && IsSpace(s[i]) {
      SpaceRunFacts(s, i + 1);
    }
  }

  lemma {:induction false} SpaceRunCovers(s: string, i: nat, a: nat)
    requires i <= a <= |s| && forall k :: i <= k < a ==> IsSpace(s[k])
    ensures a <= SpaceRun(s, i)
    decreases a - i
  {
    if i < a {
      SpaceRunCovers(s, i + 1, a);
    }
  }

  lemma DigitRunAt(s: string, i: nat, b: nat)
    requires i <= b <= |s| && (forall k :: i <= k < b ==> IsDigit(s[k])) && (b == |s| || !IsDigit(s[b]))
    ensures DigitRun(s, i) == b
  {
    DigitRunCovers(s, i, b);
    DigitRunFacts(s, i);
  }

  /** A greedy token match spans a string of the token and stops where the run cannot go on. */
  lemma TokenAtSpan(s: string, p: nat, t: Token)
    requires p <= |s| && TokenAt(s, p, t).Some?
    ensures TokenSpan(s, p, TokenAt(s, p, t).value, t)
    ensures TokenAt(s, p, t).value == |s| || !InRun(t, s[TokenAt(s, p, t).value])
  {
    match t
    case Spaces(_) => SpaceRunFacts(s, p);
    case Digits => DigitRunFacts(s, p);
    case Literal(_) =>
  }

  /** If the token spans s[p..k], the greedy match succeeds, reaches at least k, and ends at k when the run cannot go on. */
  lemma TokenAtComplete(s: string, p: nat, k: nat, t: Token)
    requires p <= k <= |s| && TokenSpan(s, p, k, t)
    ensures TokenAt(s, p, t).Some? && k <= TokenAt(s, p, t).value
    ensures (k == |s| || !InRun(t, s[k])) ==> TokenAt(s, p, t) == Some(k)
  {
    match t
    case Spaces(_) =>
      SpaceRunCovers(s, p, k);
      if k == |s| || !IsSpace(s[k]) {
        SpaceRunIs(s, p, k);
      }
    case Digits =>
      DigitRunCovers(s, p, k);
      if k == |s| || !IsDigit(s[k]) {
        DigitRunAt(s, p, k);
      }
    case Literal(_) =>
  }

  /** The matcher only ends on strings of the pattern. */
  lemma {:induction false} MatchTokensSpan(s: string, p: nat, pattern: seq<Token>)
    requires p <= |s| && MatchTokens(s, p, pattern).Some?
    ensures PatternSpan(s, p, MatchTokens(s, p, pattern).value, pattern)
    ensures pattern != [] ==>
      MatchTokens(s, p, pattern).value == |s| || !InRun(pattern[|pattern| - 1], s[MatchTokens(s, p, pattern).value])
    decreases |pattern|
  {
    if pattern != [] {
      var q := TokenAt(s, p, pattern[0]).value;
      TokenAtSpan(s, p, pattern[0]);
      MatchTokensSpan(s, q, pattern[1..]);
      if |pattern| > 1 {
        assert pattern[1..][|pattern[1..]| - 1] == pattern[|pattern| - 1];
      }
    }
  }

  lemma TokenSpanConsumes(s: string, p: nat, k: nat, t: Token)
    requires p <= k <= |s| && TokenSpan(s, p, k, t) && Consumes(t)
    ensures p < k
  {
  }

  /** A string of a pattern whose last token consumes is non-empty and starts with a character the pattern can begin with. */
  lemma {:induction false} PatternSpanBegins(s: string, p: nat, e: nat, pattern: seq<Token>)
    requires p <= e <= |s| && PatternSpan(s, p, e, pattern)
    requires pattern != [] && Consumes(pattern[|pattern| - 1])
    ensures p < e && CanBegin(pattern, s[p])
    decreases |pattern|
  {
    var k :| p <= k <= e && TokenSpan(s, p, k, pattern[0]) && PatternSpan(s, k, e, pattern[1..]);
    if p < k {
      match pattern[0]
      case Spaces(_) =>
      case Digits =>
      case Literal(w) => assert s[p..k][0] == s[p];
    } else {
      if Consumes(pattern[0]) {
        TokenSpanConsumes(s, p, k, pattern[0]);
      }
      assert !Consumes(pattern[0]) && |pattern| > 1;
      assert pattern[1..][|pattern[1..]| - 1] == pattern[|pattern| - 1];
      PatternSpanBegins(s, k, e, pattern[1..]);
    }
  }

  /**
   * On a separated pattern whose last token consumes, every string of the
   * pattern at p is found by the matcher, which reaches at least its end and
   * stops exactly there when the last run cannot go on.
   */
  lemma {:induction false} MatchTokensComplete(s: string, p: nat, e: nat, pattern: seq<Token>)
    requires p <= e <= |s| && PatternSpan(s, p, e, pattern)
    requires pattern != [] && Consumes(pattern[|pattern| - 1]) && Separated(pattern)
    ensures MatchTokens(s, p, pattern).Some? && e <= MatchTokens(s, p, pattern).value
    ensures (e == |s| || !InRun(pattern[|pattern| - 1], s[e])) ==> MatchTokens(s, p, pattern) == Some(e)
    decreases |pattern|
  {
    var k :| p <= k <= e && TokenSpan(s, p, k, pattern[0]) && PatternSpan(s, k, e, pattern[1..]);
    if |pattern| == 1 {
      TokenAtComplete(s, p, k, pattern[0]);
    } else {
      var rest := pattern[1..];
      assert rest[|rest| - 1] == pattern[|pattern| - 1];
      PatternSpanBegins(s, k, e, rest);
      TokenAtComplete(s, p, k, pattern[0]);
      MatchTokensComplete(s, k, e, rest);
    }
  }

  /** \s+Pages\s+\d+\s*–\s*\d+ is separated: 'P', digits and the en dash are not whitespace, whitespace and the en dash are not digits. */
  lemma PagesPatternSeparated()
    ensures Separated(PagesPattern) && Consumes(PagesPattern[|PagesPattern| - 1])
  {
    var pat := PagesPattern;
    forall c | CanBegin(pat[7..], c) ensures !InRun(pat[6], c) {
      assert IsDigit(c);
    }
    assert Separated(pat[6..]);
    assert Separated(pat[5..]);
    forall c | CanBegin(pat[5..], c) ensures !InRun(pat[4], c) {
      assert c == EnDash;
    }
    assert Separated(pat[4..]);
    forall c | CanBegin(pat[4..], c) ensures !InRun(pat[3], c) {
      assert IsSpace(c) || CanBegin(pat[5..], c);
    }
    assert Separated(pat[3..]);
    forall c | CanBegin(pat[3..], c) ensures !InRun(pat[2], c) {
      assert IsDigit(c);
    }
    assert Separated(pat[2..]);
    assert Separated(pat[1..]);
    forall c | CanBegin(pat[1..], c) ensures !InRun(pat[0], c) {
      assert c == 'P';
    }
  }

  /**
   * PagesMatchAt finds a fragment exactly when one starts at p, and ends it
   * where re's greedy \d+ does: after the whole final run of digits.
   */
  lemma PagesMatchAtFragment(s: string, p: nat, e: nat)
    requires p <= e <= |s|
    ensures PagesMatchAt(s, p) == Some(e) <==> PagesFragment(s, p, e) && (e == |s| || !IsDigit(s[e]))
  {
    PagesPatternSeparated();
    if PagesMatchAt(s, p) == Some(e) {
      MatchTokensSpan(s, p, PagesPattern);
    }
    if PagesFragment(s, p, e) {
      MatchTokensComplete(s, p, e, PagesPattern);
    }
  }

  /** PagesMatchAt fails exactly when no fragment starts at p. */
  lemma PagesMatchAtNone(s: string, p: nat)
    requires p <= |s|
    ensures PagesMatchAt(s, p).None? <==> forall e :: p <= e <= |s| ==> !PagesFragment(s, p, e)
  {
    PagesPatternSeparated();
    if PagesMatchAt(s, p).Some? {
      MatchTokensSpan(s, p, PagesPattern);
      assert PagesFragment(s, p, PagesMatchAt(s, p).value);
    }
    forall e | p <= e <= |s| && PagesFragment(s, p, e) ensures PagesMatchAt(s, p).Some? {
      MatchTokensComplete(s, p, e, PagesPattern);
    }
  }

  /** A complete page reference from q to e is dropped. */
  lemma RemovePagesDropsAt(s: string, q: nat, e: nat)
    requires q <= e <= |s| && PagesFragment(s, q, e) && (e == |s| || !IsDigit(s[e]))
    ensures RemovePagesFrom(s, q) == RemovePagesFrom(s, e)
  {
    PagesMatchAtFragment(s, q, e);
    assert PagesMatchAt(s, q) == Some(e);
  }

  /** Where the matcher finds no page reference, the characters are copied unchanged. */
  lemma {:induction false} RemovePagesCopiesRun(s: string, p: nat, q: nat)
    requires p <= q <= |s|
    requires forall r :: p <= r < q ==> PagesMatchAt(s, r).None?
    ensures RemovePagesFrom(s, p) == s[p..q] + RemovePagesFrom(s, q)
    decreases q - p
  {
    if p < q {
      var rest := RemovePagesFrom(s, q);
      RemovePagesCopies(s, p);
      RemovePagesCopiesRun(s, p + 1, q);
      assert s[p..q] == [s[p]] + s[p + 1..q];
      assert [s[p]] + (s[p + 1..q] + rest) == ([s[p]] + s[p + 1..q]) + rest;
    }
  }

  /**
   * re.sub scans left to right: the text before the leftmost fragment is
   * copied, the fragment (with its whole final number) is dropped, and the
   * scan goes on after it.
   */
  lemma RemovePagesLeftmost(s: string, p: nat, q: nat, e: nat)
    requires p <= q <= e <= |s|
    requires forall r, e' :: p <= r < q && r <= e' <= |s| ==> !PagesFragment(s, r, e')
    requires PagesFragment(s, q, e) && (e == |s| || !IsDigit(s[e]))
    ensures RemovePagesFrom(s, p) == s[p..q] + RemovePagesFrom(s, e)
  {
    forall r | p <= r < q ensures PagesMatchAt(s, r).None? {
      PagesMatchAtNone(s, r);
    }
    RemovePagesCopiesRun(s, p, q);
    RemovePagesDropsAt(s, q, e);
  }



  // ---------------------------------------------------------------------
  // structure_toc

  /** The page offset structure_toc adds to the printed numbers unless told otherwise. */
  const DefaultPageOffset: int := 2

  /** A ToC item; end_page is absent until the second loop sets it. */
  datatype TocItem = TocItem(title: string, startPage: int, endPage: Option<int>)

  /** The item a raw line contributes, if any. */
  function ItemOf(raw: string, pageOffset: int): (r: Option<TocItem>)
    ensures r.Some? ==> r.value.title != [] && IsStripped(r.value.title) && r.value.endPage.None?
  {
    match ParseLine(Strip(raw))
    case None => None
    case Some(sec) =>
      var title := Strip(RemovePages(sec.title));
      if title == [] then None else Some(TocItem(title, sec.number + pageOffset, None))
  }

  /** The items of the lines, in line order. */
  function ParsedItems(lines: seq<string>, pageOffset: int): (r: seq<TocItem>)
    ensures |r| <= |lines|
  {
    if lines == [] then []
    else
      var init := ParsedItems(lines[..|lines| - 1], pageOffset);
      match ItemOf(lines[|lines| - 1], pageOffset)
      case Some(item) => init + [item]
      case None => init
  }

  /** The first loop of structure_toc. */
  method CollectItems(lines: seq<string>, pageOffset: int) returns (items: seq<TocItem>)
    ensures items == ParsedItems(lines, pageOffset)
  {
    items := [];
    for k := 0 to |lines|
      invariant items == ParsedItems(lines[..k], pageOffset)
    {
      assert lines[..k + 1][..k] == lines[..k];
      var line := Strip(lines[k]);
      var m := ParseLine(line);
      if m.Some? {
        var title := Strip(RemovePages(m.value.title));
        if title != [] {
          items := items + [TocItem(title, m.value.number + pageOffset, None)];
        }
      }
    }
    assert lines[..|lines|] == lines;
  }

  /** The items with their end pages: one before the next item's start, 999 for the last. */
  function WithEndPages(parsed: seq<TocItem>): (r: seq<TocItem>)
    ensures |r| == |parsed|
  {
    seq(|parsed|, k requires 0 <= k < |parsed| =>
      parsed[k].(endPage := Some(if k + 1 < |parsed| then parsed[k + 1].startPage - 1 else 999)))
  }

  /** structure_toc keeps the parsed items, in order, with their titles and start pages. */
  lemma WithEndPagesKeeps(parsed: seq<TocItem>)
    ensures parsed == [] ==> WithEndPages(parsed) == []
    ensures forall k :: 0 <= k < |parsed| ==>
      WithEndPages(parsed)[k].title == parsed[k].title && WithEndPages(parsed)[k].startPage == parsed[k].startPage
  {
  }

  /**
   * Consecutive sections neither overlap nor leave a gap, and the last one is
   * open-ended at page 999.
   */
  lemma WithEndPagesChain(parsed: seq<TocItem>)
    ensures forall i, j :: 0 <= i && j == i + 1 && j < |parsed| ==>
      WithEndPages(parsed)[i].endPage == Some(WithEndPages(parsed)[j].startPage - 1)
    ensures parsed != [] ==> WithEndPages(parsed)[|parsed| - 1].endPage == Some(999)
  {
  }

  /** The end of structure_toc: the second loop and the 999 of the last section. */
  method SetEndPages(parsed: seq<TocItem>) returns (items: seq<TocItem>)
    ensures items == WithEndPages(parsed)
  {
    if parsed == [] {
      return [];
    }
    ghost var want := WithEndPages(parsed);
    var n := |parsed|;
    items := parsed;
    for i := 0 to n - 1
      invariant |items| == n
      invariant forall k :: 0 <= k < i ==> items[k] == want[k]
      invariant forall k :: i <= k < n ==> items[k] == parsed[k]
    {
      assert want[i] == parsed[i].(endPage := Some(parsed[i + 1].startPage - 1));
      items := items[i := items[i].(endPage := Some(items[i + 1].startPage - 1))];
    }
    assert want[n - 1] == parsed[n - 1].(endPage := Some(999));
    items := items[n - 1 := items[n - 1].(endPage := Some(999))];
    assert forall k :: 0 <= k < n ==> items[k] == want[k];
  }

  /** structure_toc: split the text into lines, collect the items, set their end pages. */
  method StructureToc(tocText: string, pageOffset: int) returns (items: seq<TocItem>)
    ensures items == WithEndPages(ParsedItems(SplitOn(tocText, '\n'), pageOffset))
  {
    var lines := SplitOn(tocText, '\n');
    var structured := CollectItems(lines, pageOffset);
    items := SetEndPages(structured);
  }

  // ---------------------------------------------------------------------
  // Examples

  /**
   * A line gives an item exactly when its stripped text matches
   * ^\s*(\d+)\s+(.*) and the title, cleaned of page ranges and stripped, is
   * not empty; the item then has that title and starts at number + offset.
   */
  lemma ItemOfMatches(raw: string, pageOffset: int)
    ensures ItemOf(raw, pageOffset).Some? <==>
      MatchesSection(Strip(raw)) && ParseLine(Strip(raw)).Some? && Strip(RemovePages(ParseLine(Strip(raw)).value.title)) != []
    ensures ItemOf(raw, pageOffset).Some? ==>
      ItemOf(raw, pageOffset).value.title == Strip(RemovePages(ParseLine(Strip(raw)).value.title))
    ensures ItemOf(raw, pageOffset).Some? ==>
      ItemOf(raw, pageOffset).value.startPage == ParseLine(Strip(raw)).value.number + pageOffset
  {
    ParseLineMatches(Strip(raw));
  }

  /** The first loop keeps the items of the lines that give one. */
  lemma {:induction false} ParsedItemsFilter(lines: seq<string>, pageOffset: int)
    ensures ParsedItems(lines, pageOffset) == FilterMap(l => ItemOf(l, pageOffset), lines)
  {
    if lines != [] {
      ParsedItemsFilter(lines[..|lines| - 1], pageOffset);
    }
  }

  /** Every item comes from a line, and items keep the order of their lines. */
  lemma ParsedItemsFromLines(lines: seq<string>, pageOffset: int) returns (origin: seq<nat>)
    ensures |origin| == |ParsedItems(lines, pageOffset)|
    ensures forall k :: 0 <= k < |origin| ==>
      origin[k] < |lines| && ItemOf(lines[origin[k]], pageOffset) == Some(ParsedItems(lines, pageOffset)[k])
    ensures forall i, j :: 0 <= i < j < |origin| ==> origin[i] < origin[j]
  {
    ParsedItemsFilter(lines, pageOffset);
    origin := FilterMapOrigins(l => ItemOf(l, pageOffset), lines);
  }

  /** No line with a numbered, non-empty title gives no items, and then structure_toc returns []. */
  lemma {:induction false} ParsedItemsEmpty(lines: seq<string>, pageOffset: int)
    ensures ParsedItems(lines, pageOffset) == [] <==> forall k :: 0 <= k < |lines| ==> ItemOf(lines[k], pageOffset).None?
  {
    if lines != [] {
      var n := |lines| - 1;
      ParsedItemsEmpty(lines[..n], pageOffset);
      assert forall k :: 0 <= k < n ==> lines[..n][k] == lines[k];
    }
  }

  /** "Scope" has no page range to remove. */
  lemma ScopeHasNoPages()
    ensures RemovePages("Scope") == "Scope"
  {
    forall q | 0 <= q < 5 ensures PagesMatchAt("Scope", q).None? {
      assert SpaceRun("Scope", q) == q;
    }
    RemovePagesNoFragment("Scope", 0);
  }

  /** The title used by the page-range examples. */
  const PagesTitle: string := "Scope Pages 4 \U{2013} 7"

  /** " Pages 4 – 7" is a fragment: it starts at position 5 and runs to the end. */
  lemma PagesTitleFragment()
    ensures PagesMatchAt(PagesTitle, 5) == Some(17)
  {
    var s := PagesTitle;
    var pat := PagesPattern;
    assert SpaceRun(s, 5) == 6;
    assert s[6..11] == "Pages";
    assert SpaceRun(s, 11) == 12;
    assert DigitRun(s, 12) == 13;
    assert SpaceRun(s, 13) == 14;
    assert s[14..15] == [EnDash];
    assert SpaceRun(s, 15) == 16;
    assert DigitRun(s, 16) == 17;
    assert MatchTokens(s, 17, pat[8..]) == Some(17);
    assert MatchTokens(s, 16, pat[7..]) == Some(17);
    assert MatchTokens(s, 15, pat[6..]) == Some(17);
    assert MatchTokens(s, 14, pat[5..]) == Some(17);
    assert MatchTokens(s, 13, pat[4..]) == Some(17);
    assert MatchTokens(s, 12, pat[3..]) == Some(17);
    assert MatchTokens(s, 11, pat[2..]) == Some(17);
    assert MatchTokens(s, 6, pat[1..]) == Some(17);
    assert pat[0..] == pat;
  }

  /** No fragment starts inside "Scope". */
  lemma PagesTitleWord()
    ensures forall q :: 0 <= q < 5 ==> PagesMatchAt(PagesTitle, q).None?
  {
    forall q | 0 <= q < 5 ensures PagesMatchAt(PagesTitle, q).None? {
      assert SpaceRun(PagesTitle, q) == q;
    }
  }

  /** A trailing page range is cut from a title. */
  lemma ExamplePagesRemoved()
    ensures RemovePages(PagesTitle) == "Scope"
  {
    var s := PagesTitle;
    PagesTitleWord();
    PagesTitleFragment();
    assert RemovePagesFrom(s, 17) == [];
    assert RemovePagesFrom(s, 5) == [];
    RemovePagesCopies(s, 4);
    RemovePagesCopies(s, 3);
    RemovePagesCopies(s, 2);
    RemovePagesCopies(s, 1);
    RemovePagesCopies(s, 0);
    assert [s[0]] + ([s[1]] + ([s[2]] + ([s[3]] + ([s[4]] + [])))) == "Scope";
  }

  /** "3  Scope" at the default offset starts at page 5. */
  lemma ExampleLine()
    ensures ItemOf("3  Scope", DefaultPageOffset) == Some(TocItem("Scope", 5, None))
  {
    StripOfStripped("3  Scope");
    assert Numeral(3) == "3";
    ParseLineInverse(3, "  ", "Scope");
    assert "3" + "  " + "Scope" == "3  Scope";
    ScopeHasNoPages();
    StripOfStripped("Scope");
    ItemOfMatches("3  Scope", 2);
  }

  /** A line that does not start with a number contributes nothing. */
  lemma ExampleNoNumber()
    ensures ItemOf("Contents", 2) == None
  {
    StripOfStripped("Contents");
    assert DigitRun("Contents", 0) == 0;
  }
}
