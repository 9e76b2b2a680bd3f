// Shared vocabulary of the document aligner: optional values and results,
// Python's string helpers (strip, split, join, word counting), score
// matrices with numpy/torch-style first argmax, the content item record and
// the configuration constants of config.py.

module Util {
  datatype Option<+T> = None | Some(value: T) {
    function GetOr(default: T): T {
      match this
      case Some(v) => v
      case None => default
    }
  }

  datatype Result<+T, +E> = Ok(value: T) | Err(error: E)

  function Max(a: int, b: int): int { if a < b then b else a }

  /** The concatenation of a sequence of sequences. */
  function Flatten<T>(ss: seq<seq<T>>): seq<T> {
    if ss == [] then [] else Flatten(ss[..|ss| - 1]) + ss[|ss| - 1]
  }

  lemma FlattenSnoc<T>(ss: seq<seq<T>>, s: seq<T>)
    ensures Flatten(ss + [s]) == Flatten(ss) + s
  {
    assert (ss + [s])[..|ss|] == ss;
  }

  lemma {:induction false} FlattenAppend<T>(a: seq<seq<T>>, b: seq<seq<T>>)
    ensures Flatten(a + b) == Flatten(a) + Flatten(b)
  {
    if b == [] {
      assert a + b == a;
    } else {
      var n := |b| - 1;
      assert a + b == (a + b[..n]) + [b[n]];
      assert b == b[..n] + [b[n]];
      FlattenAppend(a, b[..n]);
      FlattenSnoc(a + b[..n], b[n]);
      FlattenSnoc(b[..n], b[n]);
    }
  }

  /** A set of sizes is empty or has a member (for choosing elements with :|). */
  lemma RealSetMember(s: set<real>)
    ensures s == {} || exists x :: x in s
  {
    if !(exists x :: x in s) {
      assert forall x :: x in s <==> x in {};
    }
  }

  lemma SnocAssoc<T>(f: seq<T>, c: seq<T>, x: T)
    ensures (f + c) + [x] == f + (c + [x])
  {
  }

  /** The present results of f over s, in order. */
  function FilterMap<A, B>(f: A -> Option<B>, s: seq<A>): seq<B> {
    if s == [] then []
    else FilterMap(f, s[..|s| - 1]) + match f(s[|s| - 1]) case Some(b) => [b] case None => []
  }

  /** Each result of FilterMap comes from an element of s, and results keep the order of their elements. */
  lemma {:induction false} FilterMapOrigins<A, B>(f: A -> Option<B>, s: seq<A>) returns (origin: seq<nat>)
    ensures |origin| == |FilterMap(f, s)|
    ensures forall k :: 0 <= k < |origin| ==> origin[k] < |s| && f(s[origin[k]]) == Some(FilterMap(f, s)[k])
    ensures forall i, j :: 0 <= i < j < |origin| ==> origin[i] < origin[j]
  {
    if s == [] {
      origin := [];
    } else {
      var n := |s| - 1;
      var o := FilterMapOrigins(f, s[..n]);
      var before := FilterMap(f, s[..n]);
      assert forall k :: 0 <= k < |o| ==> s[o[k]] == s[..n][o[k]];
      if f(s[n]).Some? {
        assert FilterMap(f, s) == before + [f(s[n]).value];
        origin := o + [n];
      } else {
        assert FilterMap(f, s) == before;
        origin := o;
      }
    }
  }
}

module Text {
  /** The six ASCII whitespace characters space, \t, \n, \v, \f, \r (str.isspace also accepts \x1c-\x1f). */
  predicate IsSpace(c: char) {
    c == ' ' || c == '\t' || c == '\n' || c == '\r' || c as int == 11 || c as int == 12
  }

  predicate IsDigit(c: char) { '0' <= c <= '9' }

  /** No leading and no trailing whitespace: what str.strip() returns. */
  predicate IsStripped(s: string) {
    s == [] || (!IsSpace(s[0]) && !IsSpace(s[|s| - 1]))
  }

  predicate AllSpace(s: string) {
    forall i :: 0 <= i < |s| ==> IsSpace(s[i])
  }

  /** str.strip(): drop leading and trailing whitespace and nothing else. */
  function Strip(s: string): (r: string)
    ensures IsStripped(r)
    ensures |r| <= |s|
    ensures r == [] <==> AllSpace(s)
  {
    if s != [] && IsSpace(s[0]) then
      assert AllSpace(s) <==> AllSpace(s[1..]) by {
        assert forall i :: 0 < i < |s| ==> s[i] == s[1..][i - 1];
      }
      Strip(s[1..])
    else if s != [] && IsSpace(s[|s| - 1]) then
      assert AllSpace(s) <==> AllSpace(s[..|s| - 1]) by {
        assert forall i :: 0 <= i < |s| - 1 ==> s[i] == s[..|s| - 1][i];
      }
      Strip(s[..|s| - 1])
    else s
  }

  /** The witness of StripIsSlice: where the stripped text starts. */
  ghost predicate IsStripOf(s: string, r: string, a: nat) {
    a + |r| <= |s| && r == s[a..a + |r|] && AllSpace(s[..a]) && AllSpace(s[a + |r|..])
  }

  /** strip() removes a whitespace prefix and a whitespace suffix and keeps the rest. */
  lemma {:induction false} StripIsSlice(s: string) returns (a: nat)
    ensures IsStripOf(s, Strip(s), a)
  {
    if s != [] && IsSpace(s[0]) {
      var a' := StripIsSlice(s[1..]);
      a := a' + 1;
      StripOfDropped(s, Strip(s), a');
    } else if s != [] && IsSpace(s[|s| - 1]) {
      a := StripIsSlice(s[..|s| - 1]);
      StripOfTrimmed(s, Strip(s), a);
    } else {
      a := 0;
      assert s[0..|s|] == s;
    }
  }

  lemma StripOfDropped(s: string, r: string, a: nat)
    requires s != [] && IsSpace(s[0]) && IsStripOf(s[1..], r, a)
    ensures IsStripOf(s, r, a + 1)
  {
    var t := s[1..];
    assert t[a..a + |r|] == s[a + 1..a + 1 + |r|];
    assert t[a + |r|..] == s[a + 1 + |r|..];
    var u := s[..a + 1];
    forall i | 0 <= i < |u| ensures IsSpace(u[i]) {
      if i > 0 {
        assert u[i] == t[..a][i - 1];
      }
    }
  }

  lemma StripOfTrimmed(s: string, r: string, a: nat)
    requires s != [] && IsSpace(s[|s| - 1]) && IsStripOf(s[..|s| - 1], r, a)
    ensures IsStripOf(s, r, a)
  {
    var t := s[..|s| - 1];
    assert t[a..a + |r|] == s[a..a + |r|];
    assert t[..a] == s[..a];
    var u := s[a + |r|..];
    forall i | 0 <= i < |u| ensures IsSpace(u[i]) {
      if i < |t| - (a + |r|) {
        assert u[i] == t[a + |r|..][i];
      }
    }
  }

  lemma StripOfStripped(s: string)
    requires IsStripped(s)
    ensures Strip(s) == s
  {
  }

  /** Number of maximal runs of non-whitespace characters: len(s.split()). */
  function WordCount(s: string): nat {
    if s == [] then 0
    else
      var last := |s| - 1;
      WordCount(s[..last]) + (if !IsSpace(s[last]) && (last == 0 || IsSpace(s[last - 1])) then 1 else 0)
  }

  /** sep.join(parts). */
  function Join(sep: string, parts: seq<string>): string {
    if parts == [] then []
    else if |parts| == 1 then parts[0]
    else Join(sep, parts[..|parts| - 1]) + sep + parts[|parts| - 1]
  }

  /** s.split(d) for a single-character separator; joining the pieces back gives s. */
  function SplitOn(s: string, d: char): (r: seq<string>)
    ensures |r| >= 1
    ensures forall k :: 0 <= k < |r| ==> d !in r[k]
    ensures Join([d], r) == s
  {
    if s == [] then [[]]
    else
      var init := SplitOn(s[..|s| - 1], d);
      var c := s[|s| - 1];
      assert s == s[..|s| - 1] + [c];
      if c == d then init + [[]]
      else
        var r := init[..|init| - 1] + [init[|init| - 1] + [c]];
        assert r[..|r| - 1] == init[..|init| - 1];
        assert |init| > 1 ==> init[..|init| - 1][..|init| - 2] == init[..|init| - 2];
        r
  }

  /** The terminal markers `. ! ? : •` of str.endswith(('.', '!', '?', ':', '•')). */
  predicate IsTerminal(c: char) {
    c == '.' || c == '!' || c == '?' || c == ':' || c == '•'
  }

  predicate EndsWithTerminal(s: string) {
    s != [] && IsTerminal(s[|s| - 1])
  }
}

module Matrices {
  /** A dense score table indexed [row][column]. */
  type Matrix = seq<seq<real>>

  ghost predicate IsMatrix(M: Matrix, n: nat, m: nat) {
    |M| == n && forall i :: 0 <= i < n ==> |M[i]| == m
  }

  /** Index of the first maximum of a non-empty sequence (numpy/torch argmax). */
  function FirstMax(row: seq<real>): (j: nat)
    requires |row| > 0
    ensures j < |row|
    ensures forall k :: 0 <= k < |row| ==> row[k] <= row[j]
    ensures forall k :: 0 <= k < j ==> row[k] < row[j]
  {
    if |row| == 1 then 0
    else
      var k := FirstMax(row[..|row| - 1]);
      if row[|row| - 1] > row[k] then |row| - 1 else k
  }

  /** j is the first index holding the maximum of row. */
  predicate IsFirstMax(row: seq<real>, j: nat) {
    j < |row| && (forall k :: 0 <= k < |row| ==> row[k] <= row[j]) && (forall k :: 0 <= k < j ==> row[k] < row[j])
  }

  /** FirstMax is the only first maximum. */
  lemma FirstMaxUnique(row: seq<real>, j: nat)
    requires |row| > 0
    ensures IsFirstMax(row, j) <==> FirstMax(row) == j
  {
  }

  /** Matrices of the same shape with the same entries are equal. */
  lemma MatrixExt(A: Matrix, B: Matrix, n: nat, m: nat)
    requires IsMatrix(A, n, m) && IsMatrix(B, n, m)
    requires forall i, j :: 0 <= i < n && 0 <= j < m ==> A[i][j] == B[i][j]
    ensures A == B
  {
    forall i | 0 <= i < n ensures A[i] == B[i] {
      assert forall j :: 0 <= j < m ==> A[i][j] == B[i][j];
    }
  }

  function Column(M: Matrix, j: nat): (c: seq<real>)
    requires forall i :: 0 <= i < |M| ==> j < |M[i]|
    ensures |c| == |M| && forall i :: 0 <= i < |M| ==> c[i] == M[i][j]
  {
    seq(|M|, i requires 0 <= i < |M| => M[i][j])
  }

  /** np.argmax(M, axis=1)[i]: the first column holding the maximum of row i. */
  function RowArgmax(M: Matrix, i: nat): nat
    requires i < |M| && |M[i]| > 0
  {
    FirstMax(M[i])
  }

  /** np.argmax(M, axis=0)[j]: the first row holding the maximum of column j. */
  function ColArgmax(M: Matrix, j: nat): nat
    requires |M| > 0 && forall i :: 0 <= i < |M| ==> j < |M[i]|
  {
    FirstMax(Column(M, j))
  }
}

/** The configuration values of config.py, passed explicitly as one value. */
module Config {
  datatype Settings = Settings(
    similarityThreshold: real,
    wSemantic: real,
    wType: real,
    wProximity: real,
    typeMatchBonus: real,
    typeMismatchPenalty: real,
    ignoredRoles: set<string>,
    structuralRoles: set<string>)

  const Default: Settings := Settings(
    0.70, 0.7, 0.2, 0.1, 1.0, -1.0,
    {"pageHeader", "pageFooter", "pageNumber"},
    {"title", "sectionHeading", "subheading"})
}

/** A content item: the {'text', 'type', 'page'} dictionary passed between stages. */
module Content {
  datatype ContentItem = ContentItem(text: string, kind: string, page: int)
}
