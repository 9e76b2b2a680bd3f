// The aligned-section records of the PDF prototypes and the bilingual
// chunked output built from them (build_bilingual_chunked in test1.py,
// build_bilingual_json in test.py): each aligned section's English and German
// contents are chunked, the two chunk lists are paired position by position
// with "" filling the shorter side, and the result is stored under the
// English heading, a later section with the same heading replacing an
// earlier one.

module Bilingual {
  import opened Util
  import opened Chunking
  import opened Sections
  import opened HeadingAlign

  /** One aligned section: headings, score, optional confidence band (test.py only), level, pages, contents. */
  datatype Aligned = Aligned(
    headingEn: string, headingDe: string, score: real, confidence: Option<string>,
    level: int, pageEn: int, pageDe: int, contentEn: string, contentDe: string)

  /** Both indices of every pair name a section. */
  predicate InRange(ms: seq<Match>, n: nat, m: nat) {
    forall p :: 0 <= p < |ms| ==> ms[p].eng < n && ms[p].ger < m
  }

  /** The record of a pair: English heading, level and page from the English section, the rest from the German one. */
  function Record(eng: seq<Section>, ger: seq<Section>, mt: Match, confidence: Option<string>): Aligned
    requires mt.eng < |eng| && mt.ger < |ger|
  {
    var e := eng[mt.eng];
    var g := ger[mt.ger];
    Aligned(e.heading, g.heading, mt.score, confidence, e.level, e.page, g.page, e.content, g.content)
  }

  // ---------------------------------------------------------------------
  // Chunk pairs

  datatype ChunkPair = ChunkPair(en: string, de: string)

  function Blank(chunks: seq<string>, i: int): string {
    if 0 <= i < |chunks| then chunks[i] else ""
  }

  /** The pairs of the two chunk lists, as long as the longer one. */
  function Padded(en: seq<string>, de: seq<string>): (r: seq<ChunkPair>)
    ensures |r| == Max(|en|, |de|)
  {
    seq(Max(|en|, |de|), i => ChunkPair(Blank(en, i), Blank(de, i)))
  }

  function EnglishColumn(ps: seq<ChunkPair>): seq<string> {
    seq(|ps|, i requires 0 <= i < |ps| => ps[i].en)
  }

  function GermanColumn(ps: seq<ChunkPair>): seq<string> {
    seq(|ps|, i requires 0 <= i < |ps| => ps[i].de)
  }

  function Blanks(n: nat): seq<string> {
    seq(n, _ => "")
  }

  /**
   * Reading the columns back gives each side's chunks, in order, followed by
   * blanks up to the length of the longer side.
   */
  lemma PaddedColumns(en: seq<string>, de: seq<string>)
    ensures EnglishColumn(Padded(en, de)) == en + Blanks(Max(|en|, |de|) - |en|)
    ensures GermanColumn(Padded(en, de)) == de + Blanks(Max(|en|, |de|) - |de|)
  {
  }

  /** The pairing loop. */
  method PadChunks(en: seq<string>, de: seq<string>) returns (pairs: seq<ChunkPair>)
    ensures pairs == Padded(en, de)
  {
    pairs := [];
    for i := 0 to Max(|en|, |de|)
      invariant pairs == Padded(en, de)[..i]
    {
      var e := if i < |en| then en[i] else "";
      var d := if i < |de| then de[i] else "";
      pairs := pairs + [ChunkPair(e, d)];
    }
  }

  // ---------------------------------------------------------------------
  // The dictionary keyed by English heading

  /** The value stored for a heading. */
  datatype Entry = Entry(
    matchScore: real, confidence: Option<string>, level: int, pageEn: int, pageDe: int, chunks: seq<ChunkPair>)

  function EntryOf(a: Aligned, maxWords: int, sentences: string -> seq<string>): Entry {
    Entry(a.score, a.confidence, a.level, a.pageEn, a.pageDe,
      Padded(TextChunks(a.contentEn, maxWords, sentences), TextChunks(a.contentDe, maxWords, sentences)))
  }

  /** Successive assignments `d[keys[i]] = vals[i]` into an empty dictionary. */
  function ByKey<K, V>(keys: seq<K>, vals: seq<V>): map<K, V>
    requires |keys| == |vals|
  {
    if keys == [] then map[]
    else ByKey(keys[..|keys| - 1], vals[..|vals| - 1])[keys[|keys| - 1] := vals[|vals| - 1]]
  }

  /** i is the last position holding its key. */
  ghost predicate LastOf<K>(keys: seq<K>, i: int) {
    0 <= i < |keys| && forall j :: i < j < |keys| ==> keys[j] != keys[i]
  }

  /** The position where k is last assigned. */
  ghost function LastAt<K>(keys: seq<K>, k: K): (r: nat)
    requires k in keys
    ensures LastOf(keys, r) && keys[r] == k
  {
    var n := |keys| - 1;
    if keys[n] == k then n else
      assert keys == keys[..n] + [keys[n]];
      LastAt(keys[..n], k)
  }

  /** The keys are those assigned. */
  lemma {:induction false} ByKeyKeys<K, V>(keys: seq<K>, vals: seq<V>)
    requires |keys| == |vals|
    ensures ByKey(keys, vals).Keys == set k | k in keys
  {
    if keys != [] {
      var n := |keys| - 1;
      ByKeyKeys(keys[..n], vals[..n]);
      assert keys == keys[..n] + [keys[n]];
    }
  }

  /** The last assignment to a key is the value it holds. */
  lemma {:induction false} ByKeyAt<K, V>(keys: seq<K>, vals: seq<V>, i: int)
    requires |keys| == |vals| && LastOf(keys, i)
    ensures keys[i] in ByKey(keys, vals) && ByKey(keys, vals)[keys[i]] == vals[i]
  {
    var n := |keys| - 1;
    if i < n {
      assert keys[..n][i] == keys[i] && vals[..n][i] == vals[i];
      assert LastOf(keys[..n], i);
      ByKeyAt(keys[..n], vals[..n], i);
    }
  }

  /** The keys are those assigned, and each holds the value of its last assignment. */
  lemma ByKeyLastWins<K, V>(keys: seq<K>, vals: seq<V>)
    requires |keys| == |vals|
    ensures ByKey(keys, vals).Keys == set k | k in keys
    ensures forall i :: LastOf(keys, i) ==> keys[i] in ByKey(keys, vals) && ByKey(keys, vals)[keys[i]] == vals[i]
  {
    ByKeyKeys(keys, vals);
    forall i | LastOf(keys, i) ensures keys[i] in ByKey(keys, vals) && ByKey(keys, vals)[keys[i]] == vals[i] {
      ByKeyAt(keys, vals, i);
    }
  }

  /** The order of a dictionary's keys: each key where it was first assigned. */
  function KeyOrder<K(==, !new)>(keys: seq<K>): (r: seq<K>)
    ensures forall k :: k in r <==> k in keys
  {
    if keys == [] then []
    else
      var n := |keys| - 1;
      assert keys == keys[..n] + [keys[n]];
      if keys[n] in keys[..n] then KeyOrder(keys[..n]) else KeyOrder(keys[..n]) + [keys[n]]
  }

  /** The position where k is first assigned. */
  ghost function FirstAt<K>(keys: seq<K>, k: K): (r: nat)
    requires k in keys
    ensures r < |keys| && keys[r] == k && forall j :: 0 <= j < r ==> keys[j] != k
  {
    var n := |keys| - 1;
    if k in keys[..n] then FirstAt(keys[..n], k) else n
  }

  /** The keys come in the order of their first assignment, so none repeats. */
  lemma {:induction false} KeyOrderFirst<K(!new)>(keys: seq<K>)
    ensures forall a, b :: 0 <= a < b < |KeyOrder(keys)| ==>
      FirstAt(keys, KeyOrder(keys)[a]) < FirstAt(keys, KeyOrder(keys)[b])
  {
    if keys != [] {
      var n := |keys| - 1;
      var init := keys[..n];
      var r := KeyOrder(keys);
      var ri := KeyOrder(init);
      KeyOrderFirst(init);
      forall a | 0 <= a < |ri| ensures FirstAt(keys, ri[a]) == FirstAt(init, ri[a]) < n {
        assert ri[a] in init;
      }
      forall a, b | 0 <= a < b < |r| ensures FirstAt(keys, r[a]) < FirstAt(keys, r[b]) {
        assert r[a] == ri[a];
        if b < |ri| {
          assert r[b] == ri[b];
        } else {
          assert r[b] == keys[n] && keys[n] !in init;
        }
      }
    }
  }

  /** Assigning one more key appends it to the order when it is new. */
  lemma KeyOrderSnoc<K(!new)>(keys: seq<K>, k: nat)
    requires k < |keys|
    ensures KeyOrder(keys[..k + 1]) == KeyOrder(keys[..k]) + (if keys[k] in keys[..k] then [] else [keys[k]])
  {
    assert keys[..k + 1][..k] == keys[..k];
  }

  function HeadingsEn(aligned: seq<Aligned>): seq<string> {
    seq(|aligned|, i requires 0 <= i < |aligned| => aligned[i].headingEn)
  }

  function Entries(aligned: seq<Aligned>, maxWords: int, sentences: string -> seq<string>): seq<Entry> {
    seq(|aligned|, i requires 0 <= i < |aligned| => EntryOf(aligned[i], maxWords, sentences))
  }

  /** The output dictionary. */
  function BilingualMap(aligned: seq<Aligned>, maxWords: int, sentences: string -> seq<string>): map<string, Entry> {
    ByKey(HeadingsEn(aligned), Entries(aligned, maxWords, sentences))
  }

  lemma HeadingsEnSet(aligned: seq<Aligned>)
    ensures (set k | k in HeadingsEn(aligned)) == set i | 0 <= i < |aligned| :: aligned[i].headingEn
  {
    var keys := HeadingsEn(aligned);
    forall k | k in keys ensures k in set i | 0 <= i < |aligned| :: aligned[i].headingEn {
      var i :| 0 <= i < |keys| && keys[i] == k;
      assert aligned[i].headingEn == k;
    }
    forall i | 0 <= i < |aligned| ensures aligned[i].headingEn in keys {
      assert keys[i] == aligned[i].headingEn;
    }
  }

  /**
   * The keys are the English headings, and each holds the entry of the last
   * aligned section with that heading: its score, level and pages and the
   * padded pairs of its chunked contents.
   */
  lemma BilingualLastWins(aligned: seq<Aligned>, maxWords: int, sentences: string -> seq<string>)
    ensures BilingualMap(aligned, maxWords, sentences).Keys == set i | 0 <= i < |aligned| :: aligned[i].headingEn
    ensures forall i :: 0 <= i < |aligned| && (forall j :: i < j < |aligned| ==> aligned[j].headingEn != aligned[i].headingEn) ==>
      aligned[i].headingEn in BilingualMap(aligned, maxWords, sentences)
      && BilingualMap(aligned, maxWords, sentences)[aligned[i].headingEn] == EntryOf(aligned[i], maxWords, sentences)
  {
    var keys := HeadingsEn(aligned);
    var entries := Entries(aligned, maxWords, sentences);
    ByKeyKeys(keys, entries);
    HeadingsEnSet(aligned);
    forall i | 0 <= i < |aligned| && (forall j :: i < j < |aligned| ==> aligned[j].headingEn != aligned[i].headingEn)
      ensures aligned[i].headingEn in BilingualMap(aligned, maxWords, sentences)
      ensures BilingualMap(aligned, maxWords, sentences)[aligned[i].headingEn] == EntryOf(aligned[i], maxWords, sentences)
    {
      assert forall j :: i < j < |aligned| ==> keys[j] == aligned[j].headingEn;
      ByKeyAt(keys, entries, i);
      assert keys[i] == aligned[i].headingEn && entries[i] == EntryOf(aligned[i], maxWords, sentences);
    }
  }

  /**
   * The dictionary as json.dump writes it: the English headings in the order
   * of their first aligned section, none repeated, each with the entry of its
   * last aligned section.
   */
  lemma BilingualKeyOrder(aligned: seq<Aligned>, maxWords: int, sentences: string -> seq<string>)
    ensures var order := KeyOrder(HeadingsEn(aligned));
      && (forall h :: h in order <==> h in BilingualMap(aligned, maxWords, sentences))
      && (forall a, b :: 0 <= a < b < |order| ==>
            FirstAt(HeadingsEn(aligned), order[a]) < FirstAt(HeadingsEn(aligned), order[b]))
      && (forall a :: 0 <= a < |order| ==>
            BilingualMap(aligned, maxWords, sentences)[order[a]]
            == EntryOf(aligned[LastAt(HeadingsEn(aligned), order[a])], maxWords, sentences))
  {
    var keys := HeadingsEn(aligned);
    var order := KeyOrder(keys);
    ByKeyKeys(keys, Entries(aligned, maxWords, sentences));
    KeyOrderFirst(keys);
    forall a | 0 <= a < |order|
      ensures BilingualMap(aligned, maxWords, sentences)[order[a]]
        == EntryOf(aligned[LastAt(keys, order[a])], maxWords, sentences)
    {
      var i := LastAt(keys, order[a]);
      ByKeyAt(keys, Entries(aligned, maxWords, sentences), i);
    }
  }

  /** Assigning one more key is updating the dictionary built from the earlier ones. */
  lemma ByKeyPrefix<K, V>(keys: seq<K>, vals: seq<V>, k: nat)
    requires |keys| == |vals| && k < |keys|
    ensures ByKey(keys[..k + 1], vals[..k + 1]) == ByKey(keys[..k], vals[..k])[keys[k] := vals[k]]
  {
    assert keys[..k + 1][..k] == keys[..k] && vals[..k + 1][..k] == vals[..k];
  }

  lemma HeadingsEnPrefix(aligned: seq<Aligned>, k: nat)
    requires k <= |aligned|
    ensures HeadingsEn(aligned[..k]) == HeadingsEn(aligned)[..k]
  {
  }

  lemma EntriesPrefix(aligned: seq<Aligned>, k: nat, maxWords: int, sentences: string -> seq<string>)
    requires k <= |aligned|
    ensures Entries(aligned[..k], maxWords, sentences) == Entries(aligned, maxWords, sentences)[..k]
  {
  }

  /** One more aligned section assigns its entry under its heading. */
  lemma BilingualMapSnoc(aligned: seq<Aligned>, k: nat, maxWords: int, sentences: string -> seq<string>)
    requires k < |aligned|
    ensures BilingualMap(aligned[..k + 1], maxWords, sentences)
      == BilingualMap(aligned[..k], maxWords, sentences)[aligned[k].headingEn := EntryOf(aligned[k], maxWords, sentences)]
  {
    HeadingsEnPrefix(aligned, k);
    HeadingsEnPrefix(aligned, k + 1);
    EntriesPrefix(aligned, k, maxWords, sentences);
    EntriesPrefix(aligned, k + 1, maxWords, sentences);
    ByKeyPrefix(HeadingsEn(aligned), Entries(aligned, maxWords, sentences), k);
  }

  /**
   * build_bilingual_chunked / build_bilingual_json: chunk both contents of
   * each aligned section, pair the chunks, and store the entry under the
   * English heading.
   */
  method BuildBilingual(aligned: seq<Aligned>, maxWords: int, sentences: string -> seq<string>)
    returns (out: map<string, Entry>, order: seq<string>)
    ensures out == BilingualMap(aligned, maxWords, sentences)
    ensures order == KeyOrder(HeadingsEn(aligned))
  {
    out := map[];
    order := [];
    for k := 0 to |aligned|
      invariant out == BilingualMap(aligned[..k], maxWords, sentences)
      invariant order == KeyOrder(HeadingsEn(aligned)[..k])
    {
      var sec := aligned[k];
      var enChunks := ChunkText(sec.contentEn, maxWords, sentences);
      var deChunks := ChunkText(sec.contentDe, maxWords, sentences);
      var pairs := PadChunks(enChunks, deChunks);
      var entry := Entry(sec.score, sec.confidence, sec.level, sec.pageEn, sec.pageDe, pairs);
      assert entry == EntryOf(sec, maxWords, sentences);
      BilingualMapSnoc(aligned, k, maxWords, sentences);
      HeadingsEnPrefix(aligned, k);
      ByKeyKeys(HeadingsEn(aligned[..k]), Entries(aligned[..k], maxWords, sentences));
      KeyOrderSnoc(HeadingsEn(aligned), k);
      if sec.headingEn !in out {
        order := order + [sec.headingEn];
      }
      out := out[sec.headingEn := entry];
    }
    assert aligned[..|aligned|] == aligned;
    assert HeadingsEn(aligned)[..|aligned|] == HeadingsEn(aligned);
  }
}
