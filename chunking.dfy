// Sentence packing of the PDF prototypes (chunk_text in test1.py and in
// test.py, identical in both). Sentences are packed greedily, in order, into
// chunks of at most max_words words; a sentence that does not fit closes the
// current chunk unless that chunk is still empty. The sentence splitter is a
// parameter.

module Chunking {
  import opened Util
  import opened Text

  /** Total number of words of the sentences (the running `count`). */
  function Words(sents: seq<string>): nat {
    if sents == [] then 0 else Words(sents[..|sents| - 1]) + WordCount(sents[|sents| - 1])
  }

  /**
   * The loop state: the sentences of the open chunk and their word count,
   * and the sentences of each chunk already closed.
   */
  datatype Packer = Packer(cur: seq<string>, count: nat, groups: seq<seq<string>>)

  /** A sentence of w words closes the open chunk when it would go over the limit and the chunk is not empty. */
  predicate Closes(p: Packer, w: nat, maxWords: int) {
    p.count + w > maxWords && p.cur != []
  }

  /** One iteration of the packing loop. */
  function Feed(p: Packer, s: string, maxWords: int): Packer {
    var w := WordCount(s);
    if Closes(p, w, maxWords) then Packer([s], w, p.groups + [p.cur])
    else Packer(p.cur + [s], p.count + w, p.groups)
  }

  function Pack(sents: seq<string>, maxWords: int): Packer {
    if sents == [] then Packer([], 0, [])
    else Feed(Pack(sents[..|sents| - 1], maxWords), sents[|sents| - 1], maxWords)
  }

  /** The sentences of each chunk: the closed groups and the last, still open, one. */
  function ChunkGroups(sents: seq<string>, maxWords: int): seq<seq<string>> {
    var p := Pack(sents, maxWords);
    if p.cur != [] then p.groups + [p.cur] else p.groups
  }

  /** Each group joined by spaces. */
  function JoinAll(groups: seq<seq<string>>): seq<string> {
    seq(|groups|, k requires 0 <= k < |groups| => Join(" ", groups[k]))
  }

  lemma JoinAllSnoc(groups: seq<seq<string>>, g: seq<string>)
    ensures JoinAll(groups + [g]) == JoinAll(groups) + [Join(" ", g)]
  {
  }

  /** The chunks of the sentences. */
  function Chunks(sents: seq<string>, maxWords: int): seq<string> {
    JoinAll(ChunkGroups(sents, maxWords))
  }

  /** A packed group: non-empty, and over the limit only when it is one sentence. */
  predicate FitsOrSingle(g: seq<string>, maxWords: int) {
    g != [] && (|g| > 1 ==> Words(g) <= maxWords)
  }

  lemma WordsAppend(a: seq<string>, s: string)
    ensures Words(a + [s]) == Words(a) + WordCount(s)
  {
    assert (a + [s])[..|a|] == a;
  }

  /** Each group would have taken the first sentence of the next one only by going over the limit. */
  ghost predicate Greedy(groups: seq<seq<string>>, maxWords: int) {
    forall i, j :: 0 <= i && j == i + 1 && j < |groups| && groups[j] != [] ==>
      Words(groups[i]) + WordCount(groups[j][0]) > maxWords
  }

  /** The running count is the number of words of the open chunk. */
  lemma {:induction false} PackCount(sents: seq<string>, maxWords: int)
    ensures Pack(sents, maxWords).count == Words(Pack(sents, maxWords).cur)
  {
    if sents != [] {
      var init := sents[..|sents| - 1];
      PackCount(init, maxWords);
      var s := sents[|sents| - 1];
      WordsAppend(Pack(init, maxWords).cur, s);
      WordsAppend([], s);
      assert [] + [s] == [s];
    }
  }

  /** The packing loop loses no sentence and keeps their order. */
  lemma {:induction false} PackTexts(sents: seq<string>, maxWords: int)
    ensures Flatten(Pack(sents, maxWords).groups) + Pack(sents, maxWords).cur == sents
    ensures Pack(sents, maxWords).cur == [] ==> sents == []
  {
    if sents != [] {
      var init := sents[..|sents| - 1];
      var x := sents[|sents| - 1];
      PackTexts(init, maxWords);
      var p := Pack(init, maxWords);
      if Closes(p, WordCount(x), maxWords) {
        FlattenSnoc(p.groups, p.cur);
      }
      SnocAssoc(Flatten(p.groups), p.cur, x);
      assert init + [x] == sents;
    }
  }

  /** Every closed group and the open one are non-empty and within the limit unless single. */
  lemma {:induction false} PackFits(sents: seq<string>, maxWords: int)
    ensures var p := Pack(sents, maxWords);
      && (forall k :: 0 <= k < |p.groups| ==> FitsOrSingle(p.groups[k], maxWords))
      && (sents != [] ==> FitsOrSingle(p.cur, maxWords))
  {
    if sents != [] {
      var init := sents[..|sents| - 1];
      PackFits(init, maxWords);
      PackCount(init, maxWords);
      var p := Pack(init, maxWords);
      WordsAppend(p.cur, sents[|sents| - 1]);
    }
  }

  /** The last closed group was closed because the first sentence of the open one did not fit. */
  lemma {:induction false} PackBoundary(sents: seq<string>, maxWords: int)
    ensures var p := Pack(sents, maxWords);
      p.groups != [] && p.cur != [] ==> Words(p.groups[|p.groups| - 1]) + WordCount(p.cur[0]) > maxWords
  {
    if sents != [] {
      var init := sents[..|sents| - 1];
      PackBoundary(init, maxWords);
      PackCount(init, maxWords);
      var p := Pack(init, maxWords);
      var s := sents[|sents| - 1];
      if !Closes(p, WordCount(s), maxWords) && p.cur != [] {
        assert (p.cur + [s])[0] == p.cur[0];
      }
    }
  }

  /** A group was closed only because the next sentence did not fit. */
  lemma {:induction false} PackGreedy(sents: seq<string>, maxWords: int)
    ensures Greedy(Pack(sents, maxWords).groups, maxWords)
  {
    if sents != [] {
      var init := sents[..|sents| - 1];
      PackGreedy(init, maxWords);
      var p := Pack(init, maxWords);
      var s := sents[|sents| - 1];
      if Closes(p, WordCount(s), maxWords) {
        PackBoundary(init, maxWords);
        var g := p.groups + [p.cur];
        assert forall i :: 0 <= i < |p.groups| ==> g[i] == p.groups[i];
      }
    }
  }

  /**
   * The chunk groups are the sentences, in order, with none lost or
   * repeated; there are chunks exactly when there are sentences.
   */
  lemma ChunksPartition(sents: seq<string>, maxWords: int)
    ensures Flatten(ChunkGroups(sents, maxWords)) == sents
    ensures Chunks(sents, maxWords) == [] <==> sents == []
  {
    PackTexts(sents, maxWords);
    var p := Pack(sents, maxWords);
    if p.cur != [] {
      FlattenSnoc(p.groups, p.cur);
    } else {
      assert Flatten(p.groups) + [] == Flatten(p.groups);
    }
  }

  /** No chunk is empty of sentences, and a chunk goes over the word limit only when it is a single sentence. */
  lemma ChunksFit(sents: seq<string>, maxWords: int)
    ensures forall k :: 0 <= k < |ChunkGroups(sents, maxWords)| ==> FitsOrSingle(ChunkGroups(sents, maxWords)[k], maxWords)
  {
    PackFits(sents, maxWords);
    var p := Pack(sents, maxWords);
    if p.cur != [] {
      var g := p.groups + [p.cur];
      assert forall i :: 0 <= i < |p.groups| ==> g[i] == p.groups[i];
    }
  }

  /** A chunk was closed only because the first sentence of the next one did not fit. */
  lemma ChunksGreedy(sents: seq<string>, maxWords: int)
    ensures Greedy(ChunkGroups(sents, maxWords), maxWords)
  {
    PackGreedy(sents, maxWords);
    var p := Pack(sents, maxWords);
    if p.cur != [] {
      PackBoundary(sents, maxWords);
      var g := p.groups + [p.cur];
      assert forall i :: 0 <= i < |p.groups| ==> g[i] == p.groups[i];
    }
  }

  /** One more sentence: the packing step. */
  lemma PackNext(sents: seq<string>, k: nat, maxWords: int)
    requires k < |sents|
    ensures Pack(sents[..k + 1], maxWords) == Feed(Pack(sents[..k], maxWords), sents[k], maxWords)
  {
    assert sents[..k + 1][..k] == sents[..k];
  }

  /** The chunks of a text: none for the empty text, else its sentences packed. */
  function TextChunks(text: string, maxWords: int, sentences: string -> seq<string>): seq<string> {
    if text == [] then [] else Chunks(sentences(text), maxWords)
  }

  /**
   * chunk_text(text, max_words): empty text gives no chunks; otherwise the
   * sentences of the splitter are packed in one pass.
   */
  method ChunkText(text: string, maxWords: int, sentences: string -> seq<string>) returns (chunks: seq<string>)
    ensures chunks == TextChunks(text, maxWords, sentences)
  {
    if text == [] {
      return [];
    }
    var sents := sentences(text);
    chunks := [];
    var cur: seq<string> := [];
    var count: nat := 0;
    for k := 0 to |sents|
      invariant cur == Pack(sents[..k], maxWords).cur
      invariant count == Pack(sents[..k], maxWords).count
      invariant chunks == JoinAll(Pack(sents[..k], maxWords).groups)
    {
      PackNext(sents, k, maxWords);
      var s := sents[k];
      var w := WordCount(s);
      if count + w > maxWords && cur != [] {
        JoinAllSnoc(Pack(sents[..k], maxWords).groups, cur);
        chunks := chunks + [Join(" ", cur)];
        cur, count := [], 0;
      }
      cur := cur + [s];
      count := count + w;
    }
    assert sents[..|sents|] == sents;
    if cur != [] {
      JoinAllSnoc(Pack(sents, maxWords).groups, cur);
      chunks := chunks + [Join(" ", cur)];
    }
  }
}
