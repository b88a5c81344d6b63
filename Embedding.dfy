/** `EmbeddingManager._create_chunks`: the word-boundary chunker that splits
    a text on whitespace and closes a chunk as soon as the accumulated size,
    `len(word) + 1` per word, reaches `chunk_size`. */
module Embedding {
  import opened Text

  /** The size the chunker accumulates for a run of words: each word's length
      plus one for its separator. */
  function Size(ws: seq<string>): nat
  {
    if ws == [] then 0 else |ws[0]| + 1 + Size(ws[1..])
  }

  /** The concatenation of a list of word lists. */
  function Flatten(gs: seq<seq<string>>): seq<string>
  {
    if gs == [] then [] else gs[0] + Flatten(gs[1..])
  }

  /** `' '.join(g)` for each group `g`. */
  function JoinEach(gs: seq<seq<string>>): seq<string>
  {
    seq(|gs|, i requires 0 <= i < |gs| => Join(gs[i]))
  }

  /** `c.split()` for each chunk `c`. */
  function SplitEach(cs: seq<string>): seq<seq<string>>
  {
    seq(|cs|, i requires 0 <= i < |cs| => Split(cs[i]))
  }

  /** Every member of every group is a word. */
  predicate AllWords(gs: seq<seq<string>>)
  {
    forall i :: 0 <= i < |gs| ==> AreWords(gs[i])
  }

  /** The size rule of the chunker for a list of groups: every group is
      non-empty, every proper non-empty prefix of a group is under the
      threshold, and every group except the last reaches it. */
  predicate SizeRule(gs: seq<seq<string>>, chunkSize: int)
  {
    forall i :: 0 <= i < |gs| ==>
      && gs[i] != []
      && (forall k :: 1 <= k < |gs[i]| ==> Size(gs[i][..k]) < chunkSize)
      && (i < |gs| - 1 ==> Size(gs[i]) >= chunkSize)
  }

  /** How many words the first chunk takes: the shortest non-empty prefix
      whose size reaches `chunkSize`, or every word when no prefix does. */
  function FirstChunkLength(ws: seq<string>, chunkSize: int): (n: nat)
    requires ws != []
    ensures 1 <= n <= |ws|
  {
    if |ws| == 1 || |ws[0]| + 1 >= chunkSize then 1
    else 1 + FirstChunkLength(ws[1..], chunkSize - (|ws[0]| + 1))
  }

  /** The word groups of the chunks, in order: a first chunk of
      `FirstChunkLength` words, then the chunks of the remaining words. */
  function Groups(ws: seq<string>, chunkSize: int): seq<seq<string>>
    decreases |ws|
  {
    if ws == [] then []
    else
      var n := FirstChunkLength(ws, chunkSize);
      [ws[..n]] + Groups(ws[n..], chunkSize)
  }

  /** The chunks `_create_chunks(text, chunk_size)` is specified to return. */
  function Chunks(text: string, chunkSize: int): seq<string>
  {
    JoinEach(Groups(Split(text), chunkSize))
  }

  /** The state of the chunker's loop after `i` words: `current` holds the
      words since the last closed chunk, which began at word `start`, with
      their size `currentSize`, still under the threshold, and the closed
      chunks followed by the chunks of the words from `start` on are the
      chunks of all the words. */
  ghost predicate LoopState(words: seq<string>, chunkSize: int, i: nat, start: nat,
                            chunks: seq<string>, current: seq<string>, currentSize: int)
  {
    && start + |current| == i <= |words|
    && current == words[start..i]
    && currentSize == Size(current)
    && (current != [] ==> currentSize < chunkSize)
    && chunks + JoinEach(Groups(words[start..], chunkSize)) == JoinEach(Groups(words, chunkSize))
  }

  /** `_create_chunks(text, chunk_size)`. */
  method CreateChunks(text: string, chunkSize: int) returns (chunks: seq<string>)
    ensures chunks == Chunks(text, chunkSize)
    ensures Flatten(SplitEach(chunks)) == Split(text)
    ensures SizeRule(SplitEach(chunks), chunkSize)
    ensures chunks == [] <==> IsBlank(text)
  {
    var words := Split(text);
    chunks := [];
    var current: seq<string> := [];
    var currentSize := 0;
    ghost var start := 0;
    assert words[start..] == words;
    for i := 0 to |words|
      invariant LoopState(words, chunkSize, i, start, chunks, current, currentSize)
    {
      NextWord(words, chunkSize, i, start, chunks, current, currentSize);
      current := current + [words[i]];
      currentSize := currentSize + |words[i]| + 1;
      if currentSize >= chunkSize {
        chunks := chunks + [Join(current)];
        current := [];
        currentSize := 0;
        start := i + 1;
      }
    }
    LastChunk(words, chunkSize, start, chunks, current, currentSize);
    if current != [] {
      chunks := chunks + [Join(current)];
    }
    ChunksFacts(text, chunkSize);
  }

  // ---------------------------------------------------------------------
  // Lemmas

  /** Size adds up over concatenation. */
  lemma {:induction false} SizeAppend(a: seq<string>, b: seq<string>)
    ensures Size(a + b) == Size(a) + Size(b)
  {
    if a == [] {
      assert a + b == b;
    } else {
      assert (a + b)[0] == a[0];
      assert (a + b)[1..] == a[1..] + b;
      SizeAppend(a[1..], b);
    }
  }

  /** The size of a non-empty prefix is the first word's share plus the size
      of the rest of the prefix. */
  lemma SizeOfPrefixes(ws: seq<string>)
    requires ws != []
    ensures forall k :: 1 <= k <= |ws| ==> Size(ws[..k]) == |ws[0]| + 1 + Size(ws[1..][..k - 1])
  {
    forall k | 1 <= k <= |ws|
      ensures Size(ws[..k]) == |ws[0]| + 1 + Size(ws[1..][..k - 1])
    {
      assert ws[..k][1..] == ws[1..][..k - 1];
    }
  }

  /** The first chunk obeys the size rule: it reaches the threshold unless
      it takes every word, and each shorter non-empty prefix stays under it. */
  lemma {:induction false} FirstChunkLengthRule(ws: seq<string>, chunkSize: int)
    requires ws != []
    ensures FirstChunkLength(ws, chunkSize) < |ws| ==> Size(ws[..FirstChunkLength(ws, chunkSize)]) >= chunkSize
    ensures forall k :: 1 <= k < FirstChunkLength(ws, chunkSize) ==> Size(ws[..k]) < chunkSize
  {
    SizeOfPrefixes(ws);
    if !(|ws| == 1 || |ws[0]| + 1 >= chunkSize) {
      FirstChunkLengthRule(ws[1..], chunkSize - (|ws[0]| + 1));
    }
  }

  /** The first chunk is determined by the size rule: `m` words when every
      shorter prefix is under the threshold and the `m` words reach it or are
      all the words there are. */
  lemma FirstChunkLengthIs(ws: seq<string>, chunkSize: int, m: nat)
    requires 1 <= m <= |ws|
    requires forall k :: 1 <= k < m ==> Size(ws[..k]) < chunkSize
    requires m == |ws| || Size(ws[..m]) >= chunkSize
    ensures FirstChunkLength(ws, chunkSize) == m
  {
    FirstChunkLengthRule(ws, chunkSize);
  }

  /** When the first `j` words are under the threshold, so is every shorter
      non-empty prefix: sizes only grow as words are added. */
  lemma PrefixesUnder(ws: seq<string>, j: nat, chunkSize: int)
    requires j <= |ws|
    requires j == 0 || Size(ws[..j]) < chunkSize
    ensures forall k :: 1 <= k <= j ==> Size(ws[..k]) < chunkSize
  {
    forall k | 1 <= k <= j
      ensures Size(ws[..k]) < chunkSize
    {
      assert ws[..j] == ws[..k] + ws[k..j];
      SizeAppend(ws[..k], ws[k..j]);
    }
  }

  /** The step of the loop that closes a chunk: when the words from `start`
      up to `end` reach the threshold (or are the last ones left) and the
      shorter runs from `start` do not, they are the next chunk. */
  lemma CloseChunkAt(words: seq<string>, start: nat, end: nat, chunkSize: int,
                     chunks: seq<string>, current: seq<string>, target: seq<string>)
    requires start < end <= |words|
    requires current == words[start..end]
    requires end - 1 == start || Size(words[start..end - 1]) < chunkSize
    requires end == |words| || Size(current) >= chunkSize
    requires chunks + JoinEach(Groups(words[start..], chunkSize)) == target
    ensures (chunks + [Join(current)]) + JoinEach(Groups(words[end..], chunkSize)) == target
  {
    var ws := words[start..];
    var m := end - start;
    assert ws[..m - 1] == words[start..end - 1];
    assert ws[..m] == words[start..end];
    assert ws[m..] == words[end..];
    PrefixesUnder(ws, m - 1, chunkSize);
    CloseChunk(ws, m, chunkSize);
    calc {
      target;
      chunks + JoinEach(Groups(ws, chunkSize));
      chunks + ([Join(current)] + JoinEach(Groups(words[end..], chunkSize)));
      (chunks + [Join(current)]) + JoinEach(Groups(words[end..], chunkSize));
    }
  }

  /** One turn of the loop keeps its state: word `i` joins the current
      chunk, which is closed when its size reaches the threshold. */
  lemma NextWord(words: seq<string>, chunkSize: int, i: nat, start: nat,
                 chunks: seq<string>, current: seq<string>, currentSize: int)
    requires i < |words|
    requires LoopState(words, chunkSize, i, start, chunks, current, currentSize)
    ensures var next := current + [words[i]];
      var nextSize := currentSize + |words[i]| + 1;
      if nextSize >= chunkSize then LoopState(words, chunkSize, i + 1, i + 1, chunks + [Join(next)], [], 0)
      else LoopState(words, chunkSize, i + 1, start, chunks, next, nextSize)
  {
    var next := current + [words[i]];
    SizeAppend(current, [words[i]]);
    assert words[start..i + 1] == next;
    if currentSize + |words[i]| + 1 >= chunkSize {
      CloseChunkAt(words, start, i + 1, chunkSize, chunks, next, JoinEach(Groups(words, chunkSize)));
    }
  }

  /** The end of the loop: the words still pending, if any, are the last
      chunk. */
  lemma LastChunk(words: seq<string>, chunkSize: int, start: nat,
                  chunks: seq<string>, current: seq<string>, currentSize: int)
    requires LoopState(words, chunkSize, |words|, start, chunks, current, currentSize)
    ensures (if current == [] then chunks else chunks + [Join(current)]) == JoinEach(Groups(words, chunkSize))
  {
    if current != [] {
      assert current[..|current|] == current;
      PrefixesUnder(current, |current|, chunkSize);
      assert current[..|current| - 1] == words[start..|words| - 1];
      CloseChunkAt(words, start, |words|, chunkSize, chunks, current, JoinEach(Groups(words, chunkSize)));
      assert words[|words|..] == [];
    } else {
      assert words[start..] == [];
    }
  }

  /** Closing a chunk of `m` words, by the size rule, leaves the chunks of
      the remaining words to follow. */
  lemma CloseChunk(ws: seq<string>, m: nat, chunkSize: int)
    requires 1 <= m <= |ws|
    requires forall k :: 1 <= k < m ==> Size(ws[..k]) < chunkSize
    requires m == |ws| || Size(ws[..m]) >= chunkSize
    ensures JoinEach(Groups(ws, chunkSize)) == [Join(ws[..m])] + JoinEach(Groups(ws[m..], chunkSize))
  {
    FirstChunkLengthIs(ws, chunkSize, m);
    var gs := Groups(ws, chunkSize);
    assert gs == [ws[..m]] + Groups(ws[m..], chunkSize);
  }

  /** The groups partition the words: concatenated in order they give the words back. */
  lemma {:induction false} GroupsPartition(ws: seq<string>, chunkSize: int)
    ensures Flatten(Groups(ws, chunkSize)) == ws
    decreases |ws|
  {
    if ws != [] {
      var n := FirstChunkLength(ws, chunkSize);
      var gs := Groups(ws, chunkSize);
      GroupsPartition(ws[n..], chunkSize);
      assert gs[0] == ws[..n] && gs[1..] == Groups(ws[n..], chunkSize);
      assert ws == ws[..n] + ws[n..];
    }
  }

  /** Every group is non-empty; every proper non-empty prefix of a group is
      under the threshold; every group but the last reaches it. */
  lemma {:induction false} GroupsSizes(ws: seq<string>, chunkSize: int)
    ensures SizeRule(Groups(ws, chunkSize), chunkSize)
    decreases |ws|
  {
    if ws != [] {
      var n := FirstChunkLength(ws, chunkSize);
      var gs := Groups(ws, chunkSize);
      var rest := Groups(ws[n..], chunkSize);
      FirstChunkLengthRule(ws, chunkSize);
      GroupsSizes(ws[n..], chunkSize);
      assert gs == [ws[..n]] + rest;
      forall i | 0 <= i < |gs|
        ensures gs[i] != []
        ensures forall k :: 1 <= k < |gs[i]| ==> Size(gs[i][..k]) < chunkSize
        ensures i < |gs| - 1 ==> Size(gs[i]) >= chunkSize
      {
        if i == 0 {
          assert gs[0] == ws[..n];
          forall k | 1 <= k < n ensures Size(ws[..n][..k]) < chunkSize {
            assert ws[..n][..k] == ws[..k];
          }
          if i < |gs| - 1 {
            assert rest != [];
            assert n < |ws|;
          }
        } else {
          assert gs[i] == rest[i - 1];
        }
      }
    }
  }

  /** Each group is a list of words. */
  lemma {:induction false} GroupsAreWords(ws: seq<string>, chunkSize: int)
    requires AreWords(ws)
    ensures AllWords(Groups(ws, chunkSize))
    decreases |ws|
  {
    if ws != [] {
      var n := FirstChunkLength(ws, chunkSize);
      var gs := Groups(ws, chunkSize);
      var rest := Groups(ws[n..], chunkSize);
      assert AreWords(ws[n..]) by {
        forall k | 0 <= k < |ws[n..]| ensures IsWord(ws[n..][k]) { assert ws[n..][k] == ws[n + k]; }
      }
      assert AreWords(ws[..n]) by {
        forall k | 0 <= k < n ensures IsWord(ws[..n][k]) { assert ws[..n][k] == ws[k]; }
      }
      GroupsAreWords(ws[n..], chunkSize);
      assert gs == [ws[..n]] + rest;
      forall i | 0 <= i < |gs| ensures AreWords(gs[i]) {
        if i > 0 {
          assert gs[i] == rest[i - 1];
        }
      }
    }
  }

  /** Splitting each joined group gives the group back. */
  lemma SplitEachJoinEach(gs: seq<seq<string>>)
    requires AllWords(gs)
    ensures SplitEach(JoinEach(gs)) == gs
  {
    forall i | 0 <= i < |gs|
      ensures SplitEach(JoinEach(gs))[i] == gs[i]
    {
      SplitJoin(gs[i]);
    }
  }

  /** The properties of the specified chunks, stated on the chunk strings:
      their words in order are the words of the text, they keep the size
      rule, and there are none exactly when the text is blank. */
  lemma ChunksFacts(text: string, chunkSize: int)
    ensures var chunks := Chunks(text, chunkSize);
      && Flatten(SplitEach(chunks)) == Split(text)
      && SizeRule(SplitEach(chunks), chunkSize)
      && (chunks == [] <==> IsBlank(text))
  {
    var words := Split(text);
    var gs := Groups(words, chunkSize);
    GroupsAreWords(words, chunkSize);
    SplitEachJoinEach(gs);
    assert SplitEach(Chunks(text, chunkSize)) == gs;
    GroupsPartition(words, chunkSize);
    GroupsSizes(words, chunkSize);
    SplitEmptyIffBlank(text);
    if words != [] {
      assert gs != [];
    }
  }
}
