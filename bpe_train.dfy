/**
 * Training of a byte-pair-encoding vocabulary (`BpeCore::new` and
 * `BpeCore::train`). The vocabulary is kept twice: `ranks` maps a token's
 * bytes to its id and `encoder` maps an id to the token's bytes. Training
 * seeds both with the 256 single-byte tokens and then, while the vocabulary
 * is below its target size, merges a most frequent adjacent pair of ids
 * across all words into a new token and rewrites every word with it.
 */
module BpeTrain {
  import opened Pairs

  /** A token id (`u32` in the source). */
  type Id = nat

  /** A word as a sequence of token ids. */
  type Word = seq<Id>

  // ---------------------------------------------------------------------------
  // Rewriting a word

  /** Non-overlapping occurrences of `pair` replaced by `token`, greedily from the left. */
  function Replace(w: Word, pair: (Id, Id), token: Id): Word
  {
    if |w| < 2 then w
    else if (w[0], w[1]) == pair then [token] + Replace(w[2..], pair, token)
    else [w[0]] + Replace(w[1..], pair, token)
  }

  /**
   * The rewrite loop of train: walk the word with an index bumped by two
   * past an occurrence of the pair and by one otherwise, then copy the last
   * id if the walk stopped on it. The source computes `word.len() - 1`, so
   * an empty word is excluded.
   */
  method RewriteWord(word: Word, pair: (Id, Id), token: Id) returns (newWord: Word)
    requires |word| >= 1
    ensures newWord == Replace(word, pair, token)
  {
    newWord := [];
    var i := 0;
    assert word[0..] == word;
    while i < |word| - 1
      invariant 0 <= i <= |word|
      invariant newWord + Replace(word[i..], pair, token) == Replace(word, pair, token)
    {
      if (word[i], word[i + 1]) == pair {
        assert word[i..][2..] == word[i + 2..];
        AppendAssoc(newWord, [token], Replace(word[i + 2..], pair, token));
        newWord := newWord + [token];
        i := i + 2;
      } else {
        assert word[i..][1..] == word[i + 1..];
        AppendAssoc(newWord, [word[i]], Replace(word[i + 1..], pair, token));
        newWord := newWord + [word[i]];
        i := i + 1;
      }
    }
    if i == |word| - 1 {
      assert word[i..] == [word[i]];
      newWord := newWord + [word[i]];
    } else {
      assert newWord == Replace(word, pair, token);
    }
  }

  /** The bytes a word stands for: the concatenation of its tokens' bytes. */
  ghost function Flat(encoder: seq<seq<byte>>, w: Word): seq<byte>
    requires forall k :: 0 <= k < |w| ==> w[k] < |encoder|
  {
    if w == [] then [] else encoder[w[0]] + Flat(encoder, w[1..])
  }

  /** Rewriting with a token whose bytes are the pair's bytes keeps what the word stands for. */
  lemma {:induction false} ReplaceFlat(encoder: seq<seq<byte>>, w: Word, pair: (Id, Id), token: Id)
    requires forall k :: 0 <= k < |w| ==> w[k] < |encoder|
    requires pair.0 < |encoder| && pair.1 < |encoder| && token < |encoder|
    requires encoder[token] == encoder[pair.0] + encoder[pair.1]
    ensures forall k :: 0 <= k < |Replace(w, pair, token)| ==> Replace(w, pair, token)[k] < |encoder|
    ensures Flat(encoder, Replace(w, pair, token)) == Flat(encoder, w)
  {
    if |w| >= 2 {
      if (w[0], w[1]) == pair {
        var t := w[2..];
        ReplaceFlat(encoder, t, pair, token);
        assert w[1..][1..] == t;
        assert Flat(encoder, w) == encoder[w[0]] + (encoder[w[1]] + Flat(encoder, t));
        AppendAssoc(encoder[w[0]], encoder[w[1]], Flat(encoder, t));
        assert ([token] + Replace(t, pair, token))[1..] == Replace(t, pair, token);
      } else {
        ReplaceFlat(encoder, w[1..], pair, token);
        assert ([w[0]] + Replace(w[1..], pair, token))[1..] == Replace(w[1..], pair, token);
      }
    }
  }

  /** The rewrite never lengthens a word, keeps it non-empty, and shortens it exactly when the pair occurs. */
  lemma {:induction false} ReplaceLength(w: Word, pair: (Id, Id), token: Id)
    ensures |Replace(w, pair, token)| <= |w|
    ensures |w| >= 1 ==> |Replace(w, pair, token)| >= 1
    ensures |Replace(w, pair, token)| < |w| <==> Adjacent(w, pair)
  {
    if |w| >= 2 {
      if (w[0], w[1]) == pair {
        ReplaceLength(w[2..], pair, token);
      } else {
        ReplaceLength(w[1..], pair, token);
        if Adjacent(w, pair) {
          var k :| 0 <= k < |w| - 1 && (w[k], w[k + 1]) == pair;
          assert (w[1..][k - 1], w[1..][k]) == pair;
        }
        if Adjacent(w[1..], pair) {
          var k :| 0 <= k < |w| - 2 && (w[1..][k], w[1..][k + 1]) == pair;
          assert (w[k + 1], w[k + 2]) == pair;
        }
      }
    } else {
      assert !Adjacent(w, pair);
    }
  }

  /** The first id of a rewritten word: the token when the word starts with the pair. */
  lemma ReplaceHead(w: Word, pair: (Id, Id), token: Id)
    requires |w| >= 1
    ensures |Replace(w, pair, token)| >= 1
    ensures Replace(w, pair, token)[0] == (if |w| >= 2 && (w[0], w[1]) == pair then token else w[0])
  {
  }

  /** When the token is not part of the pair, no occurrence of the pair survives the rewrite. */
  lemma {:induction false} ReplaceLeavesNoPair(w: Word, pair: (Id, Id), token: Id)
    requires token != pair.0 && token != pair.1
    ensures !Adjacent(Replace(w, pair, token), pair)
  {
    if |w| < 2 {
      assert !Adjacent(w, pair);
    } else {
      var rest := if (w[0], w[1]) == pair then w[2..] else w[1..];
      var head := if (w[0], w[1]) == pair then token else w[0];
      var r := Replace(rest, pair, token);
      ReplaceLeavesNoPair(rest, pair, token);
      assert Replace(w, pair, token) == [head] + r;
      if Adjacent([head] + r, pair) {
        var k :| 0 <= k < |[head] + r| - 1 && (([head] + r)[k], ([head] + r)[k + 1]) == pair;
        if k == 0 {
          ReplaceHead(rest, pair, token);
        }
      }
    }
  }

  // ---------------------------------------------------------------------------
  // Rewriting every word

  /** Every word rewritten, in order (`new_words`). */
  method RewriteWords(ws: seq<Word>, pair: (Id, Id), token: Id) returns (rs: seq<Word>)
    requires forall j :: 0 <= j < |ws| ==> |ws[j]| >= 1
    ensures |rs| == |ws|
    ensures forall j :: 0 <= j < |ws| ==> rs[j] == Replace(ws[j], pair, token)
  {
    rs := [];
    for j := 0 to |ws|
      invariant |rs| == j
      invariant forall m :: 0 <= m < j ==> rs[m] == Replace(ws[m], pair, token)
    {
      var w := RewriteWord(ws[j], pair, token);
      rs := rs + [w];
    }
  }

  /** Total number of ids over all words. */
  ghost function TotalLen(ws: seq<Word>): nat
  {
    if ws == [] then 0 else TotalLen(ws[..|ws| - 1]) + |ws[|ws| - 1]|
  }

  /** Number of adjacent occurrences of p over all words (what `stat` holds for p). */
  ghost function TotalCount(ws: seq<Word>, p: (Id, Id)): nat
  {
    if ws == [] then 0 else TotalCount(ws[..|ws| - 1], p) + Count(ws[|ws| - 1], p)
  }

  /** A pair is counted exactly when it occurs in some word. */
  lemma {:induction false} TotalCountPositive(ws: seq<Word>, p: (Id, Id))
    ensures TotalCount(ws, p) > 0 <==> exists j :: 0 <= j < |ws| && Adjacent(ws[j], p)
  {
    if ws != [] {
      var init := ws[..|ws| - 1];
      TotalCountPositive(init, p);
      CountPositive(ws[|ws| - 1], p);
      if exists j :: 0 <= j < |init| && Adjacent(init[j], p) {
        var j :| 0 <= j < |init| && Adjacent(init[j], p);
        assert ws[j] == init[j];
      }
      if exists j :: 0 <= j < |ws| && Adjacent(ws[j], p) {
        var j :| 0 <= j < |ws| && Adjacent(ws[j], p);
        if j < |init| {
          assert init[j] == ws[j];
        }
      }
    }
  }

  /** Rewriting every word never adds ids, and removes some when the pair occurs anywhere. */
  lemma {:induction false} RewriteShortens(ws: seq<Word>, rs: seq<Word>, pair: (Id, Id), token: Id)
    requires |rs| == |ws|
    requires forall j :: 0 <= j < |ws| ==> rs[j] == Replace(ws[j], pair, token)
    ensures TotalLen(rs) <= TotalLen(ws)
    ensures TotalCount(ws, pair) > 0 ==> TotalLen(rs) < TotalLen(ws)
  {
    if ws != [] {
      var n := |ws| - 1;
      RewriteShortens(ws[..n], rs[..n], pair, token);
      ReplaceLength(ws[n], pair, token);
      CountPositive(ws[n], pair);
    }
  }

  // ---------------------------------------------------------------------------
  // Pair statistics

  /** `stat` holds the count of every pair occurring in the words, and nothing else. */
  ghost predicate StatOf(ws: seq<Word>, stat: map<(Id, Id), nat>)
  {
    && (forall p :: p in stat <==> TotalCount(ws, p) > 0)
    && (forall p :: p in stat ==> stat[p] == TotalCount(ws, p))
  }

  /** The counts of all words before word j plus those of the first k + 1 ids of word j. */
  ghost predicate PartialStat(ws: seq<Word>, j: nat, k: nat, stat: map<(Id, Id), nat>)
    requires j < |ws|
  {
    && (forall p :: p in stat <==> TotalCount(ws[..j], p) + Count(Upto(ws[j], k + 1), p) > 0)
    && (forall p :: p in stat ==> stat[p] == TotalCount(ws[..j], p) + Count(Upto(ws[j], k + 1), p))
  }

  /** Counting the window at k of word j adds one to exactly that pair. */
  lemma StatStep(ws: seq<Word>, j: nat, k: nat, stat: map<(Id, Id), nat>)
    requires j < |ws| && k + 1 < |ws[j]|
    requires PartialStat(ws, j, k, stat)
    ensures var key := (ws[j][k], ws[j][k + 1]);
            PartialStat(ws, j, k + 1, stat[key := (if key in stat then stat[key] else 0) + 1])
  {
    var w := ws[j];
    var before, after := Upto(w, k + 1), Upto(w, k + 2);
    forall p
      ensures Count(after, p) == Count(before, p) + (if p == (w[k], w[k + 1]) then 1 else 0)
    {
      CountPrefixStep(w, k, p);
    }
  }

  /** Once every window of word j is counted, the counts cover the first j + 1 words. */
  lemma StatWord(ws: seq<Word>, j: nat, stat: map<(Id, Id), nat>)
    requires j < |ws|
    requires PartialStat(ws, j, if |ws[j]| < 2 then 0 else |ws[j]| - 1, stat)
    ensures StatOf(ws[..j + 1], stat)
  {
    assert Upto(ws[j], if |ws[j]| < 2 then 1 else |ws[j]|) == ws[j];
    assert ws[..j + 1][..j] == ws[..j];
  }

  /** The nested `windows(2)` counting loop of train. */
  method CountStat(ws: seq<Word>) returns (stat: map<(Id, Id), nat>)
    ensures StatOf(ws, stat)
  {
    stat := map[];
    for j := 0 to |ws|
      invariant StatOf(ws[..j], stat)
    {
      var w := ws[j];
      var windows := if |w| < 2 then 0 else |w| - 1;
      for k := 0 to windows
        invariant PartialStat(ws, j, k, stat)
      {
        var key := (w[k], w[k + 1]);
        StatStep(ws, j, k, stat);
        stat := stat[key := (if key in stat then stat[key] else 0) + 1];
      }
      StatWord(ws, j, stat);
    }
    assert ws[..|ws|] == ws;
  }

  /**
   * `max_by_key` over the entries of `stat` in the map's iteration order,
   * which is not determined: any order may be taken here, and on a tie the
   * later entry wins, as `max_by_key` returns the last maximum.
   */
  method MostCommonPair(stat: map<(Id, Id), nat>) returns (pair: (Id, Id))
    requires |stat| > 0
    ensures pair in stat
    ensures forall q :: q in stat ==> stat[q] <= stat[pair]
  {
    var rest := stat.Keys;
    assert |rest| > 0;
    pair :| pair in rest;
    rest := rest - {pair};
    while rest != {}
      invariant rest <= stat.Keys && pair in stat
      invariant forall q :: q in stat && q !in rest ==> stat[q] <= stat[pair]
      decreases rest
    {
      var q :| q in rest;
      if stat[q] >= stat[pair] {
        pair := q;
      }
      rest := rest - {q};
    }
  }

  // ---------------------------------------------------------------------------
  // The two vocabulary tables

  /** The 256 single-byte tokens hold ids 0..255 in both tables. */
  ghost predicate Seeded(ranks: map<seq<byte>, Id>, encoder: seq<seq<byte>>)
  {
    |encoder| >= 256 && forall i: byte :: encoder[i] == [i] && [i] in ranks && ranks[[i]] == i
  }

  /**
   * What holds of the tables throughout training. Both hold the same
   * tokens; every id in `ranks` is an index of `encoder`; and as long as no
   * merge produced a token that was already present (so both tables have
   * the same size) `ranks` is exactly the inverse of `encoder`.
   */
  ghost predicate Tables(ranks: map<seq<byte>, Id>, encoder: seq<seq<byte>>)
  {
    && Seeded(ranks, encoder)
    && (forall k :: 0 <= k < |encoder| ==> |encoder[k]| >= 1)
    && (forall t :: t in ranks <==> t in encoder)
    && |ranks| <= |encoder|
    && (forall t :: t in ranks ==> ranks[t] < |encoder|)
    && (|ranks| == |encoder| ==> forall k :: 0 <= k < |encoder| ==> ranks[encoder[k]] == k)
  }

  /** Entry 256 + m of `encoder` is the concatenation of the m-th merged pair's tokens, both older. */
  ghost predicate MergedBy(encoder: seq<seq<byte>>, merges: seq<(Id, Id)>)
  {
    && |encoder| == 256 + |merges|
    && (forall m :: 0 <= m < |merges| ==>
          merges[m].0 < 256 + m && merges[m].1 < 256 + m
          && encoder[256 + m] == encoder[merges[m].0] + encoder[merges[m].1])
  }

  /** Recording one more merge. */
  lemma MergedByStep(encoder: seq<seq<byte>>, merges: seq<(Id, Id)>, a: Id, b: Id)
    requires MergedBy(encoder, merges)
    requires a < |encoder| && b < |encoder|
    ensures MergedBy(encoder + [encoder[a] + encoder[b]], merges + [(a, b)])
  {
  }

  /** Every word is non-empty and holds only ids below n. */
  ghost predicate WordsBelow(ws: seq<Word>, n: nat)
  {
    forall j :: 0 <= j < |ws| ==> |ws[j]| >= 1 && forall k :: 0 <= k < |ws[j]| ==> ws[j][k] < n
  }

  /** Word j stands for the bytes of input word j. */
  ghost predicate Expands(encoder: seq<seq<byte>>, ws: seq<Word>, words: seq<seq<byte>>)
    requires WordsBelow(ws, |encoder|)
  {
    |ws| == |words| && forall j :: 0 <= j < |ws| ==> Flat(encoder, ws[j]) == words[j]
  }

  /** Merging the tokens of a and b: the new token gets id `ranks.len()` and is appended to `encoder`. */
  lemma MergeKeepsTables(ranks: map<seq<byte>, Id>, encoder: seq<seq<byte>>, a: Id, b: Id)
    requires Tables(ranks, encoder)
    requires a < |encoder| && b < |encoder|
    ensures Tables(ranks[encoder[a] + encoder[b] := |ranks|], encoder + [encoder[a] + encoder[b]])
    ensures |ranks[encoder[a] + encoder[b] := |ranks|]| == |encoder| + 1 ==> |ranks| == |encoder|
  {
    var t := encoder[a] + encoder[b];
    var ranks', encoder' := ranks[t := |ranks|], encoder + [t];
    forall i: byte
      ensures encoder'[i] == [i] && [i] in ranks' && ranks'[[i]] == i
    {
      assert |t| >= 2;
    }
    forall x
      ensures x in ranks' <==> x in encoder'
    {
      assert x in encoder' <==> x in encoder || x == t;
    }
    if |ranks'| == |encoder'| {
      assert t !in ranks;
      forall k | 0 <= k < |encoder'|
        ensures ranks'[encoder'[k]] == k
      {
        if k < |encoder| {
          assert encoder'[k] == encoder[k] && encoder[k] in ranks;
        }
      }
    }
  }

  /** Entries appended to `encoder` do not change what words of older ids stand for. */
  lemma {:induction false} FlatExtend(encoder: seq<seq<byte>>, x: seq<byte>, w: Word)
    requires forall k :: 0 <= k < |w| ==> w[k] < |encoder|
    ensures Flat(encoder + [x], w) == Flat(encoder, w)
  {
    if w != [] {
      FlatExtend(encoder, x, w[1..]);
    }
  }

  /** A word of single-byte ids stands for those bytes. */
  lemma {:induction false} FlatSeeded(ranks: map<seq<byte>, Id>, encoder: seq<seq<byte>>, w: seq<byte>)
    requires Seeded(ranks, encoder)
    ensures Flat(encoder, w) == w
  {
    if w != [] {
      FlatSeeded(ranks, encoder, w[1..]);
      assert encoder[w[0]] == [w[0]];
    }
  }

  /** A pair that occurs in some word is a pair of ids below n. */
  lemma PairBelow(ws: seq<Word>, n: nat, p: (Id, Id))
    requires WordsBelow(ws, n)
    requires TotalCount(ws, p) > 0
    ensures p.0 < n && p.1 < n
  {
    TotalCountPositive(ws, p);
    var j :| 0 <= j < |ws| && Adjacent(ws[j], p);
    var w := ws[j];
    var k :| 0 <= k < |w| - 1 && (w[k], w[k + 1]) == p;
    assert w[k] < n && w[k + 1] < n;
  }

  /** Rewriting all words with the id of the merged token keeps them non-empty and within the new table. */
  lemma RewriteBelow(ws: seq<Word>, rs: seq<Word>, n: nat, pair: (Id, Id), token: Id)
    requires WordsBelow(ws, n) && token < n + 1
    requires |rs| == |ws| && forall j :: 0 <= j < |ws| ==> rs[j] == Replace(ws[j], pair, token)
    ensures WordsBelow(rs, n + 1)
  {
    forall j | 0 <= j < |rs|
      ensures |rs[j]| >= 1 && forall k :: 0 <= k < |rs[j]| ==> rs[j][k] < n + 1
    {
      ReplaceLength(ws[j], pair, token);
      ReplaceIdsBelow(ws[j], pair, token, n + 1);
    }
  }

  /** The ids of a rewritten word are ids of the word or the token. */
  lemma {:induction false} ReplaceIdsBelow(w: Word, pair: (Id, Id), token: Id, n: nat)
    requires forall k :: 0 <= k < |w| ==> w[k] < n
    requires token < n
    ensures forall k :: 0 <= k < |Replace(w, pair, token)| ==> Replace(w, pair, token)[k] < n
  {
    if |w| >= 2 {
      var rest := if (w[0], w[1]) == pair then w[2..] else w[1..];
      ReplaceIdsBelow(rest, pair, token, n);
    }
  }

  /** While every merge adds a fresh token, rewriting with its id keeps what every word stands for. */
  lemma RewriteExpands(encoder: seq<seq<byte>>, ws: seq<Word>, rs: seq<Word>, words: seq<seq<byte>>, pair: (Id, Id))
    requires WordsBelow(ws, |encoder|) && Expands(encoder, ws, words)
    requires pair.0 < |encoder| && pair.1 < |encoder|
    requires |rs| == |ws| && forall j :: 0 <= j < |ws| ==> rs[j] == Replace(ws[j], pair, |encoder|)
    requires WordsBelow(rs, |encoder| + 1)
    ensures Expands(encoder + [encoder[pair.0] + encoder[pair.1]], rs, words)
  {
    var x := encoder[pair.0] + encoder[pair.1];
    var encoder' := encoder + [x];
    forall j | 0 <= j < |rs|
      ensures Flat(encoder', rs[j]) == words[j]
    {
      FlatExtend(encoder, x, ws[j]);
      ReplaceFlat(encoder', ws[j], pair, |encoder|);
    }
  }

  /** The invariant of the training loop. */
  ghost predicate TrainInv(ranks: map<seq<byte>, Id>, encoder: seq<seq<byte>>, merges: seq<(Id, Id)>,
                           vocabSize: nat, ws: seq<Word>, words: seq<seq<byte>>)
  {
    && Tables(ranks, encoder)
    && MergedBy(encoder, merges)
    && |ranks| >= 256 && (vocabSize <= 256 ==> merges == [])
    && WordsBelow(ws, |encoder|) && |ws| == |words|
    && (|ranks| == |encoder| ==> Expands(encoder, ws, words))
  }

  /** One iteration of the training loop: merge `pair`, give it id `ranks.len()`, rewrite every word. */
  lemma TrainStep(ranks: map<seq<byte>, Id>, encoder: seq<seq<byte>>, merges: seq<(Id, Id)>,
                  vocabSize: nat, ws: seq<Word>, words: seq<seq<byte>>, pair: (Id, Id), rs: seq<Word>)
    requires TrainInv(ranks, encoder, merges, vocabSize, ws, words)
    requires |ranks| < vocabSize
    requires TotalCount(ws, pair) > 0
    requires |rs| == |ws| && forall j :: 0 <= j < |ws| ==> rs[j] == Replace(ws[j], pair, |ranks|)
    ensures pair.0 < |encoder| && pair.1 < |encoder|
    ensures TrainInv(ranks[encoder[pair.0] + encoder[pair.1] := |ranks|], encoder + [encoder[pair.0] + encoder[pair.1]],
                     merges + [pair], vocabSize, rs, words)
    ensures TotalLen(rs) < TotalLen(ws)
    ensures |ranks| == |encoder| ==> forall j :: 0 <= j < |rs| ==> !Adjacent(rs[j], pair)
  {
    PairBelow(ws, |encoder|, pair);
    if |ranks| == |encoder| {
      forall j | 0 <= j < |rs|
        ensures !Adjacent(rs[j], pair)
      {
        ReplaceLeavesNoPair(ws[j], pair, |ranks|);
      }
    }
    MergeKeepsTables(ranks, encoder, pair.0, pair.1);
    MergedByStep(encoder, merges, pair.0, pair.1);
    RewriteShortens(ws, rs, pair, |ranks|);
    RewriteBelow(ws, rs, |encoder|, pair, |ranks|);
    var ranks' := ranks[encoder[pair.0] + encoder[pair.1] := |ranks|];
    if |ranks'| == |encoder| + 1 {
      RewriteExpands(encoder, ws, rs, words, pair);
    }
  }

  /** With no pair left to count, every word has fewer than two ids. */
  lemma NoPairsLeft(ws: seq<Word>, stat: map<(Id, Id), nat>)
    requires StatOf(ws, stat) && |stat| == 0
    ensures forall j :: 0 <= j < |ws| ==> |ws[j]| < 2
  {
    forall j | 0 <= j < |ws|
      ensures |ws[j]| < 2
    {
      if |ws[j]| >= 2 {
        CountAt(ws[j], 0);
        TotalCountPositive(ws, (ws[j][0], ws[j][1]));
      }
    }
  }

  // ---------------------------------------------------------------------------
  // The course of training

  /** The input words as ids: each byte is the id of its single-byte token. */
  function AsIds(words: seq<seq<byte>>): seq<Word>
  {
    seq(|words|, j requires 0 <= j < |words| => seq(|words[j]|, k requires 0 <= k < |words[j]| => words[j][k] as Id))
  }

  /** Every word rewritten with one merge, in order. */
  ghost function ReplaceAll(ws: seq<Word>, pair: (Id, Id), token: Id): seq<Word>
  {
    seq(|ws|, j requires 0 <= j < |ws| => Replace(ws[j], pair, token))
  }

  /** `pair` occurs in the words, and no pair occurs more often. */
  ghost predicate MostFrequent(ws: seq<Word>, pair: (Id, Id))
  {
    TotalCount(ws, pair) > 0 && forall q :: TotalCount(ws, q) <= TotalCount(ws, pair)
  }

  /**
   * The words before each merge: `history[m]` are the words the m-th merge
   * was chosen from, `merges[m]` is a most frequent pair of them, and
   * `history[m + 1]` is every word rewritten with that pair and the id
   * `tokens[m]` it was given.
   */
  ghost predicate Trace(ws0: seq<Word>, merges: seq<(Id, Id)>, tokens: seq<Id>, history: seq<seq<Word>>)
  {
    && |history| == |merges| + 1 && |tokens| == |merges| && history[0] == ws0
    && forall m :: 0 <= m < |merges| ==> MergeAt(merges, tokens, history, m)
  }

  /** The m-th merge: a most frequent pair of `history[m]`, and `history[m + 1]` is the rewrite with it. */
  ghost predicate MergeAt(merges: seq<(Id, Id)>, tokens: seq<Id>, history: seq<seq<Word>>, m: nat)
    requires m < |merges| && |tokens| == |merges| && |history| == |merges| + 1
  {
    MostFrequent(history[m], merges[m]) && history[m + 1] == ReplaceAll(history[m], merges[m], tokens[m])
  }

  /** The pair `max_by_key` picks from the statistics is a most frequent pair of the words. */
  lemma MostCommonFrequent(ws: seq<Word>, stat: map<(Id, Id), nat>, pair: (Id, Id))
    requires StatOf(ws, stat)
    requires pair in stat && forall q :: q in stat ==> stat[q] <= stat[pair]
    ensures MostFrequent(ws, pair)
  {
    forall q
      ensures TotalCount(ws, q) <= TotalCount(ws, pair)
    {
      if q in stat {
        assert stat[q] <= stat[pair];
      }
    }
  }

  /** One more merge extends the trace. */
  lemma TraceStep(ws0: seq<Word>, merges: seq<(Id, Id)>, tokens: seq<Id>, history: seq<seq<Word>>,
                  pair: (Id, Id), token: Id, rs: seq<Word>)
    requires Trace(ws0, merges, tokens, history)
    requires MostFrequent(history[|merges|], pair)
    requires |rs| == |history[|merges|]|
    requires forall j :: 0 <= j < |rs| ==> rs[j] == Replace(history[|merges|][j], pair, token)
    ensures Trace(ws0, merges + [pair], tokens + [token], history + [rs])
  {
    var n := |merges|;
    assert rs == ReplaceAll(history[n], pair, token);
    var merges', tokens', history' := merges + [pair], tokens + [token], history + [rs];
    forall m | 0 <= m < |merges'|
      ensures MergeAt(merges', tokens', history', m)
    {
      if m < n {
        assert MergeAt(merges, tokens, history, m);
        assert history'[m] == history[m] && history'[m + 1] == history[m + 1];
        assert merges'[m] == merges[m] && tokens'[m] == tokens[m];
      }
    }
  }

  /** What training has recorded so far: the trace, the ids given, and the bound on the vocabulary. */
  ghost predicate Recorded(ranks: map<seq<byte>, Id>, encoder: seq<seq<byte>>, vocabSize: nat, ws0: seq<Word>,
                           merges: seq<(Id, Id)>, tokens: seq<Id>, history: seq<seq<Word>>, ws: seq<Word>)
  {
    && (vocabSize >= 256 ==> |ranks| <= vocabSize)
    && Trace(ws0, merges, tokens, history) && ws == history[|merges|]
    && (forall m :: 0 <= m < |tokens| ==> 256 <= tokens[m] <= 256 + m)
    && (|ranks| == |encoder| ==> forall m :: 0 <= m < |tokens| ==> tokens[m] == 256 + m)
  }

  /** One iteration of the training loop keeps the record. */
  lemma RecordStep(ranks: map<seq<byte>, Id>, encoder: seq<seq<byte>>, vocabSize: nat, ws0: seq<Word>,
                   merges: seq<(Id, Id)>, tokens: seq<Id>, history: seq<seq<Word>>, ws: seq<Word>,
                   stat: map<(Id, Id), nat>, pair: (Id, Id), rs: seq<Word>, newToken: seq<byte>)
    requires Recorded(ranks, encoder, vocabSize, ws0, merges, tokens, history, ws)
    requires |ranks| >= 256 && |ranks| <= |encoder| == 256 + |merges| && |ranks| < vocabSize
    requires StatOf(ws, stat) && pair in stat && forall q :: q in stat ==> stat[q] <= stat[pair]
    requires |rs| == |ws| && forall j :: 0 <= j < |ws| ==> rs[j] == Replace(ws[j], pair, |ranks|)
    ensures Recorded(ranks[newToken := |ranks|], encoder + [newToken], vocabSize, ws0,
                     merges + [pair], tokens + [|ranks|], history + [rs], rs)
  {
    MostCommonFrequent(ws, stat, pair);
    TraceStep(ws0, merges, tokens, history, pair, |ranks|, rs);
    var ranks' := ranks[newToken := |ranks|];
    assert |ranks'| <= |ranks| + 1;
    var tokens' := tokens + [|ranks|];
    assert tokens'[|tokens|] == |ranks|;
  }

  /**
   * One iteration of train's `while` loop on the two tables and the words:
   * count the pairs; stop (`done`) if there are none; otherwise merge a most
   * frequent pair into a token with id `ranks.len()` and rewrite every word.
   */
  method TrainRound(ranks: map<seq<byte>, Id>, encoder: seq<seq<byte>>, vocabSize: nat, ws: seq<Word>,
                    ghost words: seq<seq<byte>>, ghost merges: seq<(Id, Id)>, ghost tokens: seq<Id>,
                    ghost history: seq<seq<Word>>)
    returns (done: bool, ranks': map<seq<byte>, Id>, encoder': seq<seq<byte>>, ws': seq<Word>,
             ghost merges': seq<(Id, Id)>, ghost tokens': seq<Id>, ghost history': seq<seq<Word>>)
    requires TrainInv(ranks, encoder, merges, vocabSize, ws, words)
    requires Recorded(ranks, encoder, vocabSize, AsIds(words), merges, tokens, history, ws)
    requires |ranks| < vocabSize
    ensures done ==> forall j :: 0 <= j < |ws| ==> |ws[j]| < 2
    ensures done ==> ranks' == ranks && encoder' == encoder && ws' == ws
                     && merges' == merges && tokens' == tokens && history' == history
    ensures !done ==> TrainInv(ranks', encoder', merges', vocabSize, ws', words)
    ensures !done ==> Recorded(ranks', encoder', vocabSize, AsIds(words), merges', tokens', history', ws')
    ensures !done ==> TotalLen(ws') < TotalLen(ws)
  {
    var stat := CountStat(ws);
    if |stat| == 0 {
      NoPairsLeft(ws, stat);
      return true, ranks, encoder, ws, merges, tokens, history;
    }
    var pair := MostCommonPair(stat);
    var rs := RewriteWords(ws, pair, |ranks|);
    TrainStep(ranks, encoder, merges, vocabSize, ws, words, pair, rs);
    var newToken := encoder[pair.0] + encoder[pair.1];
    RecordStep(ranks, encoder, vocabSize, AsIds(words), merges, tokens, history, ws, stat, pair, rs, newToken);
    done := false;
    ranks', encoder', ws' := ranks[newToken := |ranks|], encoder + [newToken], rs;
    merges', tokens', history' := merges + [pair], tokens + [|ranks|], history + [rs];
  }

  /** The training loop's invariant holds on the seeded tables and the input words as ids. */
  lemma TrainStart(ranks: map<seq<byte>, Id>, encoder: seq<seq<byte>>, vocabSize: nat, words: seq<seq<byte>>)
    requires Tables(ranks, encoder) && |ranks| == |encoder| == 256
    requires vocabSize >= 1
    requires forall j :: 0 <= j < |words| ==> |words[j]| >= 1
    ensures TrainInv(ranks, encoder, [], vocabSize, AsIds(words), words)
    ensures Recorded(ranks, encoder, vocabSize, AsIds(words), [], [], [AsIds(words)], AsIds(words))
  {
    var ws := AsIds(words);
    forall j | 0 <= j < |words|
      ensures Flat(encoder, ws[j]) == words[j]
    {
      assert ws[j] == words[j];
      FlatSeeded(ranks, encoder, words[j]);
    }
  }

  /**
   * The `while` loop of train on the seeded tables and the input words, as
   * values: rounds are run while the vocabulary is below its target size and
   * pairs are left.
   */
  method TrainLoop(ranks0: map<seq<byte>, Id>, encoder0: seq<seq<byte>>, vocabSize: nat, words: seq<seq<byte>>)
    returns (ranks: map<seq<byte>, Id>, encoder: seq<seq<byte>>, ghost trained: seq<Word>,
             ghost merges: seq<(Id, Id)>, ghost tokens: seq<Id>, ghost history: seq<seq<Word>>)
    requires Tables(ranks0, encoder0) && |ranks0| == |encoder0| == 256
    requires vocabSize >= 1
    requires forall j :: 0 <= j < |words| ==> |words[j]| >= 1
    ensures TrainInv(ranks, encoder, merges, vocabSize, trained, words)
    ensures Recorded(ranks, encoder, vocabSize, AsIds(words), merges, tokens, history, trained)
    ensures |ranks| >= vocabSize || forall j :: 0 <= j < |trained| ==> |trained[j]| < 2
  {
    var ws := AsIds(words);
    TrainStart(ranks0, encoder0, vocabSize, words);
    ranks, encoder := ranks0, encoder0;
    merges, tokens, history := [], [], [ws];
    while |ranks| < vocabSize
      invariant TrainInv(ranks, encoder, merges, vocabSize, ws, words)
      invariant Recorded(ranks, encoder, vocabSize, AsIds(words), merges, tokens, history, ws)
      decreases TotalLen(ws)
    {
      var done;
      done, ranks, encoder, ws, merges, tokens, history :=
        TrainRound(ranks, encoder, vocabSize, ws, words, merges, tokens, history);
      if done {
        break;
      }
    }
    trained := ws;
  }

  // ---------------------------------------------------------------------------
  // The trainer

  class BpeCore {
    /** Token bytes to id. */
    var ranks: map<seq<byte>, Id>
    /** Id to token bytes. */
    var encoder: seq<seq<byte>>
    /** The vocabulary size training aims for. */
    const vocabSize: nat

    /**
     * `new` asserts `vocab_size >= size_of::<u8>()`, which is 1 (its message
     * speaks of 256); both tables start empty. The regular expression it
     * compiles is not part of this model.
     */
    constructor (vocabSize: nat)
      requires vocabSize >= 1
      ensures this.vocabSize == vocabSize && ranks == map[] && encoder == []
    {
      this.vocabSize := vocabSize;
      ranks := map[];
      encoder := [];
    }

    /** The seeding loop of train: ids 0..255 for the 256 single-byte tokens. */
    method Seed()
      requires ranks == map[] && encoder == []
      modifies this
      ensures Tables(ranks, encoder) && |ranks| == |encoder| == 256
    {
      for i := 0 to 256
        invariant |encoder| == i && |ranks| == i
        invariant forall k :: 0 <= k < i ==> encoder[k] == [k as byte]
        invariant forall t :: t in ranks <==> t in encoder
        invariant forall k :: 0 <= k < i ==> encoder[k] in ranks && ranks[encoder[k]] == k
      {
        assert [i as byte] !in encoder;
        ranks := ranks[[i as byte] := i];
        encoder := encoder + [[i as byte]];
      }
      forall i: byte
        ensures encoder[i] == [i] && [i] in ranks && ranks[[i]] == i
      {
        assert encoder[i] == [i as byte];
      }
      forall t | t in ranks
        ensures ranks[t] < |encoder|
      {
        var k :| 0 <= k < |encoder| && encoder[k] == t;
      }
    }

    /**
     * Training on words already split by the pre-tokenizer. `trained` are the
     * words as ids when training stops, `merges` the pairs merged, in order,
     * `tokens` the ids they were given and `history` the words each merge was
     * chosen from; all four are ghost records for the contract. The loop works
     * on local copies of the two tables, stored back when it ends.
     */
    method Train(words: seq<seq<byte>>)
      returns (ghost trained: seq<Word>, ghost merges: seq<(Id, Id)>, ghost tokens: seq<Id>, ghost history: seq<seq<Word>>)
      requires vocabSize >= 1
      requires ranks == map[] && encoder == []
      requires forall j :: 0 <= j < |words| ==> |words[j]| >= 1
      modifies this
      ensures Tables(ranks, encoder)
      ensures MergedBy(encoder, merges)
      ensures vocabSize <= 256 ==> merges == []
      ensures vocabSize >= 256 ==> |ranks| <= vocabSize
      ensures Trace(AsIds(words), merges, tokens, history) && trained == history[|merges|]
      ensures forall m :: 0 <= m < |tokens| ==> 256 <= tokens[m] <= 256 + m
      ensures |ranks| == |encoder| ==> forall m :: 0 <= m < |tokens| ==> tokens[m] == 256 + m
      ensures WordsBelow(trained, |encoder|) && |trained| == |words|
      ensures |ranks| == |encoder| ==> Expands(encoder, trained, words)
      ensures |ranks| >= vocabSize || forall j :: 0 <= j < |trained| ==> |trained[j]| < 2
    {
      Seed();
      var ranks, encoder;
      ranks, encoder, trained, merges, tokens, history := TrainLoop(this.ranks, this.encoder, vocabSize, words);
      this.ranks, this.encoder := ranks, encoder;
    }
  }
}
