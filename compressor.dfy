/**
 * The frequent-pair byte-substitution compressor: byte values that do not
 * occur in the input become codes for frequent adjacent byte pairs, and
 * decompression expands the codes again with an explicit stack.
 */
module Compressor {
  import opened Pairs

  type Pair = (byte, byte)

  /** The signed 8-bit `max_freq` argument. */
  newtype int8 = x: int | -128 <= x < 128

  /** What `compress` returns, or `OutOfCodes` where it would panic on an exhausted free set. */
  datatype CompressResult = Compressed(data: seq<byte>, table: map<byte, Pair>) | OutOfCodes

  /** `max_freq as u32`: the `u32` congruent to the value modulo 2^32, so a negative i8 sign-extends. */
  function Threshold(maxFreq: int8): (t: nat)
    ensures t < 0x1_0000_0000
    ensures (t - maxFreq as int) % 0x1_0000_0000 == 0
  {
    if maxFreq >= 0 then maxFreq as nat else (maxFreq as int + 0x1_0000_0000) as nat
  }

  // ---------------------------------------------------------------------------
  // Expansion of codes

  /** `level` witnesses that the table is acyclic: a code's parts that are codes sit lower. */
  ghost predicate Ranked(table: map<byte, Pair>, level: map<byte, nat>)
  {
    && (forall c :: c in table ==> c in level)
    && (forall c {:trigger table[c]} :: c in table ==> Lower(table, level, table[c].0, c) && Lower(table, level, table[c].1, c))
  }

  ghost predicate Lower(table: map<byte, Pair>, level: map<byte, nat>, x: byte, c: byte)
  {
    x in table ==> x in level && c in level && level[x] < level[c]
  }

  /** The bytes a single compressed byte stands for. */
  ghost function Expand(table: map<byte, Pair>, level: map<byte, nat>, b: byte): seq<byte>
    requires Ranked(table, level)
    decreases if b in table then level[b] + 1 else 0
  {
    if b in table then Expand(table, level, table[b].0) + Expand(table, level, table[b].1) else [b]
  }

  /** The bytes a compressed buffer stands for. */
  ghost function ExpandAll(table: map<byte, Pair>, level: map<byte, nat>, s: seq<byte>): seq<byte>
    requires Ranked(table, level)
  {
    if s == [] then [] else Expand(table, level, s[0]) + ExpandAll(table, level, s[1..])
  }

  /** Number of nodes in the expansion tree of b: the decompression loop's fuel. */
  ghost function Size(table: map<byte, Pair>, level: map<byte, nat>, b: byte): nat
    requires Ranked(table, level)
    decreases if b in table then level[b] + 1 else 0
  {
    if b in table then 1 + Size(table, level, table[b].0) + Size(table, level, table[b].1) else 1
  }

  ghost function SizeAll(table: map<byte, Pair>, level: map<byte, nat>, s: seq<byte>): nat
    requires Ranked(table, level)
  {
    if s == [] then 0 else Size(table, level, s[0]) + SizeAll(table, level, s[1..])
  }

  /** What the pending stack still stands for; its top is the last element. */
  ghost function StackExpand(table: map<byte, Pair>, level: map<byte, nat>, stack: seq<byte>): seq<byte>
    requires Ranked(table, level)
  {
    if stack == [] then []
    else Expand(table, level, stack[|stack| - 1]) + StackExpand(table, level, stack[..|stack| - 1])
  }

  ghost function StackSize(table: map<byte, Pair>, level: map<byte, nat>, stack: seq<byte>): nat
    requires Ranked(table, level)
  {
    if stack == [] then 0
    else Size(table, level, stack[|stack| - 1]) + StackSize(table, level, stack[..|stack| - 1])
  }

  lemma StackPush(table: map<byte, Pair>, level: map<byte, nat>, stack: seq<byte>, x: byte)
    requires Ranked(table, level)
    ensures StackExpand(table, level, stack + [x]) == Expand(table, level, x) + StackExpand(table, level, stack)
    ensures StackSize(table, level, stack + [x]) == Size(table, level, x) + StackSize(table, level, stack)
  {
    assert (stack + [x])[..|stack|] == stack;
  }

  lemma {:induction false} ExpandAllConcat(table: map<byte, Pair>, level: map<byte, nat>, s: seq<byte>, t: seq<byte>)
    requires Ranked(table, level)
    ensures ExpandAll(table, level, s + t) == ExpandAll(table, level, s) + ExpandAll(table, level, t)
  {
    if s == [] {
      assert s + t == t;
    } else {
      assert (s + t)[1..] == s[1..] + t;
      ExpandAllConcat(table, level, s[1..], t);
    }
  }

  /** Bytes that are not codes are copied through unchanged; in particular an empty table is the identity. */
  lemma {:induction false} ExpandAllPlain(table: map<byte, Pair>, level: map<byte, nat>, s: seq<byte>)
    requires Ranked(table, level)
    requires forall k :: 0 <= k < |s| ==> s[k] !in table
    ensures ExpandAll(table, level, s) == s
  {
    if s != [] {
      ExpandAllPlain(table, level, s[1..]);
    }
  }

  // ---------------------------------------------------------------------------
  // decompress


  /** Taking the top of a non-empty stack. */
  lemma PopStep(table: map<byte, Pair>, level: map<byte, nat>, stack: seq<byte>, rest: seq<byte>, n: nat)
    requires Ranked(table, level)
    requires stack != []
    ensures StackExpand(table, level, stack) + rest
            == Expand(table, level, stack[|stack| - 1]) + (StackExpand(table, level, stack[..|stack| - 1]) + rest)
    ensures StackSize(table, level, stack) + n
            == Size(table, level, stack[|stack| - 1]) + (StackSize(table, level, stack[..|stack| - 1]) + n)
  {
    var top, below := Expand(table, level, stack[|stack| - 1]), StackExpand(table, level, stack[..|stack| - 1]);
    assert StackExpand(table, level, stack) == top + below;
    AppendAssoc(top, below, rest);
  }

  /** Reading the next input byte while the stack is empty. */
  lemma ReadStep(table: map<byte, Pair>, level: map<byte, nat>, s: seq<byte>, i: nat)
    requires Ranked(table, level)
    requires i < |s|
    ensures StackExpand(table, level, []) + ExpandAll(table, level, s[i..])
            == Expand(table, level, s[i]) + (StackExpand(table, level, []) + ExpandAll(table, level, s[i + 1..]))
    ensures StackSize(table, level, []) + SizeAll(table, level, s[i..])
            == Size(table, level, s[i]) + (StackSize(table, level, []) + SizeAll(table, level, s[i + 1..]))
  {
    assert s[i..][1..] == s[i + 1..];
  }

  /** Pushing the two halves of a code, the first half on top. */
  lemma PushStep(table: map<byte, Pair>, level: map<byte, nat>, stack: seq<byte>, c: byte, rest: seq<byte>, n: nat)
    requires Ranked(table, level)
    requires c in table
    ensures StackExpand(table, level, stack + [table[c].1, table[c].0]) + rest
            == Expand(table, level, c) + (StackExpand(table, level, stack) + rest)
    ensures StackSize(table, level, stack + [table[c].1, table[c].0]) + n + 1
            == Size(table, level, c) + (StackSize(table, level, stack) + n)
  {
    var (a, b) := table[c];
    StackPush(table, level, stack, b);
    StackPush(table, level, stack + [b], a);
    assert stack + [b] + [a] == stack + [b, a];
    var ea, eb, below := Expand(table, level, a), Expand(table, level, b), StackExpand(table, level, stack);
    assert Expand(table, level, c) == ea + eb;
    AppendAssoc(ea, eb + below, rest);
    AppendAssoc(eb, below, rest);
    AppendAssoc(ea, eb, below + rest);
  }

  /** Emitting a byte that is not a code. */
  lemma LeafStep(table: map<byte, Pair>, level: map<byte, nat>, done: seq<byte>, b: byte, rest: seq<byte>)
    requires Ranked(table, level)
    requires b !in table
    ensures done + (Expand(table, level, b) + rest) == (done + [b]) + rest
  {
  }

  /** Expands every code of `compressed` through `table`; `level` is a ghost witness of acyclicity. */
  method Decompress(compressed: seq<byte>, table: map<byte, Pair>, ghost level: map<byte, nat>)
    returns (decompressed: seq<byte>)
    requires Ranked(table, level)
    ensures decompressed == ExpandAll(table, level, compressed)
  {
    decompressed := [];
    var i := 0;
    var stack: seq<byte> := [];
    assert compressed[0..] == compressed;
    while true
      invariant 0 <= i <= |compressed|
      invariant decompressed + (StackExpand(table, level, stack) + ExpandAll(table, level, compressed[i..]))
                == ExpandAll(table, level, compressed)
      decreases StackSize(table, level, stack) + SizeAll(table, level, compressed[i..])
    {
      var current: byte;
      if stack != [] {
        current := stack[|stack| - 1];
        PopStep(table, level, stack, ExpandAll(table, level, compressed[i..]), SizeAll(table, level, compressed[i..]));
        stack := stack[..|stack| - 1];
      } else if i < |compressed| {
        current := compressed[i];
        ReadStep(table, level, compressed, i);
        i := i + 1;
      } else {
        break;
      }
      if current in table {
        var (a, b) := table[current];
        PushStep(table, level, stack, current, ExpandAll(table, level, compressed[i..]), SizeAll(table, level, compressed[i..]));
        stack := stack + [b, a];
      } else {
        LeafStep(table, level, decompressed, current,
                 StackExpand(table, level, stack) + ExpandAll(table, level, compressed[i..]));
        decompressed := decompressed + [current];
      }
    }
  }

  // ---------------------------------------------------------------------------
  // compress: the free codes and the frequency table

  /** The smallest element of s that is at least k, found by counting up from k. */
  function LeastFrom(s: set<byte>, k: byte): (m: byte)
    requires exists x :: x in s && k <= x
    ensures m in s && k <= m
    ensures forall x :: x in s && k <= x ==> m <= x
    decreases 255 - k
  {
    if k in s then k else LeastFrom(s, k + 1)
  }

  /** BTreeSet::pop_first: the smallest free code. */
  function MinOf(s: set<byte>): (m: byte)
    requires s != {}
    ensures m in s
    ensures forall x :: x in s ==> m <= x
  {
    LeastFrom(s, 0)
  }

  /** fm holds exactly the adjacent-pair counts of s. */
  ghost predicate FreqOf(s: seq<byte>, fm: map<Pair, nat>)
  {
    && (forall p :: p in fm <==> Count(s, p) > 0)
    && (forall p :: p in fm ==> fm[p] == Count(s, p))
  }

  /** The counting loop of compress (also run again after every pass). */
  method FrequencyMap(s: seq<byte>) returns (fm: map<Pair, nat>)
    ensures FreqOf(s, fm)
  {
    fm := map[];
    for i := 0 to |s|
      invariant FreqOf(Upto(s, i + 1), fm)
    {
      if i + 1 < |s| {
        var key := (s[i], s[i + 1]);
        ghost var before, after := s[..i + 1], s[..i + 2];
        forall p ensures Count(after, p) == Count(before, p) + (if p == key then 1 else 0) {
          CountPrefixStep(s, i, p);
        }
        fm := fm[key := (if key in fm then fm[key] else 0) + 1];
      } else {
        assert Upto(s, i + 2) == Upto(s, i + 1);
      }
    }
    assert Upto(s, |s| + 1) == s;
  }

  // ---------------------------------------------------------------------------
  // compress: the state the substitution loop keeps

  /** Ghost record of the codes handed out so far: code -> pair, the acyclicity witness, the next level. */
  datatype CodeBook = CodeBook(codes: map<byte, Pair>, level: map<byte, nat>, next: nat)

  /** A byte the buffer may hold: an input byte or a code already handed out. */
  ghost predicate Known(data: seq<byte>, codes: map<byte, Pair>, x: byte)
  {
    x in data || x in codes
  }

  /** The halves of every code are known bytes. */
  ghost predicate Closed(data: seq<byte>, codes: map<byte, Pair>)
  {
    forall c {:trigger codes[c]} :: c in codes ==> Known(data, codes, codes[c].0) && Known(data, codes, codes[c].1)
  }

  ghost predicate AllKnown(data: seq<byte>, codes: map<byte, Pair>, s: seq<byte>)
  {
    forall k :: 0 <= k < |s| ==> Known(data, codes, s[k])
  }

  /** The free set, the pair table and the code book agree with each other. */
  ghost predicate TablesInv(data: seq<byte>, free: set<byte>, pairs: map<Pair, byte>, book: CodeBook)
  {
    var codes := book.codes;
    && (forall x: byte :: x in free <==> !Known(data, codes, x))
    && (forall c :: c in codes ==> c !in data)
    && (forall c :: c in codes ==> c in book.level && book.level[c] < book.next)
    && (forall p :: p in pairs ==> pairs[p] in codes && codes[pairs[p]] == p)
    && (forall c {:trigger codes[c]} :: c in codes ==> codes[c] in pairs && pairs[codes[c]] == c)
    && (forall c, x :: c in codes && x in free ==> c < x)
    && |pairs| == |codes|
  }

  /** The invariant of compress between substitutions. */
  ghost predicate Inv(data: seq<byte>, buf: seq<byte>, free: set<byte>, pairs: map<Pair, byte>, book: CodeBook)
  {
    && TablesInv(data, free, pairs, book)
    && Ranked(book.codes, book.level)
    && Closed(data, book.codes)
    && AllKnown(data, book.codes, buf)
    && |buf| + |book.codes| == |data|
    && ExpandAll(book.codes, book.level, buf) == data
  }

  /** Handing out code e for pair p. */
  ghost function Allocate(book: CodeBook, e: byte, p: Pair): CodeBook
  {
    CodeBook(book.codes[e := p], book.level[e := book.next], book.next + 1)
  }

  /** The buffer after `compressed_data[i] = e` and `compressed_data.remove(i + 1)`. */
  function Substituted(buf: seq<byte>, i: nat, e: byte): (r: seq<byte>)
    requires i + 1 < |buf|
    ensures |r| == |buf| - 1
    ensures r[..i] == buf[..i] && r[i] == e && r[i + 1..] == buf[i + 2..]
  {
    buf[..i] + [e] + buf[i + 2..]
  }

  /** A fresh code leaves the expansion of every known byte unchanged. */
  lemma {:induction false} ExpandExtend(data: seq<byte>, book: CodeBook, e: byte, p: Pair, x: byte)
    requires Ranked(book.codes, book.level)
    requires Closed(data, book.codes)
    requires !Known(data, book.codes, e)
    requires Ranked(book.codes[e := p], book.level[e := book.next])
    requires Known(data, book.codes, x)
    ensures Expand(book.codes[e := p], book.level[e := book.next], x) == Expand(book.codes, book.level, x)
    decreases if x in book.codes then book.level[x] + 1 else 0
  {
    if x in book.codes {
      ExpandExtend(data, book, e, p, book.codes[x].0);
      ExpandExtend(data, book, e, p, book.codes[x].1);
    }
  }

  lemma {:induction false} ExpandAllExtend(data: seq<byte>, book: CodeBook, e: byte, p: Pair, s: seq<byte>)
    requires Ranked(book.codes, book.level)
    requires Closed(data, book.codes)
    requires !Known(data, book.codes, e)
    requires Ranked(book.codes[e := p], book.level[e := book.next])
    requires AllKnown(data, book.codes, s)
    ensures ExpandAll(book.codes[e := p], book.level[e := book.next], s) == ExpandAll(book.codes, book.level, s)
  {
    if s != [] {
      ExpandExtend(data, book, e, p, s[0]);
      ExpandAllExtend(data, book, e, p, s[1..]);
    }
  }

  /** The new code's halves are known, so it sits above every code it refers to. */
  lemma AllocateRanked(data: seq<byte>, buf: seq<byte>, free: set<byte>, pairs: map<Pair, byte>, book: CodeBook,
                       e: byte, p: Pair)
    requires Inv(data, buf, free, pairs, book)
    requires e in free && Known(data, book.codes, p.0) && Known(data, book.codes, p.1)
    ensures Ranked(Allocate(book, e, p).codes, Allocate(book, e, p).level)
  {
    var nb := Allocate(book, e, p);
    forall c | c in nb.codes
      ensures Lower(nb.codes, nb.level, nb.codes[c].0, c) && Lower(nb.codes, nb.level, nb.codes[c].1, c)
    {
      if c != e {
        assert book.codes[c] == nb.codes[c];
        assert Lower(book.codes, book.level, book.codes[c].0, c);
        assert Lower(book.codes, book.level, book.codes[c].1, c);
      }
    }
  }

  /** What a buffer stands for, split around the pair at i. */
  lemma {:induction false} ExpandAllAt(table: map<byte, Pair>, level: map<byte, nat>, s: seq<byte>, i: nat)
    requires Ranked(table, level)
    requires i + 1 < |s|
    ensures ExpandAll(table, level, s)
            == ExpandAll(table, level, s[..i])
               + ((Expand(table, level, s[i]) + Expand(table, level, s[i + 1])) + ExpandAll(table, level, s[i + 2..]))
  {
    if i == 0 {
      assert s[1..][1..] == s[2..];
    } else {
      ExpandAllAt(table, level, s[1..], i - 1);
      assert s[1..][..i - 1] == s[..i][1..];
      assert s[1..][i - 1] == s[i] && s[1..][i] == s[i + 1];
      assert s[1..][i + 1..] == s[i + 2..];
    }
  }

  /** Replacing the pair at i by a byte that stands for the same bytes keeps the expansion. */
  lemma ExpandAllReplacePair(t: map<byte, Pair>, l: map<byte, nat>, t2: map<byte, Pair>, l2: map<byte, nat>,
                             buf: seq<byte>, i: nat, e: byte)
    requires Ranked(t, l) && Ranked(t2, l2)
    requires i + 1 < |buf|
    requires ExpandAll(t2, l2, buf[..i]) == ExpandAll(t, l, buf[..i])
    requires ExpandAll(t2, l2, buf[i + 2..]) == ExpandAll(t, l, buf[i + 2..])
    requires Expand(t2, l2, e) == Expand(t, l, buf[i]) + Expand(t, l, buf[i + 1])
    ensures ExpandAll(t2, l2, Substituted(buf, i, e)) == ExpandAll(t, l, buf)
  {
    var nbuf := Substituted(buf, i, e);
    ExpandAllAt(t, l, buf, i);
    ExpandAllConcat(t2, l2, buf[..i], nbuf[i..]);
    assert nbuf == buf[..i] + nbuf[i..];
    assert nbuf[i..][1..] == buf[i + 2..];
  }

  /** Substituting code e for the pair at i keeps what the buffer stands for. */
  lemma SubstitutedExpands(data: seq<byte>, buf: seq<byte>, book: CodeBook, i: nat, e: byte)
    requires Ranked(book.codes, book.level) && Closed(data, book.codes) && AllKnown(data, book.codes, buf)
    requires ExpandAll(book.codes, book.level, buf) == data
    requires i + 1 < |buf| && !Known(data, book.codes, e)
    requires Ranked(Allocate(book, e, (buf[i], buf[i + 1])).codes, Allocate(book, e, (buf[i], buf[i + 1])).level)
    ensures ExpandAll(Allocate(book, e, (buf[i], buf[i + 1])).codes, Allocate(book, e, (buf[i], buf[i + 1])).level,
                      Substituted(buf, i, e)) == data
  {
    var p := (buf[i], buf[i + 1]);
    var nb := Allocate(book, e, p);
    assert AllKnown(data, book.codes, buf[..i]);
    ExpandAllExtend(data, book, e, p, buf[..i]);
    assert AllKnown(data, book.codes, buf[i + 2..]);
    ExpandAllExtend(data, book, e, p, buf[i + 2..]);
    ExpandExtend(data, book, e, p, buf[i]);
    ExpandExtend(data, book, e, p, buf[i + 1]);
    ExpandAllReplacePair(book.codes, book.level, nb.codes, nb.level, buf, i, e);
  }

  /** Handing out the smallest free code for a pair without one keeps the tables consistent. */
  lemma AllocateKeepsTables(data: seq<byte>, free: set<byte>, pairs: map<Pair, byte>, book: CodeBook, p: Pair, e: byte)
    requires TablesInv(data, free, pairs, book)
    requires p !in pairs && free != {} && e == MinOf(free)
    ensures TablesInv(data, free - {e}, pairs[p := e], Allocate(book, e, p))
    ensures |Allocate(book, e, p).codes| == |book.codes| + 1
  {
    var nb, nfree, npairs := Allocate(book, e, p), free - {e}, pairs[p := e];
    assert e !in book.codes;
    assert |npairs| == |pairs| + 1;
    forall q | q in npairs ensures npairs[q] in nb.codes && nb.codes[npairs[q]] == q {
      if q != p {
        assert pairs[q] in book.codes;
      }
    }
    forall c | c in nb.codes ensures nb.codes[c] in npairs && npairs[nb.codes[c]] == c {
      if c != e {
        assert book.codes[c] in pairs;
      }
    }
    forall c, x | c in nb.codes && x in nfree ensures c < x {
      assert x in free && x != e;
      if c != e {
        assert c in book.codes;
      }
    }
  }

  /** After the substitution every buffer byte, and every half of a code, is still known. */
  lemma SubstitutionKeepsKnown(data: seq<byte>, buf: seq<byte>, book: CodeBook, i: nat, e: byte)
    requires Closed(data, book.codes) && AllKnown(data, book.codes, buf)
    requires i + 1 < |buf|
    ensures Closed(data, Allocate(book, e, (buf[i], buf[i + 1])).codes)
    ensures AllKnown(data, Allocate(book, e, (buf[i], buf[i + 1])).codes, Substituted(buf, i, e))
  {
    var nb := Allocate(book, e, (buf[i], buf[i + 1]));
    var nbuf := Substituted(buf, i, e);
    forall c | c in nb.codes
      ensures Known(data, nb.codes, nb.codes[c].0) && Known(data, nb.codes, nb.codes[c].1)
    {
      if c != e {
        assert Known(data, book.codes, book.codes[c].0) && Known(data, book.codes, book.codes[c].1);
      } else {
        assert Known(data, book.codes, buf[i]) && Known(data, book.codes, buf[i + 1]);
      }
    }
    forall k | 0 <= k < |nbuf| ensures Known(data, nb.codes, nbuf[k]) {
      if k < i {
        assert nbuf[k] == buf[k];
      } else if k > i {
        assert nbuf[k] == buf[k + 1];
      }
    }
  }

  /** One substitution (`table.insert`, `compressed_data[i] = e`, `remove(i + 1)`) preserves the invariant. */
  lemma SubstitutionKeepsInv(data: seq<byte>, buf: seq<byte>, free: set<byte>, pairs: map<Pair, byte>, book: CodeBook,
                             i: nat, e: byte)
    requires Inv(data, buf, free, pairs, book)
    requires i + 1 < |buf| && (buf[i], buf[i + 1]) !in pairs
    requires free != {} && e == MinOf(free)
    ensures Inv(data, Substituted(buf, i, e), free - {e}, pairs[(buf[i], buf[i + 1]) := e],
                Allocate(book, e, (buf[i], buf[i + 1])))
  {
    var p := (buf[i], buf[i + 1]);
    assert Known(data, book.codes, buf[i]) && Known(data, book.codes, buf[i + 1]);
    AllocateKeepsTables(data, free, pairs, book, p, e);
    AllocateRanked(data, buf, free, pairs, book, e, p);
    SubstitutedExpands(data, buf, book, i, e);
    SubstitutionKeepsKnown(data, buf, book, i, e);
  }

  // ---------------------------------------------------------------------------
  // compress: one substitution pass

  /**
   * What holds after the pass has scanned position i of the buffer `buf` it
   * started from, having made r substitutions so far: the working buffer
   * `out` is `buf` with its first i + r bytes rewritten to i bytes and the
   * rest untouched, the stale frequency map
   * still agrees with `buf`'s counts on every pair starting with a byte of
   * `buf`, and every new table entry is a pair of `buf` at or above the
   * threshold. While nothing was substituted, every pair before i is below
   * the threshold or already has a code.
   */
  ghost predicate PassInv(data: seq<byte>, buf: seq<byte>, freq: map<Pair, nat>, thr: nat,
                          free0: set<byte>, pairs0: map<Pair, byte>, book0: CodeBook,
                          i: nat, r: nat, found: bool, out: seq<byte>, free: set<byte>,
                          pairs: map<Pair, byte>, book: CodeBook, fm: map<Pair, nat>)
  {
    && i <= |out| && |out| + r == |buf|
    && out[i..] == buf[i + r..]
    && FreqOf(buf, freq)
    && found == (r > 0) && |free| + r == |free0| && free <= free0
    && (forall k :: 0 <= k < |buf| ==> buf[k] !in free0)
    && (forall p :: p in freq && p.0 !in free0 ==> p in fm && fm[p] == freq[p])
    && (r == 0 ==> out == buf && free == free0 && pairs == pairs0 && book == book0)
    && (r == 0 ==> forall k :: 0 <= k < i && k + 1 < |buf| ==>
          Count(buf, (buf[k], buf[k + 1])) < thr || (buf[k], buf[k + 1]) in pairs0)
    && (forall p :: p in pairs0 ==> p in pairs && pairs[p] == pairs0[p])
    && (forall p :: p in pairs && p !in pairs0 ==> Adjacent(buf, p) && Count(buf, p) >= thr)
  }

  lemma PassStart(data: seq<byte>, buf: seq<byte>, freq: map<Pair, nat>, thr: nat,
                  free0: set<byte>, pairs0: map<Pair, byte>, book0: CodeBook)
    requires Inv(data, buf, free0, pairs0, book0)
    requires FreqOf(buf, freq)
    ensures PassInv(data, buf, freq, thr, free0, pairs0, book0, 0, 0, false, buf, free0, pairs0, book0, freq)
  {
    assert buf[0..] == buf;
    forall k | 0 <= k < |buf|
      ensures buf[k] !in free0
    {
      assert Known(data, book0.codes, buf[k]);
    }
  }

  /** The pair the scan looks up at position i is a pair of `buf`, so the lookup never misses. */
  lemma PassLookup(data: seq<byte>, buf: seq<byte>, freq: map<Pair, nat>, thr: nat,
                   free0: set<byte>, pairs0: map<Pair, byte>, book0: CodeBook,
                   i: nat, r: nat, found: bool, out: seq<byte>, free: set<byte>,
                   pairs: map<Pair, byte>, book: CodeBook, fm: map<Pair, nat>)
    requires PassInv(data, buf, freq, thr, free0, pairs0, book0, i, r, found, out, free, pairs, book, fm)
    requires i + 1 < |out|
    ensures (out[i], out[i + 1]) == (buf[i + r], buf[i + r + 1])
    ensures (out[i], out[i + 1]) in fm && fm[(out[i], out[i + 1])] == Count(buf, (out[i], out[i + 1]))
  {
    assert out[i..][0] == out[i] && out[i..][1] == out[i + 1];
    CountAt(buf, i + r);
  }

  /** A position the scan leaves alone. */
  lemma PassSkip(data: seq<byte>, buf: seq<byte>, freq: map<Pair, nat>, thr: nat,
                 free0: set<byte>, pairs0: map<Pair, byte>, book0: CodeBook,
                 i: nat, r: nat, found: bool, out: seq<byte>, free: set<byte>,
                 pairs: map<Pair, byte>, book: CodeBook, fm: map<Pair, nat>)
    requires PassInv(data, buf, freq, thr, free0, pairs0, book0, i, r, found, out, free, pairs, book, fm)
    requires i + 1 < |out|
    requires (out[i], out[i + 1]) in fm
    requires fm[(out[i], out[i + 1])] < thr || (out[i], out[i + 1]) in pairs
    ensures PassInv(data, buf, freq, thr, free0, pairs0, book0, i + 1, r, found, out, free, pairs, book, fm)
  {
    PassLookup(data, buf, freq, thr, free0, pairs0, book0, i, r, found, out, free, pairs, book, fm);
    assert out[i + 1..] == out[i..][1..];
  }

  /** `s[i] = e` followed by `s.remove(i + 1)`: the pair at i replaced by e. */
  lemma StoreRemove(s: seq<byte>, i: nat, e: byte)
    requires i + 1 < |s|
    ensures s[i := e][i + 1] == s[i + 1]
    ensures s[i := e][..i + 1] + s[i := e][i + 2..] == Substituted(s, i, e)
  {
    assert s[i := e][..i + 1] == s[..i] + [e];
  }

  /** A position where the scan substitutes a fresh code for the pair. */
  lemma PassSubstitute(data: seq<byte>, buf: seq<byte>, freq: map<Pair, nat>, thr: nat,
                       free0: set<byte>, pairs0: map<Pair, byte>, book0: CodeBook,
                       i: nat, r: nat, found: bool, out: seq<byte>, free: set<byte>,
                       pairs: map<Pair, byte>, book: CodeBook, fm: map<Pair, nat>, e: byte)
    requires PassInv(data, buf, freq, thr, free0, pairs0, book0, i, r, found, out, free, pairs, book, fm)
    requires i + 1 < |out|
    requires (out[i], out[i + 1]) in fm
    requires fm[(out[i], out[i + 1])] >= thr && (out[i], out[i + 1]) !in pairs
    requires free != {} && e == MinOf(free)
    ensures PassInv(data, buf, freq, thr, free0, pairs0, book0, i + 1, r + 1, true,
                    Substituted(out, i, e), free - {e}, pairs[(out[i], out[i + 1]) := e],
                    Allocate(book, e, (out[i], out[i + 1])), fm - {(e, out[i + 1])})
  {
    var key := (out[i], out[i + 1]);
    PassLookup(data, buf, freq, thr, free0, pairs0, book0, i, r, found, out, free, pairs, book, fm);
    var next := Substituted(out, i, e);
    var pairs' := pairs[key := e];
    var fm' := fm - {(e, out[i + 1])};
    var free' := free - {e};
    assert |next| + (r + 1) == |buf| && next[i + 1..] == buf[i + 1 + (r + 1)..] by {
      assert next[i + 1..] == out[i..][2..];
      assert out[i..][2..] == buf[i + r..][2..] == buf[i + 1 + (r + 1)..];
    }
    assert |free'| + (r + 1) == |free0| && free' <= free0 by {
      assert e in free && |free - {e}| == |free| - 1;
    }
    assert forall p :: p in freq && p.0 !in free0 ==> p in fm' && fm'[p] == freq[p] by {
      assert e in free0;
      forall p | p in freq && p.0 !in free0
        ensures p in fm' && fm'[p] == freq[p]
      {
        assert p != (e, out[i + 1]);
      }
    }
    assert forall p :: p in pairs0 ==> p in pairs' && pairs'[p] == pairs0[p] by {
      forall p | p in pairs0
        ensures p in pairs' && pairs'[p] == pairs0[p]
      {
        assert p in pairs;
      }
    }
    assert forall p :: p in pairs' && p !in pairs0 ==> Adjacent(buf, p) && Count(buf, p) >= thr by {
      forall p | p in pairs' && p !in pairs0
        ensures Adjacent(buf, p) && Count(buf, p) >= thr
      {
        if p == key {
          CountPositive(buf, key);
        }
      }
    }
    assert PassInv(data, buf, freq, thr, free0, pairs0, book0, i + 1, r + 1, true, next, free', pairs',
                   Allocate(book, e, key), fm');
  }

  /** The pass's postcondition, read off PassInv once the scan stops. */
  lemma PassEnd(data: seq<byte>, buf: seq<byte>, freq: map<Pair, nat>, thr: nat,
                free0: set<byte>, pairs0: map<Pair, byte>, book0: CodeBook,
                i: nat, r: nat, found: bool, out: seq<byte>, free: set<byte>,
                pairs: map<Pair, byte>, book: CodeBook, fm: map<Pair, nat>)
    requires PassInv(data, buf, freq, thr, free0, pairs0, book0, i, r, found, out, free, pairs, book, fm)
    requires i >= |buf| || i + 1 >= |out|
    ensures found ==> |free| < |free0|
    ensures |out| + |free0| == |buf| + |free|
    ensures !found ==> out == buf && free == free0 && pairs == pairs0 && book == book0
    ensures !found ==> forall k :: 0 <= k < |buf| - 1 ==>
              Count(buf, (buf[k], buf[k + 1])) < thr || (buf[k], buf[k + 1]) in pairs0
    ensures forall p :: p in pairs0 ==> p in pairs && pairs[p] == pairs0[p]
    ensures forall p :: p in pairs && p !in pairs0 ==> Adjacent(buf, p) && Count(buf, p) >= thr
  {
  }

  /** The state of a pass: `ok` is false once the source would have panicked. */
  datatype ScanState = ScanState(ok: bool, found: bool, out: seq<byte>, free: set<byte>,
                                 pairs: map<Pair, byte>, fm: map<Pair, nat>)

  /**
   * The decision at position i of a pass: a pair whose stale count reaches the
   * threshold and that has no code yet gets the least free code; any other
   * pair is left alone. A missing count, or no free code, is where the source
   * panics.
   */
  function Step(thr: nat, i: nat, s: ScanState): (r: ScanState)
    requires i + 1 < |s.out|
    ensures r.free <= s.free
    ensures r.found == (s.found || r.free != s.free)
    ensures r.ok ==> |r.out| + |s.free| == |s.out| + |r.free|
    ensures r.ok && r.free == s.free ==> r == s
    ensures s.ok && !r.ok ==> r == s.(ok := false)
  {
    var key := (s.out[i], s.out[i + 1]);
    if key !in s.fm then s.(ok := false)
    else if s.fm[key] < thr || key in s.pairs then s
    else if s.free == {} then s.(ok := false)
    else
      var e := MinOf(s.free);
      s.(found := true, out := Substituted(s.out, i, e), free := s.free - {e},
         pairs := s.pairs[key := e], fm := s.fm - {(e, s.out[i + 1])})
  }

  /**
   * The pass `for i in 0..n` from position i on, where n is the buffer length
   * when the pass began: it stops at n, when no pair starts at i any more, or
   * at a panic.
   */
  ghost function Scan(n: nat, thr: nat, i: nat, s: ScanState): ScanState
    decreases n - i
  {
    if !s.ok || i >= n || i + 1 >= |s.out| then s else Scan(n, thr, i + 1, Step(thr, i, s))
  }

  /**
   * A pass only uses up free codes, one per byte it removes from the buffer,
   * and one that substitutes uses at least one.
   */
  lemma {:induction false} ScanFree(n: nat, thr: nat, i: nat, s: ScanState)
    ensures Scan(n, thr, i, s).free <= s.free
    ensures Scan(n, thr, i, s).ok ==> |Scan(n, thr, i, s).out| + |s.free| == |s.out| + |Scan(n, thr, i, s).free|
    ensures |Scan(n, thr, i, s).free| <= |s.free|
    ensures Scan(n, thr, i, s).found ==> s.found || |Scan(n, thr, i, s).free| < |s.free|
    decreases n - i
  {
    if s.ok && i < n && i + 1 < |s.out| {
      var t := Step(thr, i, s);
      ScanFree(n, thr, i + 1, t);
      if t.free != s.free {
        var e := MinOf(s.free);
        assert s.free == t.free + {e} && e !in t.free;
      }
    }
  }

  /**
   * The body of the scan at a position i where a pair starts: leave it, or
   * give the pair the least free code, store the code at i, drop the stale
   * count of the pair now starting at i and remove the byte at i + 1. `ok`
   * is false where the source's `pop_first().unwrap()` would panic.
   */
  method ScanAt(thr: nat, i: nat, found: bool, out: seq<byte>, free: set<byte>, pairs: map<Pair, byte>,
                fm: map<Pair, nat>)
    returns (ok: bool, found': bool, out': seq<byte>, free': set<byte>, pairs': map<Pair, byte>, fm': map<Pair, nat>)
    requires i + 1 < |out| && (out[i], out[i + 1]) in fm
    ensures ScanState(ok, found', out', free', pairs', fm') == Step(thr, i, ScanState(true, found, out, free, pairs, fm))
  {
    ok, found', out', free', pairs', fm' := true, found, out, free, pairs, fm;
    var key := (out[i], out[i + 1]);
    if fm[key] >= thr && key !in pairs {
      if free == {} {
        ok := false;
        return;
      }
      var e := MinOf(free);
      StoreRemove(out, i, e);
      free' := free - {e};
      pairs' := pairs[key := e];
      out' := out[i := e];
      fm' := fm - {(out'[i], out'[i + 1])};
      out' := out'[..i + 1] + out'[i + 2..];
      found' := true;
    }
  }

  /** A qualifying pair at i gets the least free code: both invariants hold after the decision. */
  lemma StepSubstitutes(data: seq<byte>, buf: seq<byte>, freq: map<Pair, nat>, thr: nat,
                        free0: set<byte>, pairs0: map<Pair, byte>, book0: CodeBook,
                        i: nat, r: nat, found: bool, out: seq<byte>, free: set<byte>,
                        pairs: map<Pair, byte>, book: CodeBook, fm: map<Pair, nat>)
    requires PassInv(data, buf, freq, thr, free0, pairs0, book0, i, r, found, out, free, pairs, book, fm)
    requires Inv(data, out, free, pairs, book)
    requires i + 1 < |out| && (out[i], out[i + 1]) in fm
    requires fm[(out[i], out[i + 1])] >= thr && (out[i], out[i + 1]) !in pairs && free != {}
    ensures var t := Step(thr, i, ScanState(true, found, out, free, pairs, fm));
            var book' := Allocate(book, MinOf(free), (out[i], out[i + 1]));
            t.ok && PassInv(data, buf, freq, thr, free0, pairs0, book0, i + 1, r + 1, t.found, t.out, t.free, t.pairs, book', t.fm)
            && Inv(data, t.out, t.free, t.pairs, book')
  {
    var e := MinOf(free);
    var key := (out[i], out[i + 1]);
    assert Step(thr, i, ScanState(true, found, out, free, pairs, fm))
           == ScanState(true, true, Substituted(out, i, e), free - {e}, pairs[key := e], fm - {(e, out[i + 1])});
    PassSubstitute(data, buf, freq, thr, free0, pairs0, book0, i, r, found, out, free, pairs, book, fm, e);
    SubstitutionKeepsInv(data, out, free, pairs, book, i, e);
  }

  /** A pair at i that is below the threshold or already coded is left: the state is unchanged. */
  lemma StepSkips(data: seq<byte>, buf: seq<byte>, freq: map<Pair, nat>, thr: nat,
                  free0: set<byte>, pairs0: map<Pair, byte>, book0: CodeBook,
                  i: nat, r: nat, found: bool, out: seq<byte>, free: set<byte>,
                  pairs: map<Pair, byte>, book: CodeBook, fm: map<Pair, nat>)
    requires PassInv(data, buf, freq, thr, free0, pairs0, book0, i, r, found, out, free, pairs, book, fm)
    requires i + 1 < |out| && (out[i], out[i + 1]) in fm
    requires fm[(out[i], out[i + 1])] < thr || (out[i], out[i + 1]) in pairs
    ensures Step(thr, i, ScanState(true, found, out, free, pairs, fm)) == ScanState(true, found, out, free, pairs, fm)
    ensures PassInv(data, buf, freq, thr, free0, pairs0, book0, i + 1, r, found, out, free, pairs, book, fm)
  {
    PassSkip(data, buf, freq, thr, free0, pairs0, book0, i, r, found, out, free, pairs, book, fm);
  }

  /** A qualifying pair at i with no code left to give it: the pass panics, and the buffer outgrew the free set. */
  lemma StepPanics(data: seq<byte>, buf: seq<byte>, freq: map<Pair, nat>, thr: nat,
                   free0: set<byte>, pairs0: map<Pair, byte>, book0: CodeBook,
                   i: nat, r: nat, found: bool, out: seq<byte>, free: set<byte>,
                   pairs: map<Pair, byte>, book: CodeBook, fm: map<Pair, nat>)
    requires PassInv(data, buf, freq, thr, free0, pairs0, book0, i, r, found, out, free, pairs, book, fm)
    requires i + 1 < |out| && (out[i], out[i + 1]) in fm
    requires fm[(out[i], out[i + 1])] >= thr && (out[i], out[i + 1]) !in pairs && free == {}
    ensures !Step(thr, i, ScanState(true, found, out, free, pairs, fm)).ok
    ensures |free0| + 2 <= |buf|
  {
  }

  /**
   * The pass invariant and the compressor invariant carried through the
   * decision at position i; `book'` and `r'` are the ghost code book and the
   * number of substitutions after it. The decision panics only when no code
   * is free, and then the buffer is at least two bytes longer than the free set
   * was when the pass began.
   */
  lemma StepKeepsInv(data: seq<byte>, buf: seq<byte>, freq: map<Pair, nat>, thr: nat,
                     free0: set<byte>, pairs0: map<Pair, byte>, book0: CodeBook,
                     i: nat, r: nat, found: bool, out: seq<byte>, free: set<byte>,
                     pairs: map<Pair, byte>, book: CodeBook, fm: map<Pair, nat>,
                     ok': bool, found': bool, out': seq<byte>, free': set<byte>,
                     pairs': map<Pair, byte>, fm': map<Pair, nat>)
    returns (book': CodeBook, r': nat)
    requires PassInv(data, buf, freq, thr, free0, pairs0, book0, i, r, found, out, free, pairs, book, fm)
    requires Inv(data, out, free, pairs, book)
    requires i + 1 < |out| && (out[i], out[i + 1]) in fm
    requires ScanState(ok', found', out', free', pairs', fm') == Step(thr, i, ScanState(true, found, out, free, pairs, fm))
    ensures ok' ==> PassInv(data, buf, freq, thr, free0, pairs0, book0, i + 1, r', found', out', free', pairs', book', fm')
    ensures ok' ==> Inv(data, out', free', pairs', book')
    ensures !ok' ==> free' == {} && |free0| + 2 <= |buf|
  {
    PassLookup(data, buf, freq, thr, free0, pairs0, book0, i, r, found, out, free, pairs, book, fm);
    var key := (out[i], out[i + 1]);
    if fm[key] >= thr && key !in pairs {
      if free != {} {
        StepSubstitutes(data, buf, freq, thr, free0, pairs0, book0, i, r, found, out, free, pairs, book, fm);
        book', r' := Allocate(book, MinOf(free), key), r + 1;
      } else {
        StepPanics(data, buf, freq, thr, free0, pairs0, book0, i, r, found, out, free, pairs, book, fm);
        book', r' := book, r;
      }
    } else {
      StepSkips(data, buf, freq, thr, free0, pairs0, book0, i, r, found, out, free, pairs, book, fm);
      book', r' := book, r;
    }
  }

  /** One more decision of the scan. */
  lemma ScanUnfold(n: nat, thr: nat, i: nat, s: ScanState)
    requires s.ok && i < n && i + 1 < |s.out|
    ensures Scan(n, thr, i, s) == Scan(n, thr, i + 1, Step(thr, i, s))
  {
  }

  /** The scan has stopped: after a panic, at the end of the range, or at the end of the buffer. */
  lemma ScanHalts(n: nat, thr: nat, i: nat, s: ScanState)
    requires !s.ok || i >= n || i + 1 >= |s.out|
    ensures Scan(n, thr, i, s) == s
  {
  }

  /**
   * The body of the pass's loop at position i, together with its proof: the
   * scan advances by one decision, and the invariants hold after it unless it
   * panicked.
   */
  method PassStep(ghost data: seq<byte>, ghost buf: seq<byte>, ghost freq: map<Pair, nat>, thr: nat,
                  ghost free0: set<byte>, ghost pairs0: map<Pair, byte>, ghost book0: CodeBook,
                  i: nat, ghost r: nat, found: bool, out: seq<byte>, free: set<byte>,
                  pairs: map<Pair, byte>, ghost book: CodeBook, fm: map<Pair, nat>)
    returns (ok': bool, found': bool, out': seq<byte>, free': set<byte>, pairs': map<Pair, byte>,
             fm': map<Pair, nat>, ghost book': CodeBook, ghost r': nat)
    requires PassInv(data, buf, freq, thr, free0, pairs0, book0, i, r, found, out, free, pairs, book, fm)
    requires Inv(data, out, free, pairs, book)
    requires i < |buf| && i + 1 < |out|
    ensures Scan(|buf|, thr, i, ScanState(true, found, out, free, pairs, fm))
            == Scan(|buf|, thr, i + 1, ScanState(ok', found', out', free', pairs', fm'))
    ensures ok' ==> PassInv(data, buf, freq, thr, free0, pairs0, book0, i + 1, r', found', out', free', pairs', book', fm')
    ensures ok' ==> Inv(data, out', free', pairs', book')
    ensures !ok' ==> free' == {} && |free0| + 2 <= |buf|
  {
    ScanUnfold(|buf|, thr, i, ScanState(true, found, out, free, pairs, fm));
    PassLookup(data, buf, freq, thr, free0, pairs0, book0, i, r, found, out, free, pairs, book, fm);
    ok', found', out', free', pairs', fm' := ScanAt(thr, i, found, out, free, pairs, fm);
    book', r' := StepKeepsInv(data, buf, freq, thr, free0, pairs0, book0, i, r, found, out, free, pairs, book, fm,
                              ok', found', out', free', pairs', fm');
  }

  /**
   * One pass of compress's outer loop: the scan `for i in 0..len` over the
   * buffer `buf` as it stood when the pass began, with `freq` its pair counts.
   * `ok` is false where the source would panic because no free code is left.
   */
  method SubstitutionPass(ghost data: seq<byte>, buf: seq<byte>, freq: map<Pair, nat>, thr: nat,
                          free0: set<byte>, pairs0: map<Pair, byte>, ghost book0: CodeBook)
    returns (ok: bool, found: bool, out: seq<byte>, free: set<byte>, pairs: map<Pair, byte>,
             ghost book: CodeBook, ghost fm: map<Pair, nat>)
    requires Inv(data, buf, free0, pairs0, book0)
    requires FreqOf(buf, freq)
    ensures ScanState(ok, found, out, free, pairs, fm) == Scan(|buf|, thr, 0, ScanState(true, false, buf, free0, pairs0, freq))
    ensures !ok ==> free == {} && |free0| + 2 <= |buf|
    ensures ok ==> |out| + |free0| == |buf| + |free|
    ensures ok ==> Inv(data, out, free, pairs, book)
    ensures ok && found ==> |free| < |free0|
    ensures ok && !found ==> out == buf && free == free0 && pairs == pairs0 && book == book0
    ensures ok && !found ==> forall k :: 0 <= k < |buf| - 1 ==>
              Count(buf, (buf[k], buf[k + 1])) < thr || (buf[k], buf[k + 1]) in pairs0
    ensures ok ==> forall p :: p in pairs0 ==> p in pairs && pairs[p] == pairs0[p]
    ensures ok ==> forall p :: p in pairs && p !in pairs0 ==> Adjacent(buf, p) && Count(buf, p) >= thr
    ensures |buf| < 2 ==> ok && !found
  {
    ok, found, out, free, pairs, book := true, false, buf, free0, pairs0, book0;
    var counts := freq;
    ghost var r := 0;
    var i := 0;
    PassStart(data, buf, freq, thr, free0, pairs0, book0);
    while i < |buf|
      invariant PassInv(data, buf, freq, thr, free0, pairs0, book0, i, r, found, out, free, pairs, book, counts)
      invariant Inv(data, out, free, pairs, book)
      invariant Scan(|buf|, thr, 0, ScanState(true, false, buf, free0, pairs0, freq))
                == Scan(|buf|, thr, i, ScanState(true, found, out, free, pairs, counts))
    {
      if i + 1 >= |out| {
        break;
      }
      ok, found, out, free, pairs, counts, book, r :=
        PassStep(data, buf, freq, thr, free0, pairs0, book0, i, r, found, out, free, pairs, book, counts);
      if !ok {
        ScanHalts(|buf|, thr, i + 1, ScanState(ok, found, out, free, pairs, counts));
        fm := counts;
        return;
      }
      i := i + 1;
    }
    ScanHalts(|buf|, thr, i, ScanState(true, found, out, free, pairs, counts));
    PassEnd(data, buf, freq, thr, free0, pairs0, book0, i, r, found, out, free, pairs, book, counts);
    fm := counts;
  }

  // ---------------------------------------------------------------------------
  // compress: the outer loop

  /** The counts `frequency_map` holds for s: every adjacent pair with its number of occurrences. */
  ghost function PairCounts(s: seq<byte>): map<Pair, nat>
  {
    map a: byte, b: byte | 0 <= a < 256 && 0 <= b < 256 && Count(s, (a, b)) > 0 :: (a, b) := Count(s, (a, b))
  }

  /** A pair is in PairCounts(s) exactly when it occurs, and maps to its count. */
  lemma PairCountsAt(s: seq<byte>, p: Pair)
    ensures p in PairCounts(s) <==> Count(s, p) > 0
    ensures p in PairCounts(s) ==> PairCounts(s)[p] == Count(s, p)
  {
    var (a, b) := p;
    assert p == (a, b);
  }

  /** The counting loop computes exactly those counts. */
  lemma FreqIsPairCounts(s: seq<byte>, fm: map<Pair, nat>)
    requires FreqOf(s, fm)
    ensures fm == PairCounts(s)
  {
    var pc := PairCounts(s);
    forall p: Pair
      ensures p in fm <==> p in pc
      ensures p in fm ==> fm[p] == pc[p]
    {
      PairCountsAt(s, p);
    }
  }

  /**
   * The outer loop of compress from a buffer, its free codes and its pair
   * table: one pass on the buffer with its fresh counts, repeated until a
   * pass substitutes nothing. `ok` is false where a pass panics.
   */
  ghost function Rounds(thr: nat, buf: seq<byte>, free: set<byte>, pairs: map<Pair, byte>): ScanState
    decreases |free|
  {
    var s := Scan(|buf|, thr, 0, ScanState(true, false, buf, free, pairs, PairCounts(buf)));
    ScanFree(|buf|, thr, 0, ScanState(true, false, buf, free, pairs, PairCounts(buf)));
    if !s.ok || !s.found then s else Rounds(thr, s.out, s.free, s.pairs)
  }

  /**
   * The loop ends on a pass that substitutes nothing, only uses up free
   * codes, and spends exactly one code per byte it removes from the buffer.
   */
  lemma {:induction false} RoundsSettle(thr: nat, buf: seq<byte>, free: set<byte>, pairs: map<Pair, byte>)
    ensures Rounds(thr, buf, free, pairs).free <= free
    ensures Rounds(thr, buf, free, pairs).ok ==> !Rounds(thr, buf, free, pairs).found
    ensures Rounds(thr, buf, free, pairs).ok ==>
              |Rounds(thr, buf, free, pairs).out| + |free| == |buf| + |Rounds(thr, buf, free, pairs).free|
    decreases |free|
  {
    var s := Scan(|buf|, thr, 0, ScanState(true, false, buf, free, pairs, PairCounts(buf)));
    ScanFree(|buf|, thr, 0, ScanState(true, false, buf, free, pairs, PairCounts(buf)));
    if s.ok && s.found {
      RoundsSettle(thr, s.out, s.free, s.pairs);
    }
  }

  /** The pair counts of [1, 2, 3, 1, 2, 3]: (1, 2) and (2, 3) twice, (3, 1) once. */
  lemma ExampleCounts(data: seq<byte>)
    requires data == [1, 2, 3, 1, 2, 3]
    ensures PairCounts(data) == ExampleFreq()
  {
    var d1: seq<byte>, d2: seq<byte>, d3: seq<byte>, d4: seq<byte>, d5: seq<byte> := [1], [1, 2], [1, 2, 3], [1, 2, 3, 1], [1, 2, 3, 1, 2];
    assert data[..5] == d5 && d5[..4] == d4 && d4[..3] == d3 && d3[..2] == d2 && d2[..1] == d1;
    var fm := ExampleFreq();
    forall p: Pair
      ensures Count(data, p) == (if p == (1, 2) || p == (2, 3) then 2 else if p == (3, 1) then 1 else 0)
    {
      assert Count(d2, p) == (if p == (1, 2) then 1 else 0);
      assert Count(d3, p) == Count(d2, p) + (if p == (2, 3) then 1 else 0);
      assert Count(d4, p) == Count(d3, p) + (if p == (3, 1) then 1 else 0);
      assert Count(d5, p) == Count(d4, p) + (if p == (1, 2) then 1 else 0);
      assert Count(data, p) == Count(d5, p) + (if p == (2, 3) then 1 else 0);
    }
    assert FreqOf(data, fm);
    FreqIsPairCounts(data, fm);
  }

  /** The free codes of [1, 2, 3, 1, 2, 3]: 0 is handed out first, then 4. */
  lemma ExampleCodes(data: seq<byte>)
    requires data == [1, 2, 3, 1, 2, 3]
    ensures 0 in Unused(data) && 4 in Unused(data) - {0}
    ensures MinOf(Unused(data)) == 0 && MinOf(Unused(data) - {0}) == 4
  {
    var u := Unused(data);
    assert 0 in u;
    var u1 := u - {0};
    assert 4 in u1;
    forall x | x in u1
      ensures 4 <= x
    {
      assert x !in data;
    }
  }

  /** The example's counts, as a map literal. */
  function ExampleFreq(): map<Pair, nat>
  {
    map[(1, 2) := 2, (2, 3) := 2, (3, 1) := 1]
  }

  /** The example's first decision: (1, 2) at 0 reaches the threshold and gets code 0. */
  lemma ExampleFirst(data: seq<byte>, u: set<byte>)
    requires data == [1, 2, 3, 1, 2, 3] && 0 in u && MinOf(u) == 0
    ensures Step(2, 0, ScanState(true, false, data, u, map[], ExampleFreq()))
            == ScanState(true, true, [0, 3, 1, 2, 3], u - {0}, map[(1, 2) := 0], ExampleFreq() - {(0, 2)})
  {
    assert Substituted(data, 0, 0) == [0, 3, 1, 2, 3];
  }

  /** The example's middle decisions: (3, 1) is below the threshold, and (1, 2) already has a code. */
  lemma ExampleSkips(s: ScanState)
    requires s.out == [0, 3, 1, 2, 3] && s.pairs == map[(1, 2) := 0] && s.fm == ExampleFreq() - {(0, 2)}
    ensures Step(2, 1, s) == s && Step(2, 2, s) == s
  {
  }

  /** The example's last decision: (2, 3) at 3 reaches the threshold and gets code 4. */
  lemma ExampleLast(s: ScanState)
    requires s.out == [0, 3, 1, 2, 3] && s.pairs == map[(1, 2) := 0] && s.fm == ExampleFreq() - {(0, 2)}
    requires 4 in s.free && MinOf(s.free) == 4
    ensures Step(2, 3, s) == s.(found := true, out := [0, 3, 1, 4], free := s.free - {4},
                                pairs := map[(1, 2) := 0, (2, 3) := 4], fm := s.fm - {(4, 3)})
  {
    assert Substituted(s.out, 3, 4) == [0, 3, 1, 4];
    assert s.pairs[(2, 3) := 4] == map[(1, 2) := 0, (2, 3) := 4];
  }

  /**
   * A pass over [1, 2, 3, 1, 2, 3] with threshold 2: (1, 2) gets the least
   * free code 0; (3, 1) is below the threshold; the second (1, 2) already has
   * a code and is left; (2, 3) gets the next free code 4; and the scan ends at
   * the shortened buffer's end.
   */
  lemma ScanExample(data: seq<byte>)
    requires data == [1, 2, 3, 1, 2, 3]
    ensures var s := Scan(6, 2, 0, ScanState(true, false, data, Unused(data), map[], PairCounts(data)));
            s.ok && s.found && s.out == [0, 3, 1, 4] && s.pairs == map[(1, 2) := 0, (2, 3) := 4]
  {
    ExampleCounts(data);
    ExampleCodes(data);
    var u := Unused(data);
    var s0 := ScanState(true, false, data, u, map[], ExampleFreq());
    var s1 := ScanState(true, true, [0, 3, 1, 2, 3], u - {0}, map[(1, 2) := 0], ExampleFreq() - {(0, 2)});
    ExampleFirst(data, u);
    ExampleSkips(s1);
    ExampleLast(s1);
    var s4 := Step(2, 3, s1);
    ScanUnfold(6, 2, 0, s0);
    ScanUnfold(6, 2, 1, s1);
    ScanUnfold(6, 2, 2, s1);
    ScanUnfold(6, 2, 3, s1);
    ScanHalts(6, 2, 4, s4);
  }

  /** `table` is `pairs` turned around. */
  ghost predicate Inverse(pairs: map<Pair, byte>, table: map<byte, Pair>)
  {
    && (forall p :: p in pairs ==> pairs[p] in table && table[pairs[p]] == p)
    && (forall c :: c in table ==> table[c] in pairs && pairs[table[c]] == c)
  }

  /** The pair table turned around, code first, as compress returns it. */
  function Invert(pairs: map<Pair, byte>): (codes: map<byte, Pair>)
    requires forall p, q :: p in pairs && q in pairs && pairs[p] == pairs[q] ==> p == q
    ensures forall p :: p in pairs ==> pairs[p] in codes && codes[pairs[p]] == p
    ensures forall c :: c in codes ==> codes[c] in pairs && pairs[codes[c]] == c
  {
    map p | p in pairs :: pairs[p] := p
  }

  /** Before any substitution: no codes, every byte absent from the input is free. */
  lemma InitInv(data: seq<byte>, free: set<byte>)
    requires forall x: byte :: x in free <==> x !in data
    ensures Inv(data, data, free, map[], CodeBook(map[], map[], 0))
  {
    ExpandAllPlain(map[], map[], data);
  }

  /** The table compress returns is the code book the invariant speaks of. */
  lemma InvertIsCodes(data: seq<byte>, free: set<byte>, pairs: map<Pair, byte>, book: CodeBook)
    requires TablesInv(data, free, pairs, book)
    ensures forall p, q :: p in pairs && q in pairs && pairs[p] == pairs[q] ==> p == q
    ensures Invert(pairs) == book.codes
  {
    var codes := Invert(pairs);
    assert forall c :: c in codes <==> c in book.codes;
    assert forall c :: c in codes ==> codes[c] == book.codes[c];
  }

  /** No code is a byte value of the input. */
  ghost predicate FreshCodes(table: map<byte, Pair>, data: seq<byte>)
  {
    forall c :: c in table ==> c !in data
  }

  /** Codes are taken smallest first: every code is below every byte value that is neither a code nor an input byte. */
  ghost predicate SmallestFirst(table: map<byte, Pair>, data: seq<byte>)
  {
    forall c, x: byte :: c in table && x !in table && x !in data ==> c < x
  }

  /** No two codes stand for the same pair. */
  ghost predicate DistinctPairs(table: map<byte, Pair>)
  {
    forall c, d :: c in table && d in table && c != d ==> table[c] != table[d]
  }

  /** Every adjacent pair of buf whose count reaches thr has a code in the table. */
  ghost predicate Saturated(buf: seq<byte>, table: map<byte, Pair>, thr: nat)
  {
    forall k :: 0 <= k < |buf| - 1 ==> Count(buf, (buf[k], buf[k + 1])) < thr || (buf[k], buf[k + 1]) in table.Values
  }

  /** Codes are handed out smallest first: every code is below every byte value still free. */
  lemma CodesSmallestFirst(data: seq<byte>, free: set<byte>, pairs: map<Pair, byte>, book: CodeBook)
    requires TablesInv(data, free, pairs, book)
    requires forall p, q :: p in pairs && q in pairs && pairs[p] == pairs[q] ==> p == q
    ensures SmallestFirst(Invert(pairs), data)
  {
    InvertIsCodes(data, free, pairs, book);
    var t := Invert(pairs);
    forall c, x: byte | c in t && x !in t && x !in data
      ensures c < x
    {
      assert x in free;
    }
  }

  /** A pair that reaches the threshold in the final buffer has a code in the table. */
  lemma FixpointInTable(buf: seq<byte>, pairs: map<Pair, byte>, thr: nat)
    requires forall p, q :: p in pairs && q in pairs && pairs[p] == pairs[q] ==> p == q
    requires forall k :: 0 <= k < |buf| - 1 ==> Count(buf, (buf[k], buf[k + 1])) < thr || (buf[k], buf[k + 1]) in pairs
    ensures Saturated(buf, Invert(pairs), thr)
  {
    var t := Invert(pairs);
    forall k | 0 <= k < |buf| - 1 && Count(buf, (buf[k], buf[k + 1])) >= thr
      ensures (buf[k], buf[k + 1]) in t.Values
    {
      var p := (buf[k], buf[k + 1]);
      assert t[pairs[p]] == p;
    }
  }

  /** What compress promises of its result, read off the invariant once a pass substitutes nothing. */
  lemma CompressOutcome(data: seq<byte>, buf: seq<byte>, free: set<byte>, pairs: map<Pair, byte>, book: CodeBook, thr: nat)
    requires Inv(data, buf, free, pairs, book)
    requires forall p, q :: p in pairs && q in pairs && pairs[p] == pairs[q] ==> p == q
    requires forall k :: 0 <= k < |buf| - 1 ==> Count(buf, (buf[k], buf[k + 1])) < thr || (buf[k], buf[k + 1]) in pairs
    ensures Ranked(Invert(pairs), book.level) && ExpandAll(Invert(pairs), book.level, buf) == data
    ensures FreshCodes(Invert(pairs), data)
    ensures SmallestFirst(Invert(pairs), data)
    ensures DistinctPairs(Invert(pairs))
    ensures |buf| + |Invert(pairs)| == |data|
    ensures Saturated(buf, Invert(pairs), thr)
  {
    InvertIsCodes(data, free, pairs, book);
    CodesSmallestFirst(data, free, pairs, book);
    FixpointInTable(buf, pairs, thr);
  }

  /** The byte values that do not occur in data. */
  ghost function Unused(data: seq<byte>): set<byte>
  {
    set x: byte | 0 <= x < 256 && x !in data
  }

  /** The `BTreeSet` of free byte values: all 256, less those the input uses; at most |data| are taken. */
  method FreeSlots(data: seq<byte>) returns (free: set<byte>)
    ensures forall x: byte :: x in free <==> x !in data
    ensures free == Unused(data)
    ensures |free| + |data| >= 256
  {
    free := {};
    for b := 0 to 256
      invariant forall x: byte :: x in free <==> x < b
      invariant |free| == b
    {
      assert b as byte !in free;
      free := free + {b as byte};
    }
    for k := 0 to |data|
      invariant forall x: byte :: x in free <==> x !in data[..k]
      invariant |free| + k >= 256
    {
      assert data[..k + 1] == data[..k] + [data[k]];
      if data[k] in free {
        assert free == (free - {data[k]}) + {data[k]};
        free := free - {data[k]};
      }
    }
    assert data[..|data|] == data;
    assert forall x: byte :: x in free <==> x in Unused(data);
  }

  /** A round that substitutes something hands its result on to the next round; any other round ends the loop. */
  lemma RoundsStep(thr: nat, buf: seq<byte>, free: set<byte>, pairs: map<Pair, byte>, s: ScanState)
    requires s == Scan(|buf|, thr, 0, ScanState(true, false, buf, free, pairs, PairCounts(buf)))
    ensures s.ok && s.found ==> Rounds(thr, buf, free, pairs) == Rounds(thr, s.out, s.free, s.pairs)
    ensures !s.ok || !s.found ==> Rounds(thr, buf, free, pairs) == s
  {
  }

  /**
   * One round of compress's outer loop: a substitution pass with the counts
   * of the buffer, then the recount. `ok` is false where the pass panics.
   */
  method CompressRound(ghost data: seq<byte>, ghost free0: set<byte>, thr: nat, buf: seq<byte>, freq: map<Pair, nat>,
                       free: set<byte>, pairs: map<Pair, byte>, ghost book: CodeBook)
    returns (ok: bool, found: bool, buf': seq<byte>, freq': map<Pair, nat>, free': set<byte>,
             pairs': map<Pair, byte>, ghost book': CodeBook)
    requires Inv(data, buf, free, pairs, book) && FreqOf(buf, freq)
    requires |buf| + |free0| == |data| + |free|
    ensures !ok ==> !Rounds(thr, buf, free, pairs).ok && |free0| + 2 <= |data|
    ensures ok ==> Inv(data, buf', free', pairs', book') && FreqOf(buf', freq')
    ensures ok ==> |buf'| + |free0| == |data| + |free'|
    ensures ok && found ==> |free'| < |free|
    ensures ok && found ==> Rounds(thr, buf, free, pairs) == Rounds(thr, buf', free', pairs')
    ensures ok && !found ==> buf' == buf && free' == free && pairs' == pairs && book' == book
    ensures ok && !found ==> Rounds(thr, buf, free, pairs).ok && Rounds(thr, buf, free, pairs).out == buf
                             && Rounds(thr, buf, free, pairs).pairs == pairs
    ensures ok && !found ==> forall k :: 0 <= k < |buf| - 1 ==>
              Count(buf, (buf[k], buf[k + 1])) < thr || (buf[k], buf[k + 1]) in pairs
    ensures |buf| < 2 ==> ok && !found
  {
    FreqIsPairCounts(buf, freq);
    ghost var fm;
    ok, found, buf', free', pairs', book', fm := SubstitutionPass(data, buf, freq, thr, free, pairs, book);
    RoundsStep(thr, buf, free, pairs, ScanState(ok, found, buf', free', pairs', fm));
    if ok {
      freq' := FrequencyMap(buf');
    } else {
      freq' := freq;
    }
  }

  /**
   * The outer loop of compress, from the input, its unused byte values and
   * the threshold: rounds until one substitutes nothing, or until one runs
   * out of codes (`ok` false).
   */
  method CompressLoop(data: seq<byte>, thr: nat, free0: set<byte>)
    returns (ok: bool, compressed: seq<byte>, free: set<byte>, pairs: map<Pair, byte>, ghost book: CodeBook)
    requires forall x: byte :: x in free0 <==> x !in data
    ensures ok == Rounds(thr, data, free0, map[]).ok
    ensures !ok ==> |free0| + 2 <= |data|
    ensures ok ==> compressed == Rounds(thr, data, free0, map[]).out && pairs == Rounds(thr, data, free0, map[]).pairs
    ensures ok ==> Inv(data, compressed, free, pairs, book)
    ensures ok ==> forall k :: 0 <= k < |compressed| - 1 ==>
              Count(compressed, (compressed[k], compressed[k + 1])) < thr || (compressed[k], compressed[k + 1]) in pairs
    ensures |data| < 2 ==> ok && compressed == data && pairs == map[]
  {
    free := free0;
    var freq := FrequencyMap(data);
    compressed := data;
    pairs := map[];
    book := CodeBook(map[], map[], 0);
    InitInv(data, free);
    while true
      invariant Inv(data, compressed, free, pairs, book)
      invariant FreqOf(compressed, freq)
      invariant |data| < 2 ==> compressed == data && pairs == map[]
      invariant |compressed| + |free0| == |data| + |free|
      invariant Rounds(thr, data, free0, map[]) == Rounds(thr, compressed, free, pairs)
      decreases |free|
    {
      var found, nbuf, nfreq, nfree, npairs;
      ghost var nbook;
      ok, found, nbuf, nfreq, nfree, npairs, nbook := CompressRound(data, free0, thr, compressed, freq, free, pairs, book);
      if !ok {
        assert !Rounds(thr, data, free0, map[]).ok && |free0| + 2 <= |data|;
        return;
      }
      if !found {
        assert Rounds(thr, data, free0, map[]).ok && Rounds(thr, data, free0, map[]).out == compressed;
        break;
      }
      compressed, freq, free, pairs, book := nbuf, nfreq, nfree, npairs, nbook;
    }
  }

  /**
   * Byte-pair compression: pass after pass, scan the buffer from the left and
   * substitute the least free byte value for the pair at the scan position
   * when its count at the start of the pass reaches `max_freq as u32` and it
   * has no code yet; recount after each pass, until a pass substitutes
   * nothing. The result is `OutOfCodes` where the source would panic because
   * every byte value is taken. `level` is a ghost witness that the returned
   * table is acyclic, which Decompress needs.
   */
  method Compress(data: seq<byte>, maxFreq: int8) returns (res: CompressResult, ghost level: map<byte, nat>)
    ensures res.Compressed? == Rounds(Threshold(maxFreq), data, Unused(data), map[]).ok
    ensures res.Compressed? ==> res.data == Rounds(Threshold(maxFreq), data, Unused(data), map[]).out
    ensures res.Compressed? ==> Inverse(Rounds(Threshold(maxFreq), data, Unused(data), map[]).pairs, res.table)
    ensures |data| <= |Unused(data)| + 1 ==> res.Compressed?
    ensures |data| <= 128 ==> res.Compressed?
    ensures res.Compressed? ==> Ranked(res.table, level) && ExpandAll(res.table, level, res.data) == data
    ensures res.Compressed? ==> FreshCodes(res.table, data)
    ensures res.Compressed? ==> SmallestFirst(res.table, data)
    ensures res.Compressed? ==> DistinctPairs(res.table)
    ensures res.Compressed? ==> |res.data| + |res.table| == |data|
    ensures res.Compressed? ==> Saturated(res.data, res.table, Threshold(maxFreq))
    ensures |data| < 2 ==> res == Compressed(data, map[])
  {
    var free := FreeSlots(data);
    var ok, compressed, rest, pairs;
    ghost var book;
    ok, compressed, rest, pairs, book := CompressLoop(data, Threshold(maxFreq), free);
    if !ok {
      assert |Unused(data)| + 2 <= |data| && |data| > 128;
      res, level := OutOfCodes, map[];
      return;
    }
    InvertIsCodes(data, rest, pairs, book);
    CompressOutcome(data, compressed, rest, pairs, book, Threshold(maxFreq));
    res, level := Compressed(compressed, Invert(pairs)), book.level;
  }

  /** Compressing and then decompressing gives the input back whenever compression succeeds. */
  method CompressDecompress(data: seq<byte>, maxFreq: int8) returns (ok: bool, restored: seq<byte>)
    ensures ok ==> restored == data
    ensures ok == Rounds(Threshold(maxFreq), data, Unused(data), map[]).ok
    ensures |data| <= |Unused(data)| + 1 ==> ok
    ensures |data| <= 128 ==> ok
  {
    var res;
    ghost var level;
    res, level := Compress(data, maxFreq);
    if res.OutOfCodes? {
      return false, [];
    }
    restored := Decompress(res.data, res.table, level);
    ok := true;
  }
}
