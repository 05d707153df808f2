/**
 * The merge engine of the byte-pair encoder (`get_rank`, `merge`,
 * `pair_encode`, `pair_split`). A byte string is cut into spans, one byte
 * each to begin with; then, as long as two adjacent spans concatenate to a
 * token of `ranks`, the leftmost pair with the lowest rank is joined.
 */
module BpeMerge {
  import opened Pairs
  import BpeTrain

  /** `u32::MAX`, which the source uses both as a rank value and as "no rank". */
  const U32_MAX: nat := 0xFFFF_FFFF

  datatype Option<T> = None | Some(value: T)

  /** A rank as the source compares it; `Max` is `u32::MAX`. */
  datatype Rank = Finite(value: nat) | Max

  /** `a < b` on `u32` ranks. */
  predicate Less(a: Rank, b: Rank)
  {
    a.Finite? && (b.Max? || a.value < b.value)
  }

  /** A rank read from `ranks`: a stored `u32::MAX` is indistinguishable from a missing key. */
  function AsRank(v: nat): (r: Rank)
    ensures r.Finite? <==> v < U32_MAX
    ensures r.Finite? ==> r.value == v
  {
    if v < U32_MAX then Finite(v) else Max
  }

  /** `ranks.get(key)`, with `Max` for a missing key. */
  function Lookup(ranks: map<seq<byte>, nat>, key: seq<byte>): Rank
  {
    if key in ranks then AsRank(ranks[key]) else Max
  }

  /** On `u32` values, `Less` of the ranks is `<` of the values, and only `u32::MAX` itself becomes `Max`. */
  lemma RankOrder(a: nat, b: nat)
    requires a <= U32_MAX && b <= U32_MAX
    ensures Less(AsRank(a), AsRank(b)) <==> a < b
    ensures AsRank(a) == Max <==> a == U32_MAX
  {
  }

  // ---------------------------------------------------------------------------
  // Boundaries and the reference algorithm

  /** Offsets that cut data of length n into non-empty spans: from 0 to n, strictly increasing. */
  ghost predicate Bounds(b: seq<nat>, n: nat)
  {
    && |b| >= 2 && b[0] == 0 && b[|b| - 1] == n
    && (forall j :: 0 <= j < |b| - 1 ==> b[j] < b[j + 1])
    && (forall j :: 0 <= j < |b| ==> b[j] <= n)
  }

  /** The rank of joining spans j and j + 1, or `Max` when there is no span j + 1. */
  ghost function PairRank(ranks: map<seq<byte>, nat>, data: seq<byte>, b: seq<nat>, j: nat): Rank
  {
    if j + 2 < |b| && b[j] <= b[j + 2] <= |data| then Lookup(ranks, data[b[j]..b[j + 2]]) else Max
  }

  /** Offsets of a cut are ordered. */
  lemma {:induction false} Ordered(b: seq<nat>, n: nat, j: nat, k: nat)
    requires Bounds(b, n) && j <= k < |b|
    ensures b[j] <= b[k] <= n
    decreases k - j
  {
    if j < k {
      Ordered(b, n, j + 1, k);
    }
  }

  /** The ranks the scan for the minimum looks at: one for every boundary but the last. */
  ghost function RankSeq(ranks: map<seq<byte>, nat>, data: seq<byte>, b: seq<nat>): seq<Rank>
    requires Bounds(b, |data|)
  {
    seq(|b| - 1, j requires 0 <= j < |b| - 1 => PairRank(ranks, data, b, j))
  }

  /** The scan `if r < min.0 { min = (r, j) }` from the left, starting at `(Max, 0)`. */
  function Leftmost(rs: seq<Rank>): (Rank, nat)
  {
    if rs == [] then (Max, 0)
    else
      var m := Leftmost(rs[..|rs| - 1]);
      if Less(rs[|rs| - 1], m.0) then (rs[|rs| - 1], |rs| - 1) else m
  }

  /**
   * The scan as the source writes it, on raw `u32` values: start from
   * `u32::MAX` and keep a value only when it is strictly below the current
   * minimum. (The source starts the position at `usize::MAX`; it is never
   * read while the minimum is `u32::MAX`, so 0 stands in for it.)
   */
  function RawMin(vs: seq<nat>): (nat, nat)
  {
    if vs == [] then (U32_MAX, 0)
    else
      var m := RawMin(vs[..|vs| - 1]);
      if vs[|vs| - 1] < m.0 then (vs[|vs| - 1], |vs| - 1) else m
  }

  /** Raw `u32` values read as ranks. */
  function AsRanks(vs: seq<nat>): (rs: seq<Rank>)
    ensures |rs| == |vs|
    ensures forall k :: 0 <= k < |vs| ==> rs[k] == AsRank(vs[k])
  {
    seq(|vs|, k requires 0 <= k < |vs| => AsRank(vs[k]))
  }

  /**
   * Scanning ranks with `Less` finds what the raw scan with `<` finds: the
   * same position, and `Max` exactly where the raw minimum is `u32::MAX`.
   */
  lemma {:induction false} RawMinIsLeftmost(vs: seq<nat>)
    requires forall k :: 0 <= k < |vs| ==> vs[k] <= U32_MAX
    ensures RawMin(vs).0 <= U32_MAX
    ensures Leftmost(AsRanks(vs)) == (AsRank(RawMin(vs).0), RawMin(vs).1)
  {
    if vs != [] {
      var init := vs[..|vs| - 1];
      RawMinIsLeftmost(init);
      assert AsRanks(vs)[..|vs| - 1] == AsRanks(init);
      RankOrder(vs[|vs| - 1], RawMin(init).0);
    }
  }

  /**
   * The scan finds Max exactly when every rank is Max, and otherwise the
   * position of a minimum that every earlier rank exceeds: the leftmost one.
   */
  lemma {:induction false} LeftmostSpec(rs: seq<Rank>)
    ensures Leftmost(rs).0 == Max <==> forall k :: 0 <= k < |rs| ==> rs[k] == Max
    ensures Leftmost(rs).0 != Max ==>
              && Leftmost(rs).1 < |rs| && rs[Leftmost(rs).1] == Leftmost(rs).0
              && (forall k :: 0 <= k < |rs| ==> !Less(rs[k], Leftmost(rs).0))
              && (forall k :: 0 <= k < Leftmost(rs).1 ==> Less(Leftmost(rs).0, rs[k]))
  {
    if rs != [] {
      var init := rs[..|rs| - 1];
      LeftmostSpec(init);
      assert forall k :: 0 <= k < |init| ==> init[k] == rs[k];
    }
  }

  /** Boundaries minus the one at k (`parts.remove(k)`). */
  function Remove<T>(b: seq<T>, k: nat): seq<T>
    requires k < |b|
  {
    b[..k] + b[k + 1..]
  }

  /** `Vec::remove(k)`: one element shorter, elements before k kept, elements after k shifted down by one. */
  lemma RemoveAt<T>(b: seq<T>, k: nat)
    requires k < |b|
    ensures |Remove(b, k)| == |b| - 1
    ensures forall j :: 0 <= j < |b| - 1 ==> Remove(b, k)[j] == if j < k then b[j] else b[j + 1]
  {
  }

  /** Dropping an inner boundary joins two spans and keeps a cut. */
  lemma RemoveBounds(b: seq<nat>, n: nat, k: nat)
    requires Bounds(b, n) && 0 < k < |b| - 1
    ensures Bounds(Remove(b, k), n)
  {
    var r := Remove(b, k);
    assert r[k - 1] == b[k - 1] && r[k] == b[k + 1];
    forall j | 0 <= j < |r| - 1
      ensures r[j] < r[j + 1]
    {
      if j + 1 < k {
        assert r[j] == b[j] && r[j + 1] == b[j + 1];
      } else if j >= k {
        assert r[j] == b[j + 1] && r[j + 1] == b[j + 2];
      } else {
        assert b[k - 1] < b[k] < b[k + 1];
      }
    }
    forall j | 0 <= j < |r|
      ensures r[j] <= n
    {
      assert r[j] == if j < k then b[j] else b[j + 1];
    }
  }

  /** A finite rank only occurs where there is a span j + 1 to join with. */
  lemma FiniteRankInside(ranks: map<seq<byte>, nat>, data: seq<byte>, b: seq<nat>, j: nat)
    requires Bounds(b, |data|) && j < |b| - 1
    requires RankSeq(ranks, data, b)[j] != Max
    ensures j + 2 < |b|
  {
  }

  /** The merge without a rank cache: join the leftmost lowest-rank pair, recompute every rank, repeat. */
  ghost function MergeSpec(ranks: map<seq<byte>, nat>, data: seq<byte>, b: seq<nat>): seq<nat>
    requires Bounds(b, |data|)
    decreases |b|
  {
    var m := Leftmost(RankSeq(ranks, data, b));
    if m.0 == Max then b
    else
      LeftmostSpec(RankSeq(ranks, data, b));
      FiniteRankInside(ranks, data, b, m.1);
      RemoveBounds(b, |data|, m.1 + 1);
      MergeSpec(ranks, data, Remove(b, m.1 + 1))
  }

  /** Every span is a single byte or a token with a rank. */
  ghost predicate Tokens(ranks: map<seq<byte>, nat>, data: seq<byte>, b: seq<nat>)
    requires Bounds(b, |data|)
  {
    forall j :: 0 <= j < |b| - 1 ==> b[j] + 1 == b[j + 1] || Lookup(ranks, data[b[j]..b[j + 1]]).Finite?
  }

  /** The reference merge only drops boundaries, and what it returns still cuts the data. */
  lemma {:induction false} MergeSpecCut(ranks: map<seq<byte>, nat>, data: seq<byte>, b: seq<nat>)
    requires Bounds(b, |data|)
    ensures Bounds(MergeSpec(ranks, data, b), |data|)
    ensures |MergeSpec(ranks, data, b)| <= |b|
    ensures forall x :: x in MergeSpec(ranks, data, b) ==> x in b
    decreases |b|
  {
    var m := Leftmost(RankSeq(ranks, data, b));
    if m.0 != Max {
      LeftmostSpec(RankSeq(ranks, data, b));
      FiniteRankInside(ranks, data, b, m.1);
      RemoveBounds(b, |data|, m.1 + 1);
      var c := Remove(b, m.1 + 1);
      MergeSpecCut(ranks, data, c);
      assert MergeSpec(ranks, data, b) == MergeSpec(ranks, data, c);
      forall x | x in c
        ensures x in b
      {
        if x in b[..m.1 + 1] {
          assert b[..m.1 + 1] <= b;
        } else {
          assert x in b[m.1 + 2..];
        }
      }
    }
  }

  /** When the reference merge stops, no two adjacent spans join into a ranked token. */
  lemma {:induction false} MergeSpecStops(ranks: map<seq<byte>, nat>, data: seq<byte>, b: seq<nat>)
    requires Bounds(b, |data|)
    ensures Bounds(MergeSpec(ranks, data, b), |data|)
    ensures forall j :: 0 <= j < |MergeSpec(ranks, data, b)| ==> PairRank(ranks, data, MergeSpec(ranks, data, b), j) == Max
    decreases |b|
  {
    MergeSpecCut(ranks, data, b);
    var rs := RankSeq(ranks, data, b);
    var m := Leftmost(rs);
    LeftmostSpec(rs);
    if m.0 != Max {
      FiniteRankInside(ranks, data, b, m.1);
      RemoveBounds(b, |data|, m.1 + 1);
      MergeSpecStops(ranks, data, Remove(b, m.1 + 1));
    } else {
      forall j | 0 <= j < |b| - 1
        ensures PairRank(ranks, data, b, j) == Max
      {
        assert rs[j] == Max;
      }
    }
  }

  /** Joining two spans whose pair has a rank keeps every span a single byte or a ranked token. */
  lemma JoinTokens(ranks: map<seq<byte>, nat>, data: seq<byte>, b: seq<nat>, k: nat)
    requires Bounds(b, |data|) && Tokens(ranks, data, b) && 0 < k < |b| - 1
    requires PairRank(ranks, data, b, k - 1) != Max
    ensures Bounds(Remove(b, k), |data|)
    ensures Tokens(ranks, data, Remove(b, k))
  {
    RemoveBounds(b, |data|, k);
    var c := Remove(b, k);
    forall j | 0 <= j < |c| - 1
      ensures c[j] + 1 == c[j + 1] || Lookup(ranks, data[c[j]..c[j + 1]]).Finite?
    {
      if j + 1 < k {
        assert c[j] == b[j] && c[j + 1] == b[j + 1];
      } else if j + 1 == k {
        assert c[j] == b[j] && c[j + 1] == b[j + 2];
      } else {
        assert c[j] == b[j + 1] && c[j + 1] == b[j + 2];
      }
    }
  }

  /** Joining only ever forms ranked tokens: spans that start out as tokens stay tokens. */
  lemma {:induction false} MergeSpecTokens(ranks: map<seq<byte>, nat>, data: seq<byte>, b: seq<nat>)
    requires Bounds(b, |data|) && Tokens(ranks, data, b)
    ensures Bounds(MergeSpec(ranks, data, b), |data|)
    ensures Tokens(ranks, data, MergeSpec(ranks, data, b))
    decreases |b|
  {
    MergeSpecCut(ranks, data, b);
    var rs := RankSeq(ranks, data, b);
    var m := Leftmost(rs);
    if m.0 != Max {
      LeftmostSpec(rs);
      FiniteRankInside(ranks, data, b, m.1);
      assert rs[m.1] == PairRank(ranks, data, b, m.1);
      JoinTokens(ranks, data, b, m.1 + 1);
      MergeSpecTokens(ranks, data, Remove(b, m.1 + 1));
    }
  }

  /** At the start every span is one byte. */
  lemma SingletonsTokens(ranks: map<seq<byte>, nat>, data: seq<byte>)
    requires |data| >= 1
    ensures Bounds(Singletons(|data|), |data|)
    ensures Tokens(ranks, data, Singletons(|data|))
  {
  }

  // ---------------------------------------------------------------------------
  // Spans

  /** The spans a cut makes: `windows(2)` over the boundaries, each giving the slice from one to the next. */
  function Spans(data: seq<byte>, b: seq<nat>): seq<seq<byte>>
    requires Bounds(b, |data|)
  {
    seq(|b| - 1, j requires 0 <= j < |b| - 1 => data[b[j]..b[j + 1]])
  }

  /** Concatenation of byte strings. */
  function Concat(ss: seq<seq<byte>>): seq<byte>
  {
    if ss == [] then [] else Concat(ss[..|ss| - 1]) + ss[|ss| - 1]
  }

  /** The first k spans concatenate to the data up to boundary k. */
  lemma {:induction false} ConcatPrefix(data: seq<byte>, b: seq<nat>, k: nat)
    requires Bounds(b, |data|) && k < |b|
    ensures Concat(Spans(data, b)[..k]) == data[..b[k]]
  {
    if k > 0 {
      var ss := Spans(data, b);
      ConcatPrefix(data, b, k - 1);
      assert ss[..k][..k - 1] == ss[..k - 1];
      assert data[..b[k - 1]] + data[b[k - 1]..b[k]] == data[..b[k]];
    }
  }

  /** The spans of a cut concatenate back to the data. */
  lemma SpansConcat(data: seq<byte>, b: seq<nat>)
    requires Bounds(b, |data|)
    ensures Concat(Spans(data, b)) == data
  {
    ConcatPrefix(data, b, |b| - 1);
    assert Spans(data, b)[..|b| - 1] == Spans(data, b);
  }

  // ---------------------------------------------------------------------------
  // The rank-cached merge

  /** The offsets of `parts`, one per boundary. */
  function Offsets(parts: seq<(nat, Rank)>): seq<nat>
  {
    seq(|parts|, j requires 0 <= j < |parts| => parts[j].0)
  }

  /** The cached ranks of `parts`. */
  ghost function RankColumn(parts: seq<(nat, Rank)>): seq<Rank>
  {
    seq(|parts|, j requires 0 <= j < |parts| => parts[j].1)
  }

  /** One boundary per byte offset 0..n: every span a single byte. */
  ghost function Singletons(n: nat): seq<nat>
  {
    seq(n + 1, j requires 0 <= j <= n => j)
  }

  /** The offsets b cut the data, and every rs[j] is the rank of joining span j with span j + 1. */
  ghost predicate CacheOk(ranks: map<seq<byte>, nat>, data: seq<byte>, b: seq<nat>, rs: seq<Rank>)
  {
    && Bounds(b, |data|) && |rs| == |b|
    && (forall j :: 0 <= j < |b| ==> rs[j] == PairRank(ranks, data, b, j))
  }

  /** The cache invariant of `merge` on its `(offset, rank)` parts. */
  ghost predicate Cached(ranks: map<seq<byte>, nat>, data: seq<byte>, parts: seq<(nat, Rank)>)
  {
    CacheOk(ranks, data, Offsets(parts), RankColumn(parts))
  }

  /**
   * `get_rank`: the rank of the span from boundary i to boundary i + 3. It is
   * what the pair at i will have once boundary i + 1 or i + 2 is dropped.
   */
  function GetRank(ranks: map<seq<byte>, nat>, data: seq<byte>, parts: seq<(nat, Rank)>, i: nat): (r: Rank)
    requires i + 3 < |parts| ==> parts[i].0 <= parts[i + 3].0 <= |data|
    ensures Bounds(Offsets(parts), |data|) && i + 2 < |parts| ==>
              r == PairRank(ranks, data, Remove(Offsets(parts), i + 1), i)
    ensures Bounds(Offsets(parts), |data|) && i + 3 < |parts| ==>
              r == PairRank(ranks, data, Remove(Offsets(parts), i + 2), i)
  {
    if i + 3 >= |parts| then Max else Lookup(ranks, data[parts[i].0..parts[i + 3].0])
  }

  /** Under the cache, the ranks the scan reads are those of the reference algorithm. */
  lemma CachedRankSeq(ranks: map<seq<byte>, nat>, data: seq<byte>, parts: seq<(nat, Rank)>)
    requires Cached(ranks, data, parts)
    ensures RankColumn(parts[..|parts| - 1]) == RankSeq(ranks, data, Offsets(parts))
  {
  }

  /** The byte-per-span start of `merge` with its pair ranks is a valid cache. */
  lemma StartCached(ranks: map<seq<byte>, nat>, data: seq<byte>, parts: seq<(nat, Rank)>)
    requires |data| >= 1 && |parts| == |data| + 1
    requires forall j :: 0 <= j < |parts| ==> parts[j].0 == j
    requires forall j :: 0 <= j < |data| - 1 ==> parts[j].1 == Lookup(ranks, data[j..j + 2])
    requires parts[|data| - 1].1 == Max && parts[|data|].1 == Max
    ensures Offsets(parts) == Singletons(|data|)
    ensures Cached(ranks, data, parts)
  {
    assert Offsets(parts) == Singletons(|data|);
  }

  /** Dropping boundary i + 1 shifts the pair ranks right of it one place left and keeps those left of i - 1. */
  lemma ShiftedPairRank(ranks: map<seq<byte>, nat>, data: seq<byte>, b: seq<nat>, i: nat, j: nat)
    requires Bounds(b, |data|) && i + 2 < |b|
    requires j < |b| - 1 && (j + 1 < i || i < j)
    ensures PairRank(ranks, data, Remove(b, i + 1), j) == PairRank(ranks, data, b, if j < i then j else j + 1)
  {
    var c := Remove(b, i + 1);
    if j < i {
      assert c[j] == b[j] && c[j + 2] == b[j + 2];
    } else {
      assert c[j] == b[j + 1];
      if j + 2 < |c| {
        assert c[j + 2] == b[j + 3];
      }
    }
  }

  /**
   * Dropping boundary i + 1, with the ranks at i - 1 and i replaced by those
   * of the joined span and the rest shifted, keeps the cache valid.
   */
  lemma JoinCache(ranks: map<seq<byte>, nat>, data: seq<byte>, b: seq<nat>, rs: seq<Rank>, i: nat,
                  left: Rank, mid: Rank)
    requires CacheOk(ranks, data, b, rs) && i + 2 < |b|
    requires i > 0 ==> left == PairRank(ranks, data, Remove(b, i + 1), i - 1)
    requires mid == PairRank(ranks, data, Remove(b, i + 1), i)
    ensures CacheOk(ranks, data, Remove(b, i + 1), Remove((if i > 0 then rs[i - 1 := left] else rs)[i := mid], i + 1))
  {
    var c := Remove(b, i + 1);
    var cs := Remove((if i > 0 then rs[i - 1 := left] else rs)[i := mid], i + 1);
    RemoveBounds(b, |data|, i + 1);
    forall j | 0 <= j < |c|
      ensures cs[j] == PairRank(ranks, data, c, j)
    {
      if j + 1 < i || i < j {
        ShiftedPairRank(ranks, data, b, i, j);
      }
    }
  }

  /** The first |parts| parts of `merge` hold offset j and the rank of the byte pair at j. */
  ghost predicate Scanned(ranks: map<seq<byte>, nat>, data: seq<byte>, parts: seq<(nat, Rank)>)
  {
    |parts| < |data| &&
    forall j :: 0 <= j < |parts| ==> parts[j].0 == j && parts[j].1 == Lookup(ranks, data[j..j + 2])
  }

  /** One iteration of the first loop of `merge` extends the scanned prefix and moves the minimum when strictly lower. */
  lemma ScannedStep(ranks: map<seq<byte>, nat>, data: seq<byte>, parts: seq<(nat, Rank)>, rank: Rank)
    requires Scanned(ranks, data, parts) && |parts| + 1 < |data|
    requires rank == Lookup(ranks, data[|parts|..|parts| + 2])
    ensures Scanned(ranks, data, parts + [(|parts|, rank)])
    ensures Leftmost(RankColumn(parts + [(|parts|, rank)])) ==
      if Less(rank, Leftmost(RankColumn(parts)).0) then (rank, |parts|) else Leftmost(RankColumn(parts))
  {
    ColumnSnoc(parts, (|parts|, rank));
    LeftmostSnoc(RankColumn(parts), rank);
  }

  /** The two closing pushes of the first loop of `merge` complete a valid cache and keep the minimum. */
  lemma StartPushes(ranks: map<seq<byte>, nat>, data: seq<byte>, ps: seq<(nat, Rank)>, m: (Rank, nat))
    requires |ps| == |data| - 1 && Scanned(ranks, data, ps)
    requires m == Leftmost(RankColumn(ps))
    ensures Offsets(ps + [(|data| - 1, Max)] + [(|data|, Max)]) == Singletons(|data|)
    ensures Cached(ranks, data, ps + [(|data| - 1, Max)] + [(|data|, Max)])
    ensures m == Leftmost(RankColumn((ps + [(|data| - 1, Max)] + [(|data|, Max)])[..|data|]))
  {
    var parts := ps + [(|data| - 1, Max)] + [(|data|, Max)];
    assert parts[..|data|] == ps + [(|data| - 1, Max)];
    ColumnSnoc(ps, (|data| - 1, Max));
    LeftmostSnoc(RankColumn(ps), Max);
    StartCached(ranks, data, parts);
  }

  /** Appending a part appends its rank to the rank column. */
  lemma ColumnSnoc(parts: seq<(nat, Rank)>, x: (nat, Rank))
    ensures RankColumn(parts + [x]) == RankColumn(parts) + [x.1]
  {
  }

  /** Scanning one more rank moves the minimum there exactly when it is strictly lower. */
  lemma LeftmostSnoc(rs: seq<Rank>, r: Rank)
    ensures Leftmost(rs + [r]) == if Less(r, Leftmost(rs).0) then (r, |rs|) else Leftmost(rs)
  {
    assert (rs + [r])[..|rs|] == rs;
  }

  /** The first loop of `merge`: one span per byte, and the leftmost lowest pair rank. */
  method Start(data: seq<byte>, ranks: map<seq<byte>, nat>) returns (parts: seq<(nat, Rank)>, minRank: Rank, minAt: nat)
    requires |data| >= 1
    ensures Offsets(parts) == Singletons(|data|)
    ensures Cached(ranks, data, parts)
    ensures (minRank, minAt) == Leftmost(RankColumn(parts[..|parts| - 1]))
  {
    parts := [];
    // The index is only read while the rank is finite; `usize::MAX` is not modelled.
    minRank, minAt := Max, 0;
    for i := 0 to |data| - 1
      invariant |parts| == i
      invariant Scanned(ranks, data, parts)
      invariant (minRank, minAt) == Leftmost(RankColumn(parts))
    {
      var pair := [data[i], data[i + 1]];
      assert pair == data[i..i + 2];
      var rank := Max;
      if pair in ranks {
        rank := AsRank(ranks[pair]);
        if Less(rank, minRank) {
          minRank, minAt := rank, i;
        }
      }
      ScannedStep(ranks, data, parts, rank);
      parts := parts + [(i, rank)];
    }
    StartPushes(ranks, data, parts, (minRank, minAt));
    parts := parts + [(|data| - 1, Max)];
    parts := parts + [(|data|, Max)];
  }

  /** Replacing the rank of one part keeps the offsets. */
  lemma SetRankColumns(parts: seq<(nat, Rank)>, k: nat, r: Rank)
    requires k < |parts|
    ensures Offsets(parts[k := (parts[k].0, r)]) == Offsets(parts)
    ensures RankColumn(parts[k := (parts[k].0, r)]) == RankColumn(parts)[k := r]
  {
  }

  /** Removing a part removes its offset and its rank. */
  lemma RemoveColumns(parts: seq<(nat, Rank)>, k: nat)
    requires k < |parts|
    ensures Offsets(Remove(parts, k)) == Remove(Offsets(parts), k)
    ensures RankColumn(Remove(parts, k)) == Remove(RankColumn(parts), k)
  {
    var q := Remove(parts, k);
    assert forall j :: 0 <= j < |q| ==> q[j] == parts[if j < k then j else j + 1];
  }

  /** One join of `merge`: refresh the ranks at i - 1 and i, then drop boundary i + 1. */
  method Join(data: seq<byte>, ranks: map<seq<byte>, nat>, parts: seq<(nat, Rank)>, i: nat)
    returns (joined: seq<(nat, Rank)>)
    requires Cached(ranks, data, parts) && i + 2 < |parts|
    ensures Offsets(joined) == Remove(Offsets(parts), i + 1)
    ensures Cached(ranks, data, joined)
  {
    ghost var b, rs := Offsets(parts), RankColumn(parts);
    if i + 3 < |parts| {
      Ordered(b, |data|, i, i + 3);
    }
    joined := parts;
    ghost var left := Max;
    if i > 0 {
      Ordered(b, |data|, i - 1, i + 2);
      left := GetRank(ranks, data, joined, i - 1);
      SetRankColumns(joined, i - 1, left);
      joined := joined[i - 1 := (joined[i - 1].0, GetRank(ranks, data, joined, i - 1))];
    }
    ghost var mid := GetRank(ranks, data, joined, i);
    SetRankColumns(joined, i, mid);
    joined := joined[i := (joined[i].0, GetRank(ranks, data, joined, i))];
    RemoveColumns(joined, i + 1);
    joined := joined[..i + 1] + joined[i + 2..];
    JoinCache(ranks, data, b, rs, i, left, mid);
  }

  /** The rescan of `merge`: the leftmost lowest rank over all boundaries but the last. */
  method FindMin(parts: seq<(nat, Rank)>) returns (minRank: Rank, minAt: nat)
    requires |parts| >= 1
    ensures (minRank, minAt) == Leftmost(RankColumn(parts[..|parts| - 1]))
  {
    minRank, minAt := Max, 0;
    for j := 0 to |parts| - 1
      invariant (minRank, minAt) == Leftmost(RankColumn(parts[..j]))
    {
      assert RankColumn(parts[..j + 1])[..j] == RankColumn(parts[..j]);
      if Less(parts[j].1, minRank) {
        minRank, minAt := parts[j].1, j;
      }
    }
  }

  /** When the scan finds no finite rank, no part has one. */
  lemma NoRankLeft(ranks: map<seq<byte>, nat>, data: seq<byte>, parts: seq<(nat, Rank)>)
    requires Cached(ranks, data, parts)
    requires Leftmost(RankColumn(parts[..|parts| - 1])).0 == Max
    ensures forall j :: 0 <= j < |parts| ==> parts[j].1 == Max
  {
    LeftmostSpec(RankColumn(parts[..|parts| - 1]));
    assert RankColumn(parts)[|parts| - 1] == Max;
    forall j | 0 <= j < |parts| - 1
      ensures parts[j].1 == Max
    {
      assert RankColumn(parts[..|parts| - 1])[j] == parts[j].1;
    }
  }

  /**
   * `merge`: the boundaries it returns are those of the reference algorithm
   * started from one span per byte, its cached ranks are exact, and no two
   * adjacent spans have a rank left.
   */
  method Merge(data: seq<byte>, ranks: map<seq<byte>, nat>) returns (parts: seq<(nat, Rank)>)
    requires |data| >= 1
    ensures Cached(ranks, data, parts)
    ensures Offsets(parts) == MergeSpec(ranks, data, Singletons(|data|))
    ensures forall j :: 0 <= j < |parts| ==> parts[j].1 == Max
  {
    var minRank, minAt;
    parts, minRank, minAt := Start(data, ranks);
    while minRank != Max
      invariant Cached(ranks, data, parts)
      invariant (minRank, minAt) == Leftmost(RankColumn(parts[..|parts| - 1]))
      invariant MergeSpec(ranks, data, Offsets(parts)) == MergeSpec(ranks, data, Singletons(|data|))
      decreases |parts|
    {
      CachedRankSeq(ranks, data, parts);
      LeftmostSpec(RankColumn(parts[..|parts| - 1]));
      var i := minAt;
      FiniteRankInside(ranks, data, Offsets(parts), i);
      parts := Join(data, ranks, parts, i);
      minRank, minAt := FindMin(parts);
    }
    CachedRankSeq(ranks, data, parts);
    NoRankLeft(ranks, data, parts);
  }

  // ---------------------------------------------------------------------------
  // Splitting and encoding

  /** Two adjacent spans together are the data from the first's start to the second's end. */
  lemma AdjacentSpans(data: seq<byte>, b: seq<nat>, j: nat)
    requires Bounds(b, |data|) && j + 2 < |b|
    ensures b[j] <= b[j + 2] <= |data| && Spans(data, b)[j] + Spans(data, b)[j + 1] == data[b[j]..b[j + 2]]
  {
    Ordered(b, |data|, j, j + 2);
    assert data[b[j]..b[j + 2]] == data[b[j]..b[j + 1]] + data[b[j + 1]..b[j + 2]];
  }

  /** The spans `merge` leaves. */
  method MergedSpans(data: seq<byte>, ranks: map<seq<byte>, nat>) returns (spans: seq<seq<byte>>)
    requires |data| >= 1
    ensures Bounds(MergeSpec(ranks, data, Singletons(|data|)), |data|)
    ensures spans == Spans(data, MergeSpec(ranks, data, Singletons(|data|)))
  {
    var parts := Merge(data, ranks);
    spans := Spans(data, Offsets(parts));
  }

  /** Every span is non-empty, and a single byte or a ranked token. */
  ghost predicate TokenSpans(ranks: map<seq<byte>, nat>, spans: seq<seq<byte>>)
  {
    forall j :: 0 <= j < |spans| ==> |spans[j]| >= 1 && (|spans[j]| == 1 || Lookup(ranks, spans[j]).Finite?)
  }

  /** No two neighbouring spans join into a ranked token. */
  ghost predicate Maximal(ranks: map<seq<byte>, nat>, spans: seq<seq<byte>>)
  {
    forall j :: 0 <= j < |spans| - 1 ==> Lookup(ranks, spans[j] + spans[j + 1]) == Max
  }

  /** No two neighbouring spans of the reference merge join into a ranked token. */
  lemma SplitStops(ranks: map<seq<byte>, nat>, data: seq<byte>)
    requires |data| >= 1
    ensures Bounds(MergeSpec(ranks, data, Singletons(|data|)), |data|)
    ensures Maximal(ranks, Spans(data, MergeSpec(ranks, data, Singletons(|data|))))
  {
    var b := MergeSpec(ranks, data, Singletons(|data|));
    MergeSpecStops(ranks, data, Singletons(|data|));
    var spans := Spans(data, b);
    forall j | 0 <= j < |spans| - 1
      ensures Lookup(ranks, spans[j] + spans[j + 1]) == Max
    {
      AdjacentSpans(data, b, j);
      assert PairRank(ranks, data, b, j) == Max;
    }
  }

  /** The spans of the reference merge are non-empty, and each is a single byte or a ranked token. */
  lemma SplitTokens(ranks: map<seq<byte>, nat>, data: seq<byte>)
    requires |data| >= 1
    ensures Bounds(MergeSpec(ranks, data, Singletons(|data|)), |data|)
    ensures TokenSpans(ranks, Spans(data, MergeSpec(ranks, data, Singletons(|data|))))
  {
    SingletonsTokens(ranks, data);
    MergeSpecTokens(ranks, data, Singletons(|data|));
  }

  /** With only single-byte tokens, as right after seeding, nothing merges: one span per byte. */
  lemma SingleByteVocabulary(ranks: map<seq<byte>, nat>, data: seq<byte>)
    requires |data| >= 1
    requires forall t :: t in ranks ==> |t| == 1
    ensures MergeSpec(ranks, data, Singletons(|data|)) == Singletons(|data|)
    ensures |Spans(data, Singletons(|data|))| == |data|
    ensures forall j :: 0 <= j < |data| ==> Spans(data, Singletons(|data|))[j] == [data[j]]
  {
    var b := Singletons(|data|);
    var rs := RankSeq(ranks, data, b);
    forall j | 0 <= j < |rs|
      ensures rs[j] == Max
    {
      if j + 2 < |b| {
        assert |data[b[j]..b[j + 2]]| == 2;
      }
    }
    LeftmostSpec(rs);
  }

  /**
   * `pair_split`: the spans concatenate to the data, each is non-empty and a
   * single byte or a ranked token, and no two neighbours join into a ranked token.
   */
  method PairSplit(data: seq<byte>, ranks: map<seq<byte>, nat>) returns (spans: seq<seq<byte>>)
    requires |data| >= 1
    ensures Bounds(MergeSpec(ranks, data, Singletons(|data|)), |data|)
    ensures spans == Spans(data, MergeSpec(ranks, data, Singletons(|data|)))
    ensures Concat(spans) == data
    ensures TokenSpans(ranks, spans)
    ensures Maximal(ranks, spans)
  {
    spans := MergedSpans(data, ranks);
    SpansConcat(data, MergeSpec(ranks, data, Singletons(|data|)));
    SplitTokens(ranks, data);
    SplitStops(ranks, data);
  }

  /** Every span has an entry in `ranks`. */
  ghost predicate Encodable(ranks: map<seq<byte>, nat>, spans: seq<seq<byte>>)
  {
    forall j :: 0 <= j < |spans| ==> spans[j] in ranks
  }

  /**
   * `pair_encode`: the rank of every span `pair_split` gives. The source
   * indexes `ranks` and panics on a missing span; here that is `None`.
   */
  method PairEncode(data: seq<byte>, ranks: map<seq<byte>, nat>) returns (ids: Option<seq<nat>>)
    requires |data| >= 1
    ensures Bounds(MergeSpec(ranks, data, Singletons(|data|)), |data|)
    ensures ids.Some? <==> Encodable(ranks, Spans(data, MergeSpec(ranks, data, Singletons(|data|))))
    ensures ids.Some? ==>
              var spans := Spans(data, MergeSpec(ranks, data, Singletons(|data|)));
              |ids.value| == |spans| && forall j :: 0 <= j < |spans| ==> ids.value[j] == ranks[spans[j]]
  {
    var spans := MergedSpans(data, ranks);
    if forall j | 0 <= j < |spans| :: spans[j] in ranks {
      ids := Some(seq(|spans|, j requires 0 <= j < |spans| => ranks[spans[j]]));
    } else {
      ids := None;
    }
  }

  /** With every single byte in `ranks`, as after training, `pair_encode` never misses. */
  lemma EncodeTotal(ranks: map<seq<byte>, nat>, data: seq<byte>)
    requires |data| >= 1
    requires forall x: byte :: [x] in ranks
    ensures Bounds(MergeSpec(ranks, data, Singletons(|data|)), |data|)
    ensures Encodable(ranks, Spans(data, MergeSpec(ranks, data, Singletons(|data|))))
  {
    SplitTokens(ranks, data);
    var spans := Spans(data, MergeSpec(ranks, data, Singletons(|data|)));
    forall j | 0 <= j < |spans|
      ensures spans[j] in ranks
    {
      if |spans[j]| == 1 {
        var x := spans[j][0];
        assert spans[j] == [x];
        assert [x] in ranks;
      } else {
        assert Lookup(ranks, spans[j]).Finite?;
      }
    }
  }

  /** Mapping ids back through `encoder`. */
  function Decode(encoder: seq<seq<byte>>, ids: seq<nat>): (tokens: seq<seq<byte>>)
    requires forall j :: 0 <= j < |ids| ==> ids[j] < |encoder|
    ensures |tokens| == |ids|
    ensures forall j :: 0 <= j < |ids| ==> tokens[j] == encoder[ids[j]]
  {
    seq(|ids|, j requires 0 <= j < |ids| => encoder[ids[j]])
  }

  /** While the trained tables are in step, `encoder` inverts `ranks`: decoding the ranks of tokens gives the tokens. */
  lemma DecodeRanks(ranks: map<seq<byte>, nat>, encoder: seq<seq<byte>>, spans: seq<seq<byte>>, ids: seq<nat>)
    requires BpeTrain.Tables(ranks, encoder) && |ranks| == |encoder|
    requires Encodable(ranks, spans)
    requires |ids| == |spans| && forall j :: 0 <= j < |spans| ==> ids[j] == ranks[spans[j]]
    ensures forall j :: 0 <= j < |ids| ==> ids[j] < |encoder|
    ensures Decode(encoder, ids) == spans
  {
    forall j | 0 <= j < |spans|
      ensures ids[j] < |encoder| && encoder[ids[j]] == spans[j]
    {
      assert spans[j] in encoder;
      var k :| 0 <= k < |encoder| && encoder[k] == spans[j];
      assert ranks[encoder[k]] == k;
    }
  }

  /**
   * The round trip of the source's `pair_split` test: encode with the tables of
   * a trained instance, then map every id back through `encoder`. The decoded
   * tokens are the spans `pair_split` gives, so they concatenate to the data.
   */
  method EncodeDecode(bpe: BpeTrain.BpeCore, data: seq<byte>) returns (decoded: Option<seq<seq<byte>>>)
    requires BpeTrain.Tables(bpe.ranks, bpe.encoder) && |bpe.ranks| == |bpe.encoder|
    requires |data| >= 1
    ensures Bounds(MergeSpec(bpe.ranks, data, Singletons(|data|)), |data|)
    ensures decoded == Some(Spans(data, MergeSpec(bpe.ranks, data, Singletons(|data|))))
    ensures decoded.Some? && Concat(decoded.value) == data
  {
    var ids := PairEncode(data, bpe.ranks);
    EncodeTotal(bpe.ranks, data);
    ghost var spans := Spans(data, MergeSpec(bpe.ranks, data, Singletons(|data|)));
    DecodeRanks(bpe.ranks, bpe.encoder, spans, ids.value);
    decoded := Some(Decode(bpe.encoder, ids.value));
    SpansConcat(data, MergeSpec(bpe.ranks, data, Singletons(|data|)));
  }
}
