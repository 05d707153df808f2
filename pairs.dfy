/**
 * Adjacent-pair counting, the window-of-two statistic that both the BPE
 * trainer (over token ids) and the byte-substitution compressor (over bytes)
 * compute before deciding what to merge or substitute.
 */
module Pairs {

  /** The byte values 0..255. */
  type byte = x: int | 0 <= x < 256

  /** Number of positions k with (s[k], s[k + 1]) == p. */
  function Count<T(==)>(s: seq<T>, p: (T, T)): nat
  {
    if |s| < 2 then 0
    else Count(s[..|s| - 1], p) + (if (s[|s| - 2], s[|s| - 1]) == p then 1 else 0)
  }

  /** p occurs as an adjacent pair somewhere in s. */
  predicate Adjacent<T(==)>(s: seq<T>, p: (T, T))
  {
    exists k :: 0 <= k < |s| - 1 && (s[k], s[k + 1]) == p
  }

  lemma AppendAssoc<T>(a: seq<T>, b: seq<T>, c: seq<T>)
    ensures (a + b) + c == a + (b + c)
  {
  }

  /** The first n elements of s, or all of s when it is shorter. */
  ghost function Upto<T>(s: seq<T>, n: nat): seq<T>
  {
    s[..if n <= |s| then n else |s|]
  }

  /** Extending a prefix by one element adds the pair that now ends the prefix. */
  lemma CountPrefixStep<T>(s: seq<T>, j: nat, p: (T, T))
    requires j + 1 < |s|
    ensures Count(s[..j + 2], p) == Count(s[..j + 1], p) + (if (s[j], s[j + 1]) == p then 1 else 0)
  {
    assert s[..j + 2][..j + 1] == s[..j + 1];
  }

  /** A count is positive exactly when the pair occurs adjacently. */
  lemma {:induction false} CountPositive<T>(s: seq<T>, p: (T, T))
    ensures Count(s, p) > 0 <==> Adjacent(s, p)
  {
    if |s| >= 2 {
      var t := s[..|s| - 1];
      CountPositive(t, p);
      if Adjacent(t, p) {
        var k :| 0 <= k < |t| - 1 && (t[k], t[k + 1]) == p;
        assert (s[k], s[k + 1]) == p;
      }
      if Adjacent(s, p) && (s[|s| - 2], s[|s| - 1]) != p {
        var k :| 0 <= k < |s| - 1 && (s[k], s[k + 1]) == p;
        assert k < |t| - 1 && (t[k], t[k + 1]) == p;
      }
    }
  }

  /** The pair at any position is counted. */
  lemma CountAt<T>(s: seq<T>, k: nat)
    requires k + 1 < |s|
    ensures Count(s, (s[k], s[k + 1])) > 0
  {
    CountPositive(s, (s[k], s[k + 1]));
  }
}
