/** The pattern search that looks for start codes in a frame. */
module Kmp {
  import opened Bytes

  const MAX_PATTERN: nat := 32

  /** The first b bytes of the k-byte prefix are also its last ones. */
  predicate Border(p: seq<Byte>, k: nat, b: nat) {
    b < k <= |p| && p[..b] == p[k - b..k]
  }

  /** b is the longest proper border of the k-byte prefix. */
  ghost predicate LongestBorder(p: seq<Byte>, k: nat, b: nat) {
    Border(p, k, b) && forall c: nat :: Border(p, k, c) ==> c <= b
  }

  ghost predicate OccursAt(p: seq<Byte>, s: seq<Byte>, m: nat) {
    m + |p| <= |s| && s[m..m + |p|] == p
  }

  /** A border of a prefix one longer ends in the byte after a border. */
  lemma BorderGrows(p: seq<Byte>, k: nat, b: nat)
    requires 0 < k < |p|
    ensures Border(p, k + 1, b + 1) <==> Border(p, k, b) && p[b] == p[k]
  {
    if b < k {
      assert p[..b + 1] == p[..b] + [p[b]];
      assert p[k - b..k + 1] == p[k - b..k] + [p[k]];
    }
  }

  lemma BorderShorter(p: seq<Byte>, k: nat, b: nat)
    requires Border(p, k, b)
    ensures b < k <= |p|
  {}

  /** The borders of a border are the shorter borders. */
  lemma BorderOfBorder(p: seq<Byte>, k: nat, b: nat, c: nat)
    requires Border(p, k, b) && c < b
    ensures Border(p, k, c) <==> Border(p, b, c)
  {
    assert p[b - c..b] == p[..b][b - c..] && p[k - c..k] == p[k - b..k][b - c..];
  }

  /**
   What the first i bytes at m being right says about later places: a place is out unless a border reaches back to it.
   */
  lemma ShiftSkips(p: seq<Byte>, s: seq<Byte>, m: nat, i: nat, d: nat)
    requires 0 < d < i < |p| && m + i <= |s| && s[m..m + i] == p[..i] && OccursAt(p, s, m + d)
    ensures Border(p, i, i - d)
  {
    assert s[m + d..m + i] == s[m..m + i][d..] == p[..i][d..] == p[d..i];
    assert s[m + d..m + i] == s[m + d..m + d + |p|][..i - d] == p[..i - d];
  }

  class Matcher {
    var pattern: seq<Byte>
    const prefix: array<int>

    /** The table: the longest border of every proper prefix, and -1 for the empty one. */
    ghost predicate Valid()
      reads this, prefix
    {
      && 2 <= |pattern| <= MAX_PATTERN == prefix.Length && prefix[0] == -1
      && forall k :: 0 < k < |pattern| ==> prefix[k] >= 0 && LongestBorder(pattern, k, prefix[k])
    }

    constructor ()
      ensures fresh(prefix) && prefix.Length == MAX_PATTERN
    {
      prefix := new int[MAX_PATTERN];
      pattern := [];
    }

    /** LinkInitKmp */
    method Init(p: seq<Byte>) returns (ret: int)
      requires prefix.Length == MAX_PATTERN
      modifies this`pattern, prefix
      ensures pattern == p
      ensures ret == if |p| < 2 then -1 else if |p| > MAX_PATTERN then -2 else 0
      ensures ret == 0 ==> Valid()
    {
      hide LongestBorder, Border;
      pattern := p;
      if |p| < 2 {
        return -1;
      }
      if |p| > MAX_PATTERN {
        return -2;
      }
      prefix[0], prefix[1] := -1, 0;
      FirstBorder(p);
      var pos, count := 2, 0;
      while pos < |p|
        invariant 2 <= pos <= |p| && 0 <= count < pos - 1 && prefix[0] == -1 && pattern == p
        invariant forall k :: 0 < k < pos ==> prefix[k] >= 0 && LongestBorder(p, k, prefix[k])
        invariant pos < |p| ==> Candidate(p, pos, count)
        decreases 2 * (|p| - pos) + count
      {
        if p[pos - 1] == p[count] {
          CandidateFits(p, pos, count);
          count := count + 1;
          prefix[pos] := count;
          pos := pos + 1;
        } else if count > 0 {
          assert LongestBorder(p, count, prefix[count]);
          NextCandidate(p, pos, count, prefix[count]);
          count := prefix[count];
        } else {
          NoCandidate(p, pos);
          prefix[pos] := 0;
          pos := pos + 1;
        }
      }
      ret := 0;
    }

    /** LinkFindPatternIndex: the first occurrence; -1 for a text shorter than the pattern, -2 when there is none. */
    method FindPatternIndex(s: seq<Byte>) returns (ret: int)
      requires Valid()
      ensures ret == -1 <==> |s| < |pattern|
      ensures ret >= 0 ==> OccursAt(pattern, s, ret) && forall m: nat :: m < ret ==> !OccursAt(pattern, s, m)
      ensures ret < 0 ==> forall m: nat :: !OccursAt(pattern, s, m)
      ensures ret >= -2
    {
      if |s| < |pattern| {
        return -1;
      }
      var m, i := 0, 0;
      while m + i < |s|
        invariant 0 <= m && 0 <= i < |pattern| && m + i <= |s| && s[m..m + i] == pattern[..i]
        invariant forall k: nat :: k < m ==> !OccursAt(pattern, s, k)
        decreases 2 * |s| - (2 * m + i)
      {
        if pattern[i] == s[m + i] {
          assert s[m..m + i + 1] == s[m..m + i] + [s[m + i]] && pattern[..i + 1] == pattern[..i] + [pattern[i]];
          if i == |pattern| - 1 {
            assert pattern[..i + 1] == pattern;
            return m;
          }
          i := i + 1;
        } else {
          Mismatch(pattern, s, m, i, prefix[i]);
          m := m + i - prefix[i];
          i := if prefix[i] > -1 then prefix[i] else 0;
        }
      }
      ret := -2;
    }
  }

  lemma FirstBorder(p: seq<Byte>)
    requires |p| >= 2
    ensures LongestBorder(p, 1, 0) && (|p| > 2 ==> Candidate(p, 2, 0))
  {}

  /**
   Every border of the pos-byte prefix, less its last byte, is at most count; count itself is a border of the prefix
   before.
   */
  ghost predicate Candidate(p: seq<Byte>, pos: nat, count: nat) {
    && 2 <= pos < |p| && Border(p, pos - 1, count)
    && forall c: nat :: Border(p, pos, c) ==> c <= count + 1
  }

  lemma CandidateFits(p: seq<Byte>, pos: nat, count: nat)
    requires Candidate(p, pos, count) && p[pos - 1] == p[count]
    ensures LongestBorder(p, pos, count + 1) && (pos + 1 < |p| ==> Candidate(p, pos + 1, count + 1))
  {
    BorderGrows(p, pos - 1, count);
    LongestIsCandidate(p, pos, count + 1);
  }

  lemma LongestIsCandidate(p: seq<Byte>, pos: nat, count: nat)
    requires 0 < pos && LongestBorder(p, pos, count)
    ensures pos + 1 < |p| ==> Candidate(p, pos + 1, count)
  {
    if pos + 1 < |p| {
      var k := pos + 1;
      forall c: nat | Border(p, k, c)
        ensures c <= count + 1
      {
        if c > 0 {
          BorderGrows(p, pos, c - 1);
        }
      }
    }
  }

  /** A border that could have followed count, but does not, follows one of count's own borders. */
  lemma BorderBelow(p: seq<Byte>, pos: nat, count: nat, next: nat, c: nat)
    requires Candidate(p, pos, count) && p[pos - 1] != p[count] && LongestBorder(p, count, next)
    requires Border(p, pos, c + 1)
    ensures c <= next
  {
    BorderShorter(p, pos - 1, count);
    hide Border;
    BorderGrows(p, pos - 1, c);
    assert c < count;
    BorderOfBorder(p, pos - 1, count, c);
  }

  lemma NextCandidate(p: seq<Byte>, pos: nat, count: nat, next: nat)
    requires Candidate(p, pos, count) && count > 0 && p[pos - 1] != p[count] && LongestBorder(p, count, next)
    ensures Candidate(p, pos, next) && next < count
  {
    BorderShorter(p, count, next);
    hide Border;
    BorderOfBorder(p, pos - 1, count, next);
    forall c: nat | Border(p, pos, c)
      ensures c <= next + 1
    {
      if c > 0 {
        BorderBelow(p, pos, count, next, c - 1);
      }
    }
  }

  lemma NoCandidate(p: seq<Byte>, pos: nat)
    requires Candidate(p, pos, 0) && p[pos - 1] != p[0]
    ensures LongestBorder(p, pos, 0) && (pos + 1 < |p| ==> Candidate(p, pos + 1, 0))
  {
    BorderGrows(p, pos - 1, 0);
    assert p[..0] == p[pos..pos];
    LongestIsCandidate(p, pos, 0);
  }

  /** After a mismatch the pattern moves to the next place its longest border allows, keeping the border matched. */
  lemma Mismatch(p: seq<Byte>, s: seq<Byte>, m: nat, i: nat, t: int)
    requires i < |p| && m + i < |s| && s[m..m + i] == p[..i] && p[i] != s[m + i]
    requires if i == 0 then t == -1 else t >= 0 && LongestBorder(p, i, t)
    requires forall k: nat :: k < m ==> !OccursAt(p, s, k)
    ensures t < i && forall k: nat :: k < m + i - t ==> !OccursAt(p, s, k)
    ensures t >= 0 ==> s[m + i - t..m + i] == p[..t]
  {
    forall k: nat | k < m + i - t
      ensures !OccursAt(p, s, k)
    {
      if k == m {
        assert m + |p| <= |s| ==> s[m..m + |p|][i] == s[m + i];
      } else if k > m && OccursAt(p, s, k) {
        assert k - m < i;
        ShiftSkips(p, s, m, i, k - m);
      }
    }
    if t >= 0 {
      assert s[m + i - t..m + i] == s[m..m + i][i - t..] == p[..i][i - t..] == p[i - t..i];
    }
  }
}
