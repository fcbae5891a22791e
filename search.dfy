/**
 * The incremental search of the todo section: the cached query that is the
 * longest prefix of the current one, and the ranking of the matches by
 * score.
 */
module Search {

  /** `pattern.startsWith(old_patt)`. */
  predicate StartsWith(pattern: string, p: string)
  {
    p <= pattern
  }

  /**
   * `res` is what `_find_prev_search_results` settles on: the longest
   * non-empty key that starts the pattern, or '' when no key does.
   */
  predicate LongestPrefix(keys: set<string>, pattern: string, res: string)
  {
    (res == "" || (res in keys && StartsWith(pattern, res)))
    && forall k :: k in keys && k != "" && StartsWith(pattern, k) ==> |k| <= |res|
  }

  /** Two prefixes of one string: the shorter is a prefix of the longer. */
  lemma PrefixesNested(pattern: string, a: string, b: string)
    requires StartsWith(pattern, a) && StartsWith(pattern, b) && |a| <= |b|
    ensures StartsWith(b, a)
  {
    assert a == pattern[..|a|] && b == pattern[..|b|];
    assert b[..|a|] == a;
  }

  /** So there is only one longest prefix key, whatever order the keys are visited in. */
  lemma LongestPrefixUnique(keys: set<string>, pattern: string, r1: string, r2: string)
    requires LongestPrefix(keys, pattern, r1) && LongestPrefix(keys, pattern, r2)
    ensures r1 == r2
  {
    if r1 != "" && r2 != "" {
      assert |r1| == |r2|;
      PrefixesNested(pattern, r1, r2);
    }
  }

  /** The pattern itself is found exactly when it is a key. */
  lemma LongestPrefixExact(keys: set<string>, pattern: string, res: string)
    requires pattern != "" && LongestPrefix(keys, pattern, res)
    ensures res == pattern <==> pattern in keys
  {
    if pattern in keys {
      assert |pattern| <= |res|;
      assert res == pattern[..|res|];
    }
  }

  /** Nothing is found exactly when no non-empty key starts the pattern. */
  lemma LongestPrefixNone(keys: set<string>, pattern: string, res: string)
    requires LongestPrefix(keys, pattern, res)
    ensures res == "" <==> forall k :: k in keys && k != "" ==> !StartsWith(pattern, k)
  {
  }

  /** A match of the search: its position in the search space and its score. */
  type Hit = (nat, int)

  /** The order `sort((a, b) => b[1] - a[1])` leaves, the sort being stable: higher score first, then position. */
  predicate Precedes(a: Hit, b: Hit)
  {
    a.1 > b.1 || (a.1 == b.1 && a.0 < b.0)
  }

  predicate Ranked(r: seq<Hit>)
  {
    forall i, j :: 0 <= i < j < |r| ==> Precedes(r[i], r[j])
  }

  /** Hits collected in search-space order: positions strictly increase. */
  predicate InSpaceOrder(hits: seq<Hit>)
  {
    forall i, j :: 0 <= i < j < |hits| ==> hits[i].0 < hits[j].0
  }

  /**
   * `reduced_results.sort((a, b) => b[1] - a[1])`: the hits by
   * non-increasing score, equal scores kept in search-space order.
   */
  method RankHits(hits: seq<Hit>) returns (r: seq<Hit>)
    requires InSpaceOrder(hits)
    ensures multiset(r) == multiset(hits)
    ensures Ranked(r)
  {
    r := [];
    var k := 0;
    while k < |hits|
      invariant k <= |hits|
      invariant multiset(r) == multiset(hits[..k])
      invariant Ranked(r)
    {
      var h := hits[k];
      var p := Slot(r, h);
      RankStep(hits, k, r, p);
      r := r[..p] + [h] + r[p..];
      k := k + 1;
    }
    assert hits[..k] == hits;
  }

  /** Where a hit goes in the ranked hits: after the leading run of hits scoring at least as much. */
  method Slot(r: seq<Hit>, h: Hit) returns (p: nat)
    ensures p <= |r| && forall i :: 0 <= i < p ==> r[i].1 >= h.1
    ensures p < |r| ==> r[p].1 < h.1
  {
    p := 0;
    while p < |r| && r[p].1 >= h.1
      invariant p <= |r|
      invariant forall i :: 0 <= i < p ==> r[i].1 >= h.1
    {
      p := p + 1;
    }
  }

  /** One pass of the insertion: the hit goes in after every hit scoring at least as much. */
  lemma RankStep(hits: seq<Hit>, k: nat, r: seq<Hit>, p: nat)
    requires InSpaceOrder(hits) && k < |hits| && multiset(r) == multiset(hits[..k]) && Ranked(r)
    requires p <= |r| && (forall i :: 0 <= i < p ==> r[i].1 >= hits[k].1)
    requires p < |r| ==> r[p].1 < hits[k].1
    ensures multiset(r[..p] + [hits[k]] + r[p..]) == multiset(hits[..k + 1])
    ensures Ranked(r[..p] + [hits[k]] + r[p..])
  {
    EarlierHits(hits, k, r);
    InsertRanked(r, hits[k], p);
    InsertMultiset(r, hits[k], p);
    assert hits[..k + 1] == hits[..k] + [hits[k]];
  }

  lemma InsertMultiset<T>(r: seq<T>, h: T, p: nat)
    requires p <= |r|
    ensures multiset(r[..p] + [h] + r[p..]) == multiset(r) + multiset{h}
  {
    assert r == r[..p] + r[p..];
  }

  /** The hits ranked so far all come before the next one in the search space. */
  lemma EarlierHits(hits: seq<Hit>, k: nat, r: seq<Hit>)
    requires InSpaceOrder(hits) && k < |hits| && multiset(r) == multiset(hits[..k])
    ensures forall i :: 0 <= i < |r| ==> r[i].0 < hits[k].0
  {
    forall i | 0 <= i < |r|
      ensures r[i].0 < hits[k].0
    {
      assert r[i] in multiset(hits[..k]);
      var j :| 0 <= j < k && hits[..k][j] == r[i];
    }
  }

  /** Inserting a hit after every hit with a score at least its own keeps the ranking. */
  lemma InsertRanked(r: seq<Hit>, h: Hit, p: nat)
    requires Ranked(r) && p <= |r|
    requires forall i :: 0 <= i < p ==> r[i].1 >= h.1
    requires p < |r| ==> r[p].1 < h.1
    requires forall i :: 0 <= i < |r| ==> r[i].0 < h.0
    ensures Ranked(r[..p] + [h] + r[p..])
  {
    var s := r[..p] + [h] + r[p..];
    forall i, j | 0 <= i < j < |s|
      ensures Precedes(s[i], s[j])
    {
      if j < p {
        assert s[i] == r[i] && s[j] == r[j];
      } else if j == p {
        assert s[i] == r[i] && s[j] == h;
      } else if i == p {
        assert s[j] == r[j - 1];
        if j - 1 > p {
          assert Precedes(r[p], r[j - 1]);
        }
      } else if i < p {
        assert s[i] == r[i] && s[j] == r[j - 1];
      } else {
        assert s[i] == r[i - 1] && s[j] == r[j - 1];
      }
    }
  }
}
