/**
 * A JavaScript `Map` iterates its keys in insertion order. The editor's two
 * registries depend on that order (the last or the first hit wins), so each
 * registry keeps its keys as a duplicate-free sequence beside the map itself.
 * This module holds that sequence's vocabulary: the in-order filter that every
 * `forEach (...) { if (...) push }` loop of the source computes.
 */
module OrderedKeys {

  /** No key occurs twice. */
  predicate Distinct(s: seq<string>) {
    forall i, j :: 0 <= i < j < |s| ==> s[i] != s[j]
  }

  /** The keys of an insertion-order sequence. */
  function Elems(s: seq<string>): set<string> {
    set x | x in s
  }

  /** The keys of `s` that lie in `keep`, in the order of `s`. */
  function Filter(s: seq<string>, keep: set<string>): (r: seq<string>)
    ensures forall x :: x in r <==> x in s && x in keep
    ensures |r| <= |s|
    decreases |s|
  {
    if s == [] then []
    else (if s[0] in keep then [s[0]] else []) + Filter(s[1..], keep)
  }

  /** Filtering a sequence grown by one key is filtering the old one, then looking at the new key. */
  lemma {:induction false} FilterAppend(s: seq<string>, x: string, keep: set<string>)
    ensures Filter(s + [x], keep) == Filter(s, keep) + (if x in keep then [x] else [])
    decreases |s|
  {
    var last: seq<string> := if x in keep then [x] else [];
    if s == [] {
      assert s + [x] == [x];
      assert [x][1..] == [];
      assert Filter([x], keep) == last + Filter([], keep);
    } else {
      var head: seq<string> := if s[0] in keep then [s[0]] else [];
      assert (s + [x])[0] == s[0];
      assert (s + [x])[1..] == s[1..] + [x];
      FilterAppend(s[1..], x, keep);
      calc {
        Filter(s + [x], keep);
        head + Filter(s[1..] + [x], keep);
        head + (Filter(s[1..], keep) + last);
        (head + Filter(s[1..], keep)) + last;
        Filter(s, keep) + last;
      }
    }
  }

  /** The key set of a non-empty sequence is its head plus the keys of its tail. */
  lemma ElemsCons(s: seq<string>)
    requires s != []
    ensures Elems(s) == {s[0]} + Elems(s[1..])
  {
    assert s == [s[0]] + s[1..];
  }

  /** The tail of a duplicate-free sequence is duplicate-free and lacks the head. */
  lemma DistinctTail(s: seq<string>)
    requires s != [] && Distinct(s)
    ensures Distinct(s[1..]) && s[0] !in s[1..]
  {
    var tail := s[1..];
    forall i, j | 0 <= i < j < |tail| ensures tail[i] != tail[j] {
      assert tail[i] == s[i + 1] && tail[j] == s[j + 1];
    }
    forall j | 0 <= j < |tail| ensures tail[j] != s[0] {
      assert tail[j] == s[j + 1];
    }
  }

  /** Filtering keeps a sequence free of duplicates. */
  lemma {:induction false} FilterDistinct(s: seq<string>, keep: set<string>)
    requires Distinct(s)
    ensures Distinct(Filter(s, keep))
    decreases |s|
  {
    if s != [] {
      DistinctTail(s);
      FilterDistinct(s[1..], keep);
      var rest := Filter(s[1..], keep);
      assert s[0] !in rest;
      if s[0] in keep {
        var r := [s[0]] + rest;
        assert r == Filter(s, keep);
        forall i, j | 0 <= i < j < |r| ensures r[i] != r[j] {
          assert r[j] == rest[j - 1];
          if i > 0 {
            assert r[i] == rest[i - 1];
          }
        }
      } else {
        assert rest == Filter(s, keep);
      }
    }
  }

  /** On a duplicate-free sequence the filter has one entry per kept key. */
  lemma {:induction false} FilterLength(s: seq<string>, keep: set<string>)
    requires Distinct(s)
    ensures |Filter(s, keep)| == |Elems(s) * keep|
    decreases |s|
  {
    if s == [] {
      assert Elems(s) == {};
    } else {
      var tail := s[1..];
      DistinctTail(s);
      ElemsCons(s);
      FilterLength(tail, keep);
      assert s[0] !in Elems(tail);
      if s[0] in keep {
        assert Elems(s) * keep == {s[0]} + Elems(tail) * keep;
        assert |Filter(s, keep)| == 1 + |Filter(tail, keep)|;
      } else {
        assert Elems(s) * keep == Elems(tail) * keep;
        assert |Filter(s, keep)| == |Filter(tail, keep)|;
      }
    }
  }

  /** Two filters in a row are one filter by the intersection. */
  lemma {:induction false} FilterFilter(s: seq<string>, a: set<string>, b: set<string>)
    ensures Filter(Filter(s, a), b) == Filter(s, a * b)
    decreases |s|
  {
    if s != [] {
      FilterFilter(s[1..], a, b);
      var rest := Filter(s[1..], a);
      if s[0] in a {
        assert Filter(s, a) == [s[0]] + rest;
        assert ([s[0]] + rest)[1..] == rest;
      } else {
        assert Filter(s, a) == rest;
      }
    }
  }

  /** A filter that keeps every key changes nothing. */
  lemma {:induction false} FilterKeepsAll(s: seq<string>, keep: set<string>)
    requires Elems(s) <= keep
    ensures Filter(s, keep) == s
    decreases |s|
  {
    if s != [] {
      assert Elems(s[1..]) <= Elems(s) by {
        forall x | x in Elems(s[1..]) ensures x in Elems(s) {
          var k :| 0 <= k < |s[1..]| && s[1..][k] == x;
          assert s[k + 1] == x;
        }
      }
      FilterKeepsAll(s[1..], keep);
      assert s[0] in Elems(s);
      assert [s[0]] + s[1..] == s;
    }
  }

  /** Filtering again by a smaller key set is filtering by that set alone. */
  lemma FilterShrink(s: seq<string>, a: set<string>, b: set<string>)
    requires b <= a
    ensures Filter(Filter(s, a), b) == Filter(s, b)
  {
    FilterFilter(s, a, b);
    assert a * b == b;
  }

  /** One more element of the prefix: the filter looks at that element last. */
  lemma FilterPrefix(s: seq<string>, i: int, keep: set<string>)
    requires 0 <= i < |s|
    ensures Filter(s[..i + 1], keep) == Filter(s[..i], keep) + (if s[i] in keep then [s[i]] else [])
  {
    assert s[..i + 1] == s[..i] + [s[i]];
    FilterAppend(s[..i], s[i], keep);
  }

  /** One more element of the prefix adds that element to the prefix's keys. */
  lemma ElemsPrefix(s: seq<string>, i: int)
    requires 0 <= i < |s|
    ensures Elems(s[..i + 1]) == Elems(s[..i]) + {s[i]}
  {
    assert s[..i + 1] == s[..i] + [s[i]];
  }
}
