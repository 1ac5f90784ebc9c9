/**
 * First-occurrence deduplication by fingerprint, shared by the three
 * sources: (review_date, star_rating, review_text[:n]).
 */
module Fingerprints {

  import opened Records

  /** `s[:n]`. */
  function Prefix(s: string, n: nat): (p: string)
    ensures |p| <= n && p <= s
    ensures |s| <= n ==> p == s
  {
    if |s| <= n then s else s[..n]
  }

  function ReviewKey(r: Review, n: nat): Key
  {
    Key(r.date, r.star, Prefix(r.text, n))
  }

  /** The fingerprint of the feed and store sources: the first 100 characters of the text. */
  function Key100(t: Timed): Key
  {
    ReviewKey(t.review, 100)
  }

  /** The fingerprint of the web-page source: the first 80 characters of the text. */
  function Key80(r: Review): Key
  {
    ReviewKey(r, 80)
  }

  function KeysOf<T>(s: seq<T>, key: T -> Key): set<Key>
  {
    set i | 0 <= i < |s| :: key(s[i])
  }

  /** Keep each element whose fingerprint has not been seen earlier in `s`. */
  function Dedup<T>(s: seq<T>, key: T -> Key): seq<T>
  {
    if s == [] then []
    else
      var d := Dedup(s[..|s| - 1], key);
      if key(s[|s| - 1]) in KeysOf(d, key) then d else d + [s[|s| - 1]]
  }

  /** Position `i` holds the first element of `s` with its fingerprint. */
  predicate IsFirst<T>(s: seq<T>, key: T -> Key, i: int)
    requires 0 <= i < |s|
  {
    forall j :: 0 <= j < i ==> key(s[j]) != key(s[i])
  }

  /** Reference definition: the positions of first occurrences, in increasing order. */
  function FirstIndices<T>(s: seq<T>, key: T -> Key): seq<int>
  {
    if s == [] then []
    else FirstIndices(s[..|s| - 1], key) + (if IsFirst(s, key, |s| - 1) then [|s| - 1] else [])
  }

  /** Every element of `ts` with its review, as the output rows carry them. */
  function Reviews(ts: seq<Timed>): (rs: seq<Review>)
    ensures |rs| == |ts|
  {
    if ts == [] then [] else Reviews(ts[..|ts| - 1]) + [ts[|ts| - 1].review]
  }

  /** The output rows are the reviews of the timed rows, position by position. */
  lemma {:induction false} ReviewsAt(ts: seq<Timed>)
    ensures forall i :: 0 <= i < |ts| ==> Reviews(ts)[i] == ts[i].review
  {
    if ts != [] {
      ReviewsAt(ts[..|ts| - 1]);
    }
  }

  /** The output rows and the fingerprints seen so far, for the rows `cands` offered so far. */
  predicate Tracks(rows: seq<Review>, seen: set<Key>, cands: seq<Timed>)
  {
    rows == Reviews(Dedup(cands, Key100)) && seen == KeysOf(Dedup(cands, Key100), Key100)
  }

  /** One step of the streaming deduplication: append the row unless its fingerprint was seen. */
  method DedupStep(t: Timed, rows: seq<Review>, seen: set<Key>, ghost cands: seq<Timed>)
    returns (rows': seq<Review>, seen': set<Key>, grew: bool)
    requires Tracks(rows, seen, cands)
    ensures Tracks(rows', seen', cands + [t])
    ensures |Dedup(cands + [t], Key100)| == |Dedup(cands, Key100)| + (if grew then 1 else 0)
  {
    DedupSnoc(cands, t, Key100);
    if Key100(t) in seen {
      return rows, seen, false;
    }
    KeysOfSnoc(Dedup(cands, Key100), t, Key100);
    ReviewsSnoc(Dedup(cands, Key100), t);
    return rows + [t.review], seen + {Key100(t)}, true;
  }

  // ---------------------------------------------------------------------
  // Properties

  lemma KeysOfSnoc<T>(s: seq<T>, x: T, key: T -> Key)
    ensures KeysOf(s + [x], key) == KeysOf(s, key) + {key(x)}
  {
    var t := s + [x];
    forall k | k in KeysOf(t, key) ensures k in KeysOf(s, key) + {key(x)} {
      var i :| 0 <= i < |t| && key(t[i]) == k;
      if i < |s| { assert t[i] == s[i]; }
    }
    forall k | k in KeysOf(s, key) ensures k in KeysOf(t, key) {
      var i :| 0 <= i < |s| && key(s[i]) == k;
      assert t[i] == s[i];
    }
    assert t[|s|] == x;
  }

  lemma ReviewsSnoc(ts: seq<Timed>, t: Timed)
    ensures Reviews(ts + [t]) == Reviews(ts) + [t.review]
  {
    assert (ts + [t])[..|ts|] == ts;
  }

  /** One more element: the streaming step of each deduplication loop. */
  lemma DedupSnoc<T>(s: seq<T>, x: T, key: T -> Key)
    ensures Dedup(s + [x], key) == if key(x) in KeysOf(Dedup(s, key), key) then Dedup(s, key) else Dedup(s, key) + [x]
  {
    assert (s + [x])[..|s|] == s;
  }

  /** Every fingerprint of the input is represented in the output, and no other. */
  lemma {:induction false} DedupKeys<T>(s: seq<T>, key: T -> Key)
    ensures KeysOf(Dedup(s, key), key) == KeysOf(s, key)
  {
    if s != [] {
      var init := s[..|s| - 1];
      var x := s[|s| - 1];
      assert s == init + [x];
      DedupKeys(init, key);
      KeysOfSnoc(init, x, key);
      KeysOfSnoc(Dedup(init, key), x, key);
    }
  }

  /** The output fingerprints are pairwise distinct. */
  lemma {:induction false} DedupDistinct<T>(s: seq<T>, key: T -> Key)
    ensures forall i, j :: 0 <= i < j < |Dedup(s, key)| ==> key(Dedup(s, key)[i]) != key(Dedup(s, key)[j])
  {
    if s != [] {
      var init := s[..|s| - 1];
      var d := Dedup(init, key);
      DedupDistinct(init, key);
      var x := s[|s| - 1];
      if key(x) !in KeysOf(d, key) {
        var e := d + [x];
        forall i, j | 0 <= i < j < |e| ensures key(e[i]) != key(e[j]) {
          if j == |d| {
            assert e[i] == d[i];
            assert key(d[i]) in KeysOf(d, key);
          } else {
            assert e[i] == d[i] && e[j] == d[j];
          }
        }
      }
    }
  }

  /** Adding elements at the end only extends the output. */
  lemma {:induction false} DedupPrefix<T>(s: seq<T>, t: seq<T>, key: T -> Key)
    ensures Dedup(s, key) <= Dedup(s + t, key)
    decreases |t|
  {
    if t != [] {
      var u := s + t;
      assert u[..|u| - 1] == s + t[..|t| - 1];
      DedupPrefix(s, t[..|t| - 1], key);
      var a, b, c := Dedup(s, key), Dedup(u[..|u| - 1], key), Dedup(u, key);
      assert b <= c;
      assert forall k :: 0 <= k < |a| ==> a[k] == b[k] && b[k] == c[k];
    } else {
      assert s + t == s;
    }
  }

  /**
   * The output is the subsequence of the input at its first occurrences:
   * positions strictly increasing, each a first occurrence, every first
   * occurrence listed, and the output element at that position.
   */
  lemma {:induction false} DedupKeepsFirstOccurrences<T>(s: seq<T>, key: T -> Key)
    ensures |Dedup(s, key)| == |FirstIndices(s, key)|
    ensures forall k :: 0 <= k < |FirstIndices(s, key)| ==>
      0 <= FirstIndices(s, key)[k] < |s| && Dedup(s, key)[k] == s[FirstIndices(s, key)[k]]
    ensures forall k, l :: 0 <= k < l < |FirstIndices(s, key)| ==> FirstIndices(s, key)[k] < FirstIndices(s, key)[l]
    ensures forall i :: 0 <= i < |s| ==> (i in FirstIndices(s, key) <==> IsFirst(s, key, i))
  {
    if s != [] {
      var n := |s| - 1;
      var init := s[..n];
      var x := s[n];
      DedupKeepsFirstOccurrences(init, key);
      DedupKeys(init, key);
      var d := Dedup(init, key);
      var fi := FirstIndices(init, key);
      assert forall i :: 0 <= i < n ==> init[i] == s[i];
      assert forall i :: 0 <= i < n ==> (IsFirst(init, key, i) <==> IsFirst(s, key, i)) by {
        forall i | 0 <= i < n ensures IsFirst(init, key, i) <==> IsFirst(s, key, i) {
          assert forall j :: 0 <= j < i ==> init[j] == s[j];
        }
      }
      assert IsFirst(s, key, n) <==> key(x) !in KeysOf(init, key) by {
        if key(x) in KeysOf(init, key) {
          var j :| 0 <= j < n && key(init[j]) == key(x);
          assert key(s[j]) == key(s[n]);
        }
      }
      forall k | 0 <= k < |fi| ensures fi[k] < n {
        assert fi[k] in fi;
      }
    }
  }

  /** Elements of the output come from the input. */
  lemma DedupSubset<T>(s: seq<T>, key: T -> Key, k: int)
    requires 0 <= k < |Dedup(s, key)|
    ensures Dedup(s, key)[k] in s
  {
    DedupKeepsFirstOccurrences(s, key);
  }

  /** Deduplicating twice changes nothing. */
  lemma DedupIdempotent<T>(s: seq<T>, key: T -> Key)
    ensures Dedup(Dedup(s, key), key) == Dedup(s, key)
  {
    DedupDistinct(s, key);
    DistinctIsFixed(Dedup(s, key), key);
  }

  lemma {:induction false} DistinctIsFixed<T>(s: seq<T>, key: T -> Key)
    requires forall i, j :: 0 <= i < j < |s| ==> key(s[i]) != key(s[j])
    ensures Dedup(s, key) == s
  {
    if s != [] {
      var init := s[..|s| - 1];
      DistinctIsFixed(init, key);
      assert key(s[|s| - 1]) !in KeysOf(init, key) by {
        forall j | 0 <= j < |init| ensures key(init[j]) != key(s[|s| - 1]) {
          assert init[j] == s[j];
        }
      }
      assert s == init + [s[|s| - 1]];
    }
  }
}
