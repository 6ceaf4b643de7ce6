/** The relational operators the pipelines are built from, over finite
    sequences of rows: row-wise projection, filtering, and keeping the
    first row of every key (the tie-break this model fixes for
    `drop_duplicates`). */
module Relational {

  /** Row-wise projection (`select`, `withColumn`, `withColumnRenamed`). */
  function MapRows<T, U>(s: seq<T>, f: T -> U): (r: seq<U>)
    ensures |r| == |s|
    ensures forall i :: 0 <= i < |s| ==> r[i] == f(s[i])
  {
    seq(|s|, i requires 0 <= i < |s| => f(s[i]))
  }

  /** `filter`: keeps, in order, the rows satisfying `p`. */
  function Filter<T>(s: seq<T>, p: T -> bool): (r: seq<T>)
    ensures |r| <= |s|
    ensures forall i :: 0 <= i < |r| ==> r[i] in s && p(r[i])
    ensures forall i :: 0 <= i < |s| && p(s[i]) ==> s[i] in r
  {
    if s == [] then [] else (if p(s[0]) then [s[0]] else []) + Filter(s[1..], p)
  }

  /** A filter keeps every passing row as often as it occurs and drops every
      other row. */
  lemma {:induction false} FilterMultiplicity<T>(s: seq<T>, p: T -> bool)
    ensures forall x :: multiset(Filter(s, p))[x] == if p(x) then multiset(s)[x] else 0
  {
    if s != [] {
      FilterMultiplicity(s[1..], p);
      assert s == [s[0]] + s[1..];
      assert multiset(s) == multiset([s[0]]) + multiset(s[1..]);
      var head := if p(s[0]) then [s[0]] else [];
      assert Filter(s, p) == head + Filter(s[1..], p);
      assert multiset(Filter(s, p)) == multiset(head) + multiset(Filter(s[1..], p));
    }
  }

  /** No two rows of `s` share a key. */
  ghost predicate KeysUnique<T, K>(s: seq<T>, key: T -> K)
  {
    forall a, b :: 0 <= a < b < |s| ==> key(s[a]) != key(s[b])
  }

  /** No element occurs twice in `s`. */
  ghost predicate Distinct<T>(s: seq<T>)
  {
    forall a, b :: 0 <= a < b < |s| ==> s[a] != s[b]
  }

  /** A sequence without repetitions has as many elements as its set. */
  lemma {:induction false} DistinctCardinality<T>(s: seq<T>)
    requires Distinct(s)
    ensures |set x | x in s| == |s|
  {
    if s != [] {
      var t := s[1..];
      DistinctCardinality(t);
      assert (set x | x in s) == {s[0]} + (set x | x in t);
      assert s[0] !in (set x | x in t);
    }
  }

  /** Row `i` is the first row of `s` carrying its key. */
  ghost predicate IsFirstOccurrence<T, K>(s: seq<T>, i: int, key: T -> K)
    requires 0 <= i < |s|
  {
    forall j :: 0 <= j < i ==> key(s[j]) != key(s[i])
  }

  /** `x` is the first row of `s` carrying its key. */
  ghost predicate FirstOccurrenceOf<T, K>(s: seq<T>, x: T, key: T -> K)
  {
    exists i :: 0 <= i < |s| && s[i] == x && IsFirstOccurrence(s, i, key)
  }

  /** Every row of `r` is the first row of `s` carrying its key. */
  ghost predicate AllFirstOccurrences<T, K>(s: seq<T>, r: seq<T>, key: T -> K)
  {
    forall k :: 0 <= k < |r| ==> FirstOccurrenceOf(s, r[k], key)
  }

  /** Scans `s` left to right, keeping a row when its key is not yet in `seen`. */
  function DedupFrom<T, K(==)>(s: seq<T>, key: T -> K, seen: set<K>): (r: seq<T>)
    ensures |r| <= |s|
  {
    if s == [] then []
    else if key(s[0]) in seen then DedupFrom(s[1..], key, seen)
    else [s[0]] + DedupFrom(s[1..], key, seen + {key(s[0])})
  }

  /** `drop_duplicates([key])` with the first row of every key as representative. */
  function DedupFirst<T, K(==)>(s: seq<T>, key: T -> K): (r: seq<T>)
    ensures |r| <= |s|
  {
    DedupFrom(s, key, {})
  }

  /** The kept rows have pairwise distinct keys, none of them already `seen`. */
  lemma {:induction false} DedupFromKeys<T, K>(s: seq<T>, key: T -> K, seen: set<K>)
    ensures KeysUnique(DedupFrom(s, key, seen), key)
    ensures forall k :: 0 <= k < |DedupFrom(s, key, seen)| ==> key(DedupFrom(s, key, seen)[k]) !in seen
  {
    if s != [] {
      var seen' := if key(s[0]) in seen then seen else seen + {key(s[0])};
      DedupFromKeys(s[1..], key, seen');
      var rest := DedupFrom(s[1..], key, seen');
      var r := DedupFrom(s, key, seen);
      if key(s[0]) !in seen {
        assert r == [s[0]] + rest;
        forall a, b | 0 <= a < b < |r| ensures key(r[a]) != key(r[b]) {
          assert r[b] == rest[b - 1];
          if a > 0 { assert r[a] == rest[a - 1]; }
        }
        forall k | 0 <= k < |r| ensures key(r[k]) !in seen {
          if k > 0 { assert r[k] == rest[k - 1]; }
        }
      }
    }
  }

  /** Every kept row is the first row of `s` with its key. */
  lemma {:induction false} DedupFromSound<T, K>(s: seq<T>, key: T -> K, seen: set<K>)
    ensures AllFirstOccurrences(s, DedupFrom(s, key, seen), key)
  {
    if s != [] {
      var seen' := if key(s[0]) in seen then seen else seen + {key(s[0])};
      DedupFromSound(s[1..], key, seen');
      var r := DedupFrom(s, key, seen);
      forall k | 0 <= k < |r| ensures FirstOccurrenceOf(s, r[k], key) {
        DedupStepSound(s, key, seen, k);
      }
    }
  }

  /** One step of `DedupFromSound`: row `k` of the scan of `s` is a first
      occurrence, given that the scan of the tail keeps only first occurrences. */
  lemma DedupStepSound<T, K>(s: seq<T>, key: T -> K, seen: set<K>, k: int)
    requires s != []
    requires AllFirstOccurrences(s[1..], DedupFrom(s[1..], key, if key(s[0]) in seen then seen else seen + {key(s[0])}), key)
    requires 0 <= k < |DedupFrom(s, key, seen)|
    ensures FirstOccurrenceOf(s, DedupFrom(s, key, seen)[k], key)
  {
    var t := s[1..];
    var seen' := if key(s[0]) in seen then seen else seen + {key(s[0])};
    DedupFromKeys(t, key, seen');
    var rest := DedupFrom(t, key, seen');
    var r := DedupFrom(s, key, seen);
    assert r == if key(s[0]) in seen then rest else [s[0]] + rest;
    if key(s[0]) !in seen && k == 0 {
      assert s[0] == r[k] && IsFirstOccurrence(s, 0, key);
    } else {
      var k' := if key(s[0]) in seen then k else k - 1;
      assert r[k] == rest[k'];
      var i' :| 0 <= i' < |t| && t[i'] == rest[k'] && IsFirstOccurrence(t, i', key);
      assert key(rest[k']) != key(s[0]);
      assert s[i' + 1] == r[k];
      assert IsFirstOccurrence(s, i' + 1, key) by {
        forall j | 0 <= j < i' + 1 ensures key(s[j]) != key(s[i' + 1]) {
          if j > 0 { assert s[j] == t[j - 1]; }
        }
      }
    }
  }

  /** Every first occurrence of a key not yet `seen` is kept, and every key not
      yet `seen` survives. */
  lemma {:induction false} DedupFromComplete<T, K>(s: seq<T>, key: T -> K, seen: set<K>)
    ensures forall i :: 0 <= i < |s| && key(s[i]) !in seen && IsFirstOccurrence(s, i, key) ==>
      s[i] in DedupFrom(s, key, seen)
    ensures forall i :: 0 <= i < |s| && key(s[i]) !in seen ==>
      exists k :: 0 <= k < |DedupFrom(s, key, seen)| && key(DedupFrom(s, key, seen)[k]) == key(s[i])
  {
    if s != [] {
      var t := s[1..];
      var seen' := if key(s[0]) in seen then seen else seen + {key(s[0])};
      DedupFromComplete(t, key, seen');
      var rest := DedupFrom(t, key, seen');
      var r := DedupFrom(s, key, seen);
      assert r == if key(s[0]) in seen then rest else [s[0]] + rest;
      forall i | 0 <= i < |s| && key(s[i]) !in seen && IsFirstOccurrence(s, i, key)
        ensures s[i] in r
      {
        if i > 0 {
          assert key(s[0]) != key(s[i]);
          assert t[i - 1] == s[i];
          assert IsFirstOccurrence(t, i - 1, key) by {
            forall j | 0 <= j < i - 1 ensures key(t[j]) != key(t[i - 1]) {
              assert t[j] == s[j + 1];
            }
          }
        }
      }
      forall i | 0 <= i < |s| && key(s[i]) !in seen
        ensures exists k :: 0 <= k < |r| && key(r[k]) == key(s[i])
      {
        if key(s[i]) == key(s[0]) {
          assert key(r[0]) == key(s[i]);
        } else {
          assert t[i - 1] == s[i];
          var k' :| 0 <= k' < |rest| && key(rest[k']) == key(t[i - 1]);
          var k := if key(s[0]) in seen then k' else k' + 1;
          assert r[k] == rest[k'];
        }
      }
    }
  }

  /** `DedupFirst` keeps exactly the first occurrence of every key, once: its keys
      are unique, each kept row is the first row of `s` with its key, each such
      first row is kept, and every key of `s` survives. */
  lemma DedupFirstSpec<T, K>(s: seq<T>, key: T -> K)
    ensures KeysUnique(DedupFirst(s, key), key)
    ensures forall k :: 0 <= k < |DedupFirst(s, key)| ==>
      exists i :: 0 <= i < |s| && s[i] == DedupFirst(s, key)[k] && IsFirstOccurrence(s, i, key)
    ensures forall i :: 0 <= i < |s| && IsFirstOccurrence(s, i, key) ==> s[i] in DedupFirst(s, key)
    ensures forall i :: 0 <= i < |s| ==>
      exists k :: 0 <= k < |DedupFirst(s, key)| && key(DedupFirst(s, key)[k]) == key(s[i])
  {
    DedupFromKeys(s, key, {});
    DedupFromSound(s, key, {});
    DedupFromComplete(s, key, {});
  }

  /** Filtering keeps keys unique. */
  lemma {:induction false} FilterKeysUnique<T, K>(s: seq<T>, p: T -> bool, key: T -> K)
    requires KeysUnique(s, key)
    ensures KeysUnique(Filter(s, p), key)
  {
    if s != [] {
      FilterKeysUnique(s[1..], p, key);
      var rest := Filter(s[1..], p);
      if p(s[0]) {
        var r := Filter(s, p);
        assert r == [s[0]] + rest;
        forall a, b | 0 <= a < b < |r| ensures key(r[a]) != key(r[b]) {
          if a == 0 {
            assert rest[b - 1] in s[1..];
            var j :| 0 <= j < |s[1..]| && s[1..][j] == r[b];
            assert s[j + 1] == r[b];
          } else {
            assert r[a] == rest[a - 1] && r[b] == rest[b - 1];
          }
        }
      }
    }
  }

  /** Dropping null keys after deduplication, as the source does, gives the same
      rows as dropping them first: the filter `p` only looks at the key, through `pk`. */
  lemma {:induction false} DedupThenFilter<T, K>(s: seq<T>, key: T -> K, p: T -> bool, pk: K -> bool,
                                                  seen1: set<K>, seen2: set<K>)
    requires forall x :: p(x) == pk(key(x))
    requires forall k :: pk(k) ==> (k in seen1 <==> k in seen2)
    ensures Filter(DedupFrom(s, key, seen1), p) == DedupFrom(Filter(s, p), key, seen2)
  {
    if s != [] {
      var x := s[0];
      var fs := Filter(s, p);
      var seen1' := if key(x) in seen1 then seen1 else seen1 + {key(x)};
      var head := if key(x) in seen1 then [] else [x];
      assert DedupFrom(s, key, seen1) == head + DedupFrom(s[1..], key, seen1');
      FilterAppend(head, DedupFrom(s[1..], key, seen1'), p);
      if p(x) {
        assert fs == [x] + Filter(s[1..], p);
        assert fs[0] == x && fs[1..] == Filter(s[1..], p);
        var seen2' := if key(x) in seen2 then seen2 else seen2 + {key(x)};
        assert DedupFrom(fs, key, seen2) == head + DedupFrom(fs[1..], key, seen2');
        assert Filter(head, p) == head;
        DedupThenFilter(s[1..], key, p, pk, seen1', seen2');
      } else {
        assert fs == Filter(s[1..], p);
        assert Filter(head, p) == [];
        DedupThenFilter(s[1..], key, p, pk, seen1', seen2);
      }
    }
  }

  /** Filtering distributes over concatenation. */
  lemma {:induction false} FilterAppend<T>(a: seq<T>, b: seq<T>, p: T -> bool)
    ensures Filter(a + b, p) == Filter(a, p) + Filter(b, p)
  {
    if a == [] {
      assert a + b == b;
    } else {
      assert (a + b)[0] == a[0];
      assert (a + b)[1..] == a[1..] + b;
      FilterAppend(a[1..], b, p);
    }
  }

  /** A row of `Filter(DedupFirst(s, key), p)` passes `p` and is the first row
      of `s` with its key. */
  lemma DedupFilterRow<T, K>(s: seq<T>, key: T -> K, p: T -> bool, k: int)
    requires 0 <= k < |Filter(DedupFirst(s, key), p)|
    ensures p(Filter(DedupFirst(s, key), p)[k])
    ensures exists i :: 0 <= i < |s| && s[i] == Filter(DedupFirst(s, key), p)[k] && IsFirstOccurrence(s, i, key)
  {
    var d := DedupFirst(s, key);
    var x := Filter(d, p)[k];
    assert x in d;
    var m :| 0 <= m < |d| && d[m] == x;
    DedupFromSound(s, key, {});
    assert AllFirstOccurrences(s, d, key);
  }

  /** `Filter(DedupFirst(s, key), p)` has unique keys. */
  lemma DedupFilterUnique<T, K>(s: seq<T>, key: T -> K, p: T -> bool)
    ensures KeysUnique(Filter(DedupFirst(s, key), p), key)
  {
    DedupFromKeys(s, key, {});
    FilterKeysUnique(DedupFirst(s, key), p, key);
  }

  /** When `p` only looks at the key, every key of a row of `s` passing `p`
      survives in `Filter(DedupFirst(s, key), p)`. */
  lemma DedupFilterComplete<T, K>(s: seq<T>, key: T -> K, p: T -> bool, pk: K -> bool, i: int)
    requires forall x :: p(x) == pk(key(x))
    requires 0 <= i < |s| && p(s[i])
    ensures exists k :: 0 <= k < |Filter(DedupFirst(s, key), p)| && key(Filter(DedupFirst(s, key), p)[k]) == key(s[i])
  {
    var d := DedupFirst(s, key);
    DedupFromComplete(s, key, {});
    var m :| 0 <= m < |d| && key(d[m]) == key(s[i]);
    DedupFromSound(s, key, {});
    assert AllFirstOccurrences(s, d, key);
    var j :| 0 <= j < |s| && s[j] == d[m] && IsFirstOccurrence(s, j, key);
    assert p(s[j]) == pk(key(s[j])) && p(s[i]) == pk(key(s[i]));
    assert d[m] in Filter(d, p);
    var k :| 0 <= k < |Filter(d, p)| && Filter(d, p)[k] == d[m];
  }

  /** Filtering after a projection keeps as many rows as filtering the
      original rows by the composed test. */
  lemma {:induction false} FilterMapRowsCount<T, U>(s: seq<T>, f: T -> U, p: U -> bool, q: T -> bool)
    requires forall x :: q(x) == p(f(x))
    ensures |Filter(MapRows(s, f), p)| == |Filter(s, q)|
  {
    if s != [] {
      FilterMapRowsCount(s[1..], f, p, q);
      assert MapRows(s, f) == [f(s[0])] + MapRows(s[1..], f);
      FilterAppend([f(s[0])], MapRows(s[1..], f), p);
    }
  }

  /** Every key of `s` survives `DedupFirst`. */
  lemma DedupFirstKeepsKey<T, K>(s: seq<T>, key: T -> K, i: int)
    requires 0 <= i < |s|
    ensures exists k :: 0 <= k < |DedupFirst(s, key)| && key(DedupFirst(s, key)[k]) == key(s[i])
  {
    DedupFromComplete(s, key, {});
    assert key(s[i]) !in {};
    var k :| 0 <= k < |DedupFrom(s, key, {})| && key(DedupFrom(s, key, {})[k]) == key(s[i]);
    assert DedupFirst(s, key)[k] == DedupFrom(s, key, {})[k];
  }
}
