/**
 std::map<std::string, std::string> as the response keeps its headers: an
 association list kept in strictly ascending key order, so that iterating
 over it visits the keys in that order whatever order they were set in.
 Keys compare lexicographically by character code, as std::string does
 with its unsigned-byte character comparison.
 */
module OrderedMap {
  import opened Text

  type Entries = seq<(string, string)>

  /** Strict lexicographic order on strings. */
  predicate Less(a: string, b: string)
    decreases |a|
  {
    if a == [] then b != []
    else if b == [] then false
    else if a[0] != b[0] then a[0] < b[0]
    else Less(a[1..], b[1..])
  }

  lemma {:induction false} LessIrreflexive(a: string)
    ensures !Less(a, a)
    decreases |a|
  {
    if a != [] {
      LessIrreflexive(a[1..]);
    }
  }

  lemma {:induction false} LessAsymmetric(a: string, b: string)
    requires Less(a, b)
    ensures !Less(b, a)
    decreases |a|
  {
    if a != [] && b != [] && a[0] == b[0] {
      LessAsymmetric(a[1..], b[1..]);
    }
  }

  lemma {:induction false} LessTotal(a: string, b: string)
    ensures a == b || Less(a, b) || Less(b, a)
    decreases |a|
  {
    if a != [] && b != [] && a[0] == b[0] {
      LessTotal(a[1..], b[1..]);
      if a[1..] == b[1..] {
        assert a == [a[0]] + a[1..] && b == [b[0]] + b[1..];
      }
    }
  }

  lemma {:induction false} LessTransitive(a: string, b: string, c: string)
    requires Less(a, b) && Less(b, c)
    ensures Less(a, c)
    decreases |a|
  {
    if a != [] && b != [] && c != [] && a[0] == b[0] && b[0] == c[0] {
      LessTransitive(a[1..], b[1..], c[1..]);
    }
  }

  /** Comparing two strings with a common first part compares what follows it. */
  lemma {:induction false} LessCommonPrefix(p: string, a: string, b: string)
    ensures Less(p + a, p + b) == Less(a, b)
    decreases |p|
  {
    if p != [] {
      var pa, pb := p + a, p + b;
      assert pa != [] && pb != [] && pa[0] == pb[0];
      assert pa[1..] == p[1..] + a && pb[1..] == p[1..] + b;
      LessCommonPrefix(p[1..], a, b);
      assert Less(pa, pb) == Less(pa[1..], pb[1..]);
    } else {
      assert p + a == a && p + b == b;
    }
  }

  /** Every key of `e` lies strictly above `b`. */
  ghost predicate Below(b: string, e: Entries) {
    forall i :: 0 <= i < |e| ==> Less(b, e[i].0)
  }

  /** Keys strictly ascending from each entry to the rest. */
  ghost predicate Sorted(e: Entries) {
    e == [] || (Below(e[0].0, e[1..]) && Sorted(e[1..]))
  }

  /** The dictionary an entry list denotes (the first entry for a key wins; sorted lists have one). */
  function ToMap(e: Entries): map<string, string> {
    if e == [] then map[] else ToMap(e[1..])[e[0].0 := e[0].1]
  }

  /** std::map::find. */
  function Lookup(e: Entries, k: string): (r: Option<string>)
    ensures r.Some? <==> k in ToMap(e)
    ensures r.Some? ==> ToMap(e)[k] == r.value
  {
    if e == [] then None
    else if e[0].0 == k then Some(e[0].1)
    else Lookup(e[1..], k)
  }

  /** std::map::operator[] followed by an assignment: insert the key in its place, or overwrite its value. */
  function Upsert(e: Entries, k: string, v: string): (r: Entries)
    ensures ToMap(r) == ToMap(e)[k := v]
  {
    if e == [] then [(k, v)]
    else if e[0].0 == k then [(k, v)] + e[1..]
    else if Less(k, e[0].0) then [(k, v)] + e
    else [e[0]] + Upsert(e[1..], k, v)
  }

  /** A key of an entry list is one of its entries' keys. */
  lemma {:induction false} ToMapKeys(e: Entries, k: string)
    ensures k in ToMap(e) <==> exists i :: 0 <= i < |e| && e[i].0 == k
  {
    if e != [] {
      ToMapKeys(e[1..], k);
      if k in ToMap(e[1..]) {
        var i :| 0 <= i < |e[1..]| && e[1..][i].0 == k;
        assert e[i + 1].0 == k;
      }
      if exists i :: 0 <= i < |e| && e[i].0 == k {
        var i :| 0 <= i < |e| && e[i].0 == k;
        if i > 0 {
          assert e[1..][i - 1].0 == k;
        }
      }
    }
  }

  /** A bound below every key of `e` is below every key of its dictionary. */
  lemma BelowKeys(b: string, e: Entries, k: string)
    requires Below(b, e) && k in ToMap(e)
    ensures Less(b, k)
  {
    ToMapKeys(e, k);
  }

  lemma {:induction false} UpsertBelow(e: Entries, k: string, v: string, b: string)
    requires Below(b, e) && Less(b, k)
    ensures Below(b, Upsert(e, k, v))
  {
    if e != [] && e[0].0 != k && !Less(k, e[0].0) {
      UpsertBelow(e[1..], k, v, b);
    }
  }

  /** Setting a header keeps the keys in ascending order. */
  lemma {:induction false} UpsertSorted(e: Entries, k: string, v: string)
    requires Sorted(e)
    ensures Sorted(Upsert(e, k, v))
  {
    if e == [] {
    } else if e[0].0 == k {
      assert ([(k, v)] + e[1..])[1..] == e[1..];
    } else if Less(k, e[0].0) {
      var r := [(k, v)] + e;
      assert r[1..] == e;
      forall i | 0 <= i < |e| ensures Less(k, e[i].0) {
        if i > 0 {
          assert e[1..][i - 1] == e[i];
          LessTransitive(k, e[0].0, e[i].0);
        }
      }
    } else {
      LessTotal(k, e[0].0);
      UpsertSorted(e[1..], k, v);
      UpsertBelow(e[1..], k, v, e[0].0);
      assert ([e[0]] + Upsert(e[1..], k, v))[1..] == Upsert(e[1..], k, v);
    }
  }

  /** Iterating a sorted list visits its keys in strictly ascending order. */
  lemma {:induction false} SortedAscending(e: Entries)
    requires Sorted(e)
    ensures forall i, j :: 0 <= i < j < |e| ==> Less(e[i].0, e[j].0)
  {
    if e != [] {
      SortedAscending(e[1..]);
      forall i, j | 0 <= i < j < |e| ensures Less(e[i].0, e[j].0) {
        if i > 0 {
          assert e[i] == e[1..][i - 1] && e[j] == e[1..][j - 1];
        } else {
          assert e[j] == e[1..][j - 1];
        }
      }
    }
  }

  /** A sorted entry list is the only sorted one for its dictionary. */
  lemma {:induction false} SortedCanonical(e1: Entries, e2: Entries)
    requires Sorted(e1) && Sorted(e2) && ToMap(e1) == ToMap(e2)
    ensures e1 == e2
    decreases |e1|
  {
    assert e1 == [] <==> e2 == [] by {
      if e1 != [] {
        assert e1[0].0 in ToMap(e1);
      }
      if e2 != [] {
        assert e2[0].0 in ToMap(e2);
      }
    }
    if e1 != [] {
      var x, y := e1[0], e2[0];
      var t1, t2 := e1[1..], e2[1..];
      assert x.0 in ToMap(e2);
      assert y.0 in ToMap(e1);
      if x.0 != y.0 {
        BelowKeys(y.0, t2, x.0);
        BelowKeys(x.0, t1, y.0);
        LessAsymmetric(x.0, y.0);
        assert false;
      }
      if x.0 in ToMap(t1) {
        BelowKeys(x.0, t1, x.0);
        LessIrreflexive(x.0);
      }
      if y.0 in ToMap(t2) {
        BelowKeys(y.0, t2, y.0);
        LessIrreflexive(y.0);
      }
      assert ToMap(t1) == ToMap(e1) - {x.0};
      assert ToMap(t2) == ToMap(e2) - {y.0};
      SortedCanonical(t1, t2);
      assert e1 == [x] + t1 && e2 == [y] + t2;
    }
  }

  /** On a sorted list, setting two different keys gives the same list in either order:
      the order of the setter calls never shows in the output. */
  lemma UpsertCommutes(e: Entries, k1: string, v1: string, k2: string, v2: string)
    requires Sorted(e) && k1 != k2
    ensures Upsert(Upsert(e, k1, v1), k2, v2) == Upsert(Upsert(e, k2, v2), k1, v1)
  {
    var a, b := Upsert(e, k1, v1), Upsert(e, k2, v2);
    var r1, r2 := Upsert(a, k2, v2), Upsert(b, k1, v1);
    UpsertSorted(e, k1, v1);
    UpsertSorted(a, k2, v2);
    UpsertSorted(e, k2, v2);
    UpsertSorted(b, k1, v1);
    var m := ToMap(e);
    assert ToMap(r1) == m[k1 := v1][k2 := v2];
    assert ToMap(r2) == m[k2 := v2][k1 := v1];
    MapUpdatesCommute(m, k1, v1, k2, v2);
    SortedCanonical(r1, r2);
  }

  lemma MapUpdatesCommute(m: map<string, string>, k1: string, v1: string, k2: string, v2: string)
    requires k1 != k2
    ensures m[k1 := v1][k2 := v2] == m[k2 := v2][k1 := v1]
  {
  }
}
