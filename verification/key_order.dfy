/**
  `sorted()` over the module names: the keys of a mapping listed once each,
  in strictly ascending `str` order.
 */
module KeyOrder {
  import opened Text

  predicate Ascending(s: seq<string>) {
    forall i, j :: 0 <= i < j < |s| ==> Less(s[i], s[j])
  }

  /** `k` is the smallest element of `keys`. */
  predicate Least(k: string, keys: set<string>) {
    k in keys && forall j :: j in keys ==> !Less(j, k)
  }

  lemma {:induction false} LeastExists(keys: set<string>)
    requires keys != {}
    ensures exists k :: Least(k, keys)
    decreases keys
  {
    var x :| x in keys;
    LessIrreflexive(x);
    if keys - {x} == {} {
      assert keys == {x};
      assert Least(x, keys);
    } else {
      LeastExists(keys - {x});
      var m :| Least(m, keys - {x});
      if Less(x, m) {
        forall j | j in keys ensures !Less(j, x) {
          if j != x && Less(j, x) {
            LessTransitive(j, x, m);
          }
        }
        assert Least(x, keys);
      } else {
        assert Least(m, keys);
      }
    }
  }

  /** `sorted(keys)`. */
  function Sorted(keys: set<string>): (r: seq<string>)
    ensures Ascending(r)
    ensures forall k :: k in r <==> k in keys
    ensures |r| == |keys|
    decreases keys
  {
    if keys == {} then []
    else
      LeastExists(keys);
      LeastUnique(keys);
      var k :| Least(k, keys);
      var rest := Sorted(keys - {k});
      LeastFirst(k, keys, rest);
      [k] + rest
  }

  /** A set has at most one least element. */
  lemma LeastUnique(keys: set<string>)
    ensures forall a, b :: Least(a, keys) && Least(b, keys) ==> a == b
  {
    forall a, b | Least(a, keys) && Least(b, keys) ensures a == b {
      LessConnected(a, b);
    }
  }

  /** The least key followed by the rest in ascending order is ascending. */
  lemma LeastFirst(k: string, keys: set<string>, rest: seq<string>)
    requires Least(k, keys) && Ascending(rest)
    requires forall j :: j in rest <==> j in keys - {k}
    ensures Ascending([k] + rest)
  {
    forall j | 0 <= j < |rest| ensures Less(k, rest[j]) {
      assert rest[j] in keys - {k};
      LessConnected(rest[j], k);
    }
    AscendingJoin([k], rest);
  }

  /** Two ascending lists of the same strings are the same list: the order
      a mapping's entries are listed in depends on nothing but its keys. */
  lemma {:induction false} AscendingUnique(a: seq<string>, b: seq<string>)
    requires Ascending(a) && Ascending(b)
    requires forall k :: k in a <==> k in b
    ensures a == b
    decreases |a|
  {
    assert |a| > 0 ==> |b| > 0 by {
      if |a| > 0 { assert a[0] in b; }
    }
    assert |b| > 0 ==> |a| > 0 by {
      if |b| > 0 { assert b[0] in a; }
    }
    if |a| > 0 {
      LessIsStrictTotalOrder();
      assert a[0] == b[0] by {
        assert b[0] in a && a[0] in b;
        var i :| 0 <= i < |a| && a[i] == b[0];
        var j :| 0 <= j < |b| && b[j] == a[0];
      }
      forall k ensures k in a[1..] <==> k in b[1..] {
        if k in a[1..] {
          var i :| 1 <= i < |a| && a[i] == k;
          assert Less(a[0], k);
          assert k in b && k != b[0];
        }
        if k in b[1..] {
          var j :| 1 <= j < |b| && b[j] == k;
          assert Less(b[0], k);
          assert k in a && k != a[0];
        }
      }
      AscendingUnique(a[1..], b[1..]);
      assert a == [a[0]] + a[1..] && b == [b[0]] + b[1..];
    }
  }

  function Below(keys: set<string>, k: string): set<string> {
    set j | j in keys && Less(j, k)
  }

  function Above(keys: set<string>, k: string): set<string> {
    set j | j in keys && Less(k, j)
  }

  /** Two ascending lists, every element of the first below every element
      of the second, make an ascending list. */
  lemma AscendingJoin(lo: seq<string>, hi: seq<string>)
    requires Ascending(lo) && Ascending(hi)
    requires forall i, j :: 0 <= i < |lo| && 0 <= j < |hi| ==> Less(lo[i], hi[j])
    ensures Ascending(lo + hi)
  {
    var s := lo + hi;
    forall i, j | 0 <= i < j < |s| ensures Less(s[i], s[j]) {
      if j < |lo| {
        assert s[i] == lo[i] && s[j] == lo[j];
      } else if i < |lo| {
        assert s[i] == lo[i] && s[j] == hi[j - |lo|];
      } else {
        assert s[i] == hi[i - |lo|] && s[j] == hi[j - |lo|];
      }
    }
  }

  /** The smaller keys, listed, followed by the larger keys, listed, are in
      ascending order. */
  lemma WithoutAscending(keys: set<string>, k: string)
    ensures Ascending(Sorted(Below(keys, k)) + Sorted(Above(keys, k)))
  {
    var lo := Sorted(Below(keys, k));
    var hi := Sorted(Above(keys, k));
    forall i, j | 0 <= i < |lo| && 0 <= j < |hi| ensures Less(lo[i], hi[j]) {
      assert lo[i] in Below(keys, k) && hi[j] in Above(keys, k);
      LessTransitive(lo[i], k, hi[j]);
    }
    AscendingJoin(lo, hi);
  }

  /** Every key other than `k` is below or above it. */
  lemma BelowOrAbove(keys: set<string>, k: string)
    ensures forall x :: x in keys && x != k ==> x in Below(keys, k) || x in Above(keys, k)
  {
    forall x | x in keys && x != k ensures x in Below(keys, k) || x in Above(keys, k) {
      LessConnected(x, k);
    }
  }

  /** A key sits in the sorted list after exactly the smaller keys and
      before exactly the larger ones. */
  lemma SortedAround(keys: set<string>, k: string)
    requires k in keys
    ensures Sorted(keys) == Sorted(Below(keys, k)) + [k] + Sorted(Above(keys, k))
  {
    AroundAscending(keys, k);
    AroundMembers(keys, k);
    AscendingUnique(Sorted(Below(keys, k)) + [k] + Sorted(Above(keys, k)), Sorted(keys));
  }

  lemma AroundAscending(keys: set<string>, k: string)
    ensures Ascending(Sorted(Below(keys, k)) + [k] + Sorted(Above(keys, k)))
  {
    var lo := Sorted(Below(keys, k));
    var hi := Sorted(Above(keys, k));
    var khi := [k] + hi;
    forall j | 0 <= j < |hi| ensures Less(k, hi[j]) {
      assert hi[j] in Above(keys, k);
    }
    AscendingJoin([k], hi);
    forall i, j | 0 <= i < |lo| && 0 <= j < |khi| ensures Less(lo[i], khi[j]) {
      assert lo[i] in Below(keys, k);
      if j > 0 {
        assert khi[j] == hi[j - 1] && hi[j - 1] in Above(keys, k);
        LessTransitive(lo[i], k, hi[j - 1]);
      }
    }
    AscendingJoin(lo, khi);
    assert lo + khi == lo + [k] + hi;
  }

  lemma AroundMembers(keys: set<string>, k: string)
    requires k in keys
    ensures forall x :: x in Sorted(Below(keys, k)) + [k] + Sorted(Above(keys, k)) <==> x in Sorted(keys)
  {
    var lo := Sorted(Below(keys, k));
    var hi := Sorted(Above(keys, k));
    BelowOrAbove(keys, k);
    forall x ensures x in lo + [k] + hi <==> x in Sorted(keys) {
      if x in lo { assert x in Below(keys, k); }
      if x in hi { assert x in Above(keys, k); }
    }
  }

  /** Taking one key out of the set takes exactly that key out of the list. */
  lemma SortedWithout(keys: set<string>, k: string)
    requires k in keys
    ensures Sorted(keys - {k}) == Sorted(Below(keys, k)) + Sorted(Above(keys, k))
  {
    var lo := Sorted(Below(keys, k));
    var hi := Sorted(Above(keys, k));
    WithoutAscending(keys, k);
    WithoutMembers(keys, k);
    AscendingUnique(lo + hi, Sorted(keys - {k}));
  }

  lemma WithoutMembers(keys: set<string>, k: string)
    ensures forall x :: x in Sorted(Below(keys, k)) + Sorted(Above(keys, k)) <==> x in Sorted(keys - {k})
  {
    var lo := Sorted(Below(keys, k));
    var hi := Sorted(Above(keys, k));
    BelowOrAbove(keys, k);
    LessIrreflexive(k);
    forall x ensures x in lo + hi <==> x in Sorted(keys - {k}) {
      if x in lo { assert x in Below(keys, k); }
      if x in hi { assert x in Above(keys, k); }
    }
  }
}
