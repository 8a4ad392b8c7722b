/**
 Keys of a strings catalog and the order in which they are written.

 The tool sorts keys with JavaScript's default `Array.prototype.sort`, which
 compares strings code unit by code unit. Here a key is a `seq<char>` and the
 order is the lexicographic order on its characters.
 */
module Keys {

  /** `a` sorts strictly before `b`: a proper prefix, or smaller at the first difference. */
  predicate Less(a: string, b: string)
    decreases |a|
  {
    if |b| == 0 then false
    else if |a| == 0 then true
    else if a[0] != b[0] then a[0] < b[0]
    else Less(a[1..], b[1..])
  }

  /** The keys of a sequence, as a set. */
  function Elems(s: seq<string>): set<string>
  {
    set k | k in s
  }

  predicate Distinct(s: seq<string>)
  {
    forall i, j :: 0 <= i < j < |s| ==> s[i] != s[j]
  }

  predicate StrictlySorted(s: seq<string>)
  {
    forall i, j :: 0 <= i < j < |s| ==> Less(s[i], s[j])
  }

  ghost predicate IsLeast(m: string, s: set<string>)
  {
    m in s && forall x :: x in s && x != m ==> Less(m, x)
  }

  lemma {:induction false} LessIrreflexive(a: string)
    ensures !Less(a, a)
  {
    if |a| > 0 {
      LessIrreflexive(a[1..]);
    }
  }

  lemma {:induction false} LessTransitive(a: string, b: string, c: string)
    requires Less(a, b) && Less(b, c)
    ensures Less(a, c)
    decreases |a|
  {
    if |a| > 0 && a[0] == b[0] && b[0] == c[0] {
      LessTransitive(a[1..], b[1..], c[1..]);
    }
  }

  /** Any two different keys are ordered one way or the other. */
  lemma {:induction false} LessTotal(a: string, b: string)
    requires a != b
    ensures Less(a, b) || Less(b, a)
    decreases |a|
  {
    if |a| > 0 && |b| > 0 && a[0] == b[0] {
      assert a == [a[0]] + a[1..] && b == [b[0]] + b[1..];
      LessTotal(a[1..], b[1..]);
    }
  }

  lemma SortedIsDistinct(s: seq<string>)
    requires StrictlySorted(s)
    ensures Distinct(s)
  {
    forall i, j | 0 <= i < j < |s|
      ensures s[i] != s[j]
    {
      LessIrreflexive(s[i]);
    }
  }

  /** A sequence without repeated keys has as many keys as elements. */
  lemma {:induction false} DistinctCard(s: seq<string>)
    requires Distinct(s)
    ensures |Elems(s)| == |s|
  {
    if s != [] {
      assert Elems(s) == {s[0]} + Elems(s[1..]);
      assert s[0] !in Elems(s[1..]);
      DistinctCard(s[1..]);
    }
  }

  /** Growing a prefix by one element adds that element, which is new when the keys are distinct. */
  lemma PrefixStep(s: seq<string>, j: nat)
    requires j < |s|
    ensures Elems(s[..j + 1]) == Elems(s[..j]) + {s[j]}
    ensures Distinct(s) ==> s[j] !in Elems(s[..j])
  {
    assert s[..j + 1] == s[..j] + [s[j]];
  }

  /** The whole sequence is its longest prefix. */
  lemma PrefixAll(s: seq<string>)
    ensures Elems(s[..|s|]) == Elems(s)
  {
    assert s[..|s|] == s;
  }

  /** Every non-empty set of keys has a least key. */
  lemma {:induction false} HasLeast(s: set<string>)
    requires s != {}
    ensures exists m :: IsLeast(m, s)
    decreases s
  {
    var y :| y in s;
    if s == {y} {
      assert IsLeast(y, s);
    } else {
      HasLeast(s - {y});
      var m :| IsLeast(m, s - {y});
      LessTotal(y, m);
      if Less(y, m) {
        forall x | x in s && x != y
          ensures Less(y, x)
        {
          if x != m {
            LessTransitive(y, m, x);
          }
        }
        assert IsLeast(y, s);
      } else {
        assert IsLeast(m, s);
      }
    }
  }

  /** The keys of a set, in the order the tool writes them. */
  ghost function SortedKeys(s: set<string>): (r: seq<string>)
    ensures StrictlySorted(r) && Elems(r) == s
    decreases s
  {
    if s == {} then []
    else
      HasLeast(s);
      var m :| IsLeast(m, s);
      var rest := SortedKeys(s - {m});
      assert Elems([m] + rest) == {m} + Elems(rest);
      [m] + rest
  }

  /** A set of keys has exactly one strictly ascending enumeration. */
  lemma {:induction false} SortedUnique(x: seq<string>, y: seq<string>)
    requires StrictlySorted(x) && StrictlySorted(y) && Elems(x) == Elems(y)
    ensures x == y
    decreases |x|
  {
    if x == [] {
      assert Elems(x) == {};
      SortedIsDistinct(y);
      DistinctCard(y);
    } else {
      assert x[0] in Elems(y);
      assert y != [];
      if x[0] != y[0] {
        assert y[0] in Elems(y);
        var i :| 0 <= i < |x| && x[i] == y[0];
        var j :| 0 <= j < |y| && y[j] == x[0];
        assert Less(y[0], x[0]);
        assert Less(x[0], y[0]);
        LessTransitive(x[0], y[0], x[0]);
        LessIrreflexive(x[0]);
      }
      SortedIsDistinct(x);
      SortedIsDistinct(y);
      assert Elems(x[1..]) == Elems(x) - {x[0]} by {
        assert x == [x[0]] + x[1..];
      }
      assert Elems(y[1..]) == Elems(y) - {y[0]} by {
        assert y == [y[0]] + y[1..];
      }
      SortedUnique(x[1..], y[1..]);
      assert x == [x[0]] + x[1..] && y == [y[0]] + y[1..];
    }
  }

  /** Putting `k` between the keys below it and the keys above it keeps the order. */
  lemma InsertKeepsSorted(r: seq<string>, i: nat, k: string)
    requires StrictlySorted(r) && i <= |r|
    requires forall j :: 0 <= j < i ==> Less(r[j], k)
    requires i < |r| ==> Less(k, r[i])
    ensures StrictlySorted(r[..i] + [k] + r[i..])
  {
    var t := r[..i] + [k] + r[i..];
    forall p, q | 0 <= p < q < |t|
      ensures Less(t[p], t[q])
    {
      if p < i && q == i {
      } else if p == i && q > i {
        if q - 1 > i {
          LessTransitive(k, r[i], r[q - 1]);
        }
      } else if p < i && q > i {
      } else {
      }
    }
  }

  /**
   `Object.keys(m)`: every key of `m` once. The order is the codec's and is
   left open here; nothing computed from it depends on it.
   */
  method KeysOf<V>(m: map<string, V>) returns (ks: seq<string>)
    ensures Distinct(ks) && Elems(ks) == m.Keys
  {
    ks := [];
    var rest := m.Keys;
    while rest != {}
      invariant Distinct(ks)
      invariant Elems(ks) + rest == m.Keys
      invariant Elems(ks) !! rest
      decreases rest
    {
      var k :| k in rest;
      ks := ks + [k];
      rest := rest - {k};
    }
  }

  /** `keys.sort()` on an array of distinct keys: ascending, same keys. */
  method SortKeys(ks: seq<string>) returns (r: seq<string>)
    requires Distinct(ks)
    ensures StrictlySorted(r) && Elems(r) == Elems(ks) && |r| == |ks|
    ensures r == SortedKeys(Elems(ks))
  {
    r := [];
    for n := 0 to |ks|
      invariant StrictlySorted(r)
      invariant Elems(r) == Elems(ks[..n])
    {
      var k := ks[n];
      assert k !in Elems(ks[..n]);
      var i := 0;
      while i < |r| && Less(r[i], k)
        invariant 0 <= i <= |r|
        invariant forall j :: 0 <= j < i ==> Less(r[j], k)
      {
        i := i + 1;
      }
      if i < |r| {
        assert r[i] in Elems(r);
        LessTotal(k, r[i]);
      }
      InsertKeepsSorted(r, i, k);
      assert r == r[..i] + r[i..];
      assert ks[..n + 1] == ks[..n] + [k];
      assert Elems(r[..i] + [k] + r[i..]) == Elems(r) + {k} by {
        assert Elems(r) == Elems(r[..i]) + Elems(r[i..]);
      }
      r := r[..i] + [k] + r[i..];
    }
    assert ks[..|ks|] == ks;
    SortedUnique(r, SortedKeys(Elems(ks)));
    SortedIsDistinct(r);
    DistinctCard(r);
    DistinctCard(ks);
  }
}
