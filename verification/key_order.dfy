/** The order in which the engine's cursor visits keys: ascending bytewise
    order. Keys are strings of Unicode scalar values, and lexicographic
    order on scalar values coincides with bytewise order on their UTF-8
    encodings, so the order is stated on characters. */
module KeyOrder {
  import opened Types

  /** `a` sorts strictly before `b`: a proper prefix comes first, otherwise
      the first differing character decides. */
  predicate Below(a: Key, b: Key)
    decreases |a|
  {
    if |a| == 0 then |b| > 0
    else if |b| == 0 then false
    else if a[0] != b[0] then a[0] < b[0]
    else Below(a[1..], b[1..])
  }

  lemma {:induction false} BelowIrreflexive(a: Key)
    decreases |a|
    ensures !Below(a, a)
  {
    if |a| > 0 {
      BelowIrreflexive(a[1..]);
    }
  }

  lemma {:induction false} BelowTransitive(a: Key, b: Key, c: Key)
    requires Below(a, b) && Below(b, c)
    decreases |a|
    ensures Below(a, c)
  {
    if |a| > 0 && a[0] == b[0] && b[0] == c[0] {
      BelowTransitive(a[1..], b[1..], c[1..]);
    }
  }

  lemma {:induction false} BelowTotal(a: Key, b: Key)
    requires a != b
    decreases |a|
    ensures Below(a, b) || Below(b, a)
  {
    if |a| > 0 && |b| > 0 && a[0] == b[0] {
      assert a == [a[0]] + a[1..] && b == [b[0]] + b[1..];
      BelowTotal(a[1..], b[1..]);
    }
  }

  /** `m` is the smallest key of `ks`. */
  predicate IsLeast(m: Key, ks: set<Key>) {
    m in ks && forall x | x in ks :: x == m || Below(m, x)
  }

  lemma {:induction false} LeastExists(ks: set<Key>)
    requires ks != {}
    decreases ks
    ensures exists m :: IsLeast(m, ks)
  {
    var x :| x in ks;
    var rest := ks - {x};
    if rest == {} {
      assert ks == {x};
      assert IsLeast(x, ks);
    } else {
      LeastExists(rest);
      var m :| IsLeast(m, rest);
      if Below(x, m) {
        forall y | y in ks
          ensures y == x || Below(x, y)
        {
          if y != x && y != m {
            BelowTransitive(x, m, y);
          }
        }
        assert IsLeast(x, ks);
      } else {
        BelowTotal(x, m);
        assert IsLeast(m, ks);
      }
    }
  }

  lemma LeastUnique(ks: set<Key>)
    ensures forall m1, m2 | IsLeast(m1, ks) && IsLeast(m2, ks) :: m1 == m2
  {
    forall m1, m2 | IsLeast(m1, ks) && IsLeast(m2, ks)
      ensures m1 == m2
    {
      if m1 != m2 {
        BelowTransitive(m1, m2, m1);
        BelowIrreflexive(m1);
      }
    }
  }

  /** The smallest key of a non-empty set. */
  function Least(ks: set<Key>): (m: Key)
    requires ks != {}
    ensures m in ks
    ensures forall x | x in ks && x != m :: Below(m, x)
  {
    LeastExists(ks);
    LeastUnique(ks);
    var m :| IsLeast(m, ks);
    m
  }

  /** Every key strictly before every later one. */
  predicate StrictlySorted(ks: seq<Key>) {
    forall i, j | 0 <= i < j < |ks| :: Below(ks[i], ks[j])
  }

  /** The keys of a set in cursor order. */
  function SortedKeys(ks: set<Key>): (r: seq<Key>)
    decreases ks
    ensures StrictlySorted(r)
    ensures forall k :: k in r <==> k in ks
    ensures |r| == |ks|
  {
    if ks == {} then []
    else
      var m := Least(ks);
      [m] + SortedKeys(ks - {m})
  }
}
