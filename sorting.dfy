/** Python's `sorted(values, key = ...)` for values whose keys are distinct strings, and
    `max` over a non-empty set of naturals. */
module Sorting {
  import opened Strings

  /** No two members of s share a key. */
  predicate KeyInjective<T>(s: set<T>, key: T -> string) {
    forall x, y :: x in s && y in s && key(x) == key(y) ==> x == y
  }

  /** Keys strictly increase along r (so r has no repeated member). */
  predicate StrictlySorted<T>(r: seq<T>, key: T -> string) {
    forall i, j :: 0 <= i < j < |r| ==> Less(key(r[i]), key(r[j]))
  }

  predicate IsLeast<T>(m: T, s: set<T>, key: T -> string) {
    m in s && forall y :: y in s && y != m ==> Less(key(m), key(y))
  }

  lemma {:induction false} LeastExists<T>(s: set<T>, key: T -> string)
    requires s != {} && KeyInjective(s, key)
    ensures exists m :: IsLeast(m, s, key)
    decreases |s|
  {
    var z :| z in s;
    var rest := s - {z};
    if rest == {} {
      assert forall y :: y in s ==> y == z || y in rest;
      assert IsLeast(z, s, key);
    } else {
      LeastExists(rest, key);
      var m :| IsLeast(m, rest, key);
      LessTotal(key(z), key(m));
      if Less(key(z), key(m)) {
        forall y | y in s && y != z
          ensures Less(key(z), key(y))
        {
          if y != m {
            LessTransitive(key(z), key(m), key(y));
          }
        }
        assert IsLeast(z, s, key);
      } else {
        assert IsLeast(m, s, key);
      }
    }
  }

  lemma LeastUnique<T>(s: set<T>, key: T -> string)
    ensures forall m1, m2 :: IsLeast(m1, s, key) && IsLeast(m2, s, key) ==> m1 == m2
  {
    forall m1, m2 | IsLeast(m1, s, key) && IsLeast(m2, s, key)
      ensures m1 == m2
    {
      if m1 != m2 {
        LessAsymmetric(key(m1), key(m2));
      }
    }
  }

  lemma PrependLeast<T>(m: T, s: set<T>, rest: seq<T>, key: T -> string)
    requires IsLeast(m, s, key) && StrictlySorted(rest, key)
    requires (forall x :: x in rest <==> x in s - {m}) && |rest| == |s - {m}|
    ensures StrictlySorted([m] + rest, key)
    ensures (forall x :: x in [m] + rest <==> x in s) && |[m] + rest| == |s|
  {
    var r := [m] + rest;
    forall i, j | 0 <= i < j < |r|
      ensures Less(key(r[i]), key(r[j]))
    {
      if i == 0 {
        assert r[j] == rest[j - 1] && rest[j - 1] in rest;
      } else {
        assert r[i] == rest[i - 1] && r[j] == rest[j - 1];
      }
    }
  }

  /** The members of s in increasing key order, each exactly once. */
  function SortedByKey<T(==,!new)>(s: set<T>, key: T -> string): (r: seq<T>)
    requires KeyInjective(s, key)
    ensures StrictlySorted(r, key)
    ensures forall x :: x in r <==> x in s
    ensures |r| == |s|
    decreases |s|
  {
    if s == {} then []
    else
      LeastExists(s, key);
      LeastUnique(s, key);
      var m :| IsLeast(m, s, key);
      var rest := SortedByKey(s - {m}, key);
      PrependLeast(m, s, rest, key);
      [m] + rest
  }

  /** In a strictly sorted sequence, positions follow key order. */
  lemma SortedPositions<T>(r: seq<T>, key: T -> string, i: int, j: int)
    requires StrictlySorted(r, key)
    requires 0 <= i < |r| && 0 <= j < |r| && Less(key(r[i]), key(r[j]))
    ensures i < j
  {
    if j < i {
      LessAsymmetric(key(r[j]), key(r[i]));
    } else if i == j {
      LessIrreflexive(key(r[i]));
    }
  }

  lemma {:induction false} MaxExists(s: set<nat>)
    requires s != {}
    ensures exists m :: m in s && forall x :: x in s ==> x <= m
    decreases |s|
  {
    var z :| z in s;
    if s - {z} != {} {
      MaxExists(s - {z});
      var m :| m in s - {z} && forall x :: x in s - {z} ==> x <= m;
      assert forall x :: x in s ==> x == z || x in s - {z};
      if z > m {
        assert forall x :: x in s ==> x <= z;
      } else {
        assert forall x :: x in s ==> x <= m;
      }
    } else {
      assert forall x :: x in s ==> x == z || x in s - {z};
    }
  }

  /** Python's `max` over a non-empty set of naturals. */
  function MaxOf(s: set<nat>): (m: nat)
    requires s != {}
    ensures m in s && forall x :: x in s ==> x <= m
  {
    MaxExists(s);
    var m :| m in s && forall x :: x in s ==> x <= m;
    m
  }

  /** A map whose every value names its own key has as many distinct values as keys. */
  lemma {:induction false} ValuesCount<K, V>(m: map<K, V>, key: V -> K)
    requires forall p :: p in m ==> key(m[p]) == p
    ensures |m.Values| == |m|
    decreases |m|
  {
    if |m| > 0 {
      var p :| p in m;
      var m' := m - {p};
      ValuesCount(m', key);
      forall v | v in m.Values ensures v in m'.Values + {m[p]} {
        var q :| q in m && m[q] == v;
        if q != p {
          assert m'[q] == v;
        }
      }
      forall v | v in m'.Values + {m[p]} ensures v in m.Values {
        if v != m[p] {
          var q :| q in m' && m'[q] == v;
          assert m[q] == v;
        }
      }
      assert m.Values == m'.Values + {m[p]};
    }
  }
}
