/** Python's ordering of str values (lexicographic by code point) and the sorted listing of
    a set of distinct names, which is what sorted(..., key=lambda x: x[0]) gives when the
    keys come from a dict. */
module Ordering {

  /** a <= b in Python's string order. */
  predicate Below(a: string, b: string) {
    a == [] || (b != [] && (a[0] < b[0] || (a[0] == b[0] && Below(a[1..], b[1..]))))
  }

  lemma {:induction false} BelowReflexive(a: string)
    ensures Below(a, a)
  {
    if a != [] {
      BelowReflexive(a[1..]);
    }
  }

  lemma {:induction false} BelowTotal(a: string, b: string)
    ensures Below(a, b) || Below(b, a)
  {
    if a != [] && b != [] && a[0] == b[0] {
      BelowTotal(a[1..], b[1..]);
    }
  }

  lemma {:induction false} BelowAntisymmetric(a: string, b: string)
    requires Below(a, b) && Below(b, a)
    ensures a == b
  {
    if a != [] && b != [] {
      BelowAntisymmetric(a[1..], b[1..]);
      assert a == [a[0]] + a[1..] && b == [b[0]] + b[1..];
    }
  }

  lemma {:induction false} BelowTransitive(a: string, b: string, c: string)
    requires Below(a, b) && Below(b, c)
    ensures Below(a, c)
  {
    if a != [] && b != [] && c != [] && a[0] == b[0] == c[0] {
      BelowTransitive(a[1..], b[1..], c[1..]);
    }
  }

  /** Each name comes strictly before every later one. */
  predicate StrictlySorted(s: seq<string>) {
    forall i, j :: 0 <= i < j < |s| ==> Below(s[i], s[j]) && s[i] != s[j]
  }

  predicate IsLeast(m: string, names: set<string>) {
    m in names && forall x :: x in names ==> Below(m, x)
  }

  lemma {:induction false} LeastExists(names: set<string>)
    requires names != {}
    ensures exists m :: IsLeast(m, names)
    decreases |names|
  {
    var y :| y in names;
    if names != {y} {
      LeastExists(names - {y});
      var m :| IsLeast(m, names - {y});
      BelowTotal(m, y);
      if Below(m, y) {
        assert IsLeast(m, names);
      } else {
        forall x | x in names ensures Below(y, x) {
          if x == y {
            BelowReflexive(y);
          } else {
            BelowTransitive(y, m, x);
          }
        }
        assert IsLeast(y, names);
      }
    } else {
      BelowReflexive(y);
      assert IsLeast(y, names);
    }
  }

  lemma LeastUnique(m1: string, m2: string, names: set<string>)
    requires IsLeast(m1, names) && IsLeast(m2, names)
    ensures m1 == m2
  {
    BelowAntisymmetric(m1, m2);
  }

  lemma LeastIsUnique(names: set<string>)
    ensures forall m1, m2 :: IsLeast(m1, names) && IsLeast(m2, names) ==> m1 == m2
  {
    forall m1, m2 | IsLeast(m1, names) && IsLeast(m2, names) ensures m1 == m2 {
      LeastUnique(m1, m2, names);
    }
  }

  /** The least name comes before, and differs from, each of the others. */
  lemma LeastBeforeRest(m: string, names: set<string>, rest: seq<string>)
    requires IsLeast(m, names)
    requires forall x :: x in rest <==> x in names - {m}
    ensures forall j :: 0 <= j < |rest| ==> Below(m, rest[j]) && m != rest[j]
  {
    forall j | 0 <= j < |rest| ensures Below(m, rest[j]) && m != rest[j] {
      assert rest[j] in rest;
    }
  }

  /** The names in ascending order, each once. */
  function SortedKeys(names: set<string>): (r: seq<string>)
    ensures StrictlySorted(r)
    ensures |r| == |names|
    ensures forall x :: x in r <==> x in names
    ensures forall i :: 0 <= i < |r| ==> r[i] in names
    decreases |names|
  {
    if names == {} then []
    else
      LeastExists(names);
      LeastIsUnique(names);
      var m :| IsLeast(m, names);
      var rest := SortedKeys(names - {m});
      LeastBeforeRest(m, names, rest);
      [m] + rest
  }

  /** Two ascending listings of the same names are the same listing: sorting distinct keys
      has exactly one outcome. */
  lemma {:induction false} SortedUnique(s: seq<string>, t: seq<string>)
    requires StrictlySorted(s) && StrictlySorted(t)
    requires forall x :: x in s <==> x in t
    ensures s == t
    decreases |s|
  {
    if s != [] {
      assert s[0] in s;
    }
    if t != [] {
      assert t[0] in t;
    }
    if s != [] && t != [] {
      assert s[0] in t && t[0] in s;
      var i :| 0 <= i < |t| && t[i] == s[0];
      var j :| 0 <= j < |s| && s[j] == t[0];
      if i != 0 {
        assert Below(t[0], s[0]) && t[0] != s[0];
        assert j != 0 && Below(s[0], t[0]);
        BelowAntisymmetric(s[0], t[0]);
      }
      assert s[0] == t[0];
      forall x ensures x in s[1..] <==> x in t[1..] {
        if x in s[1..] {
          var k :| 0 <= k < |s| - 1 && s[1..][k] == x;
          assert s[k + 1] == x && x != s[0] && x in t;
          var k' :| 0 <= k' < |t| && t[k'] == x;
          assert k' != 0 && t[1..][k' - 1] == x;
        }
        if x in t[1..] {
          var k :| 0 <= k < |t| - 1 && t[1..][k] == x;
          assert t[k + 1] == x && x != t[0] && x in s;
          var k' :| 0 <= k' < |s| && s[k'] == x;
          assert k' != 0 && s[1..][k' - 1] == x;
        }
      }
      SortedUnique(s[1..], t[1..]);
      assert s == [s[0]] + s[1..] && t == [t[0]] + t[1..];
    }
  }
}
