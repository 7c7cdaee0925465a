/**
 * A deterministic enumeration of a finite set of strings.
 *
 * The attribute diff walks the union of two key sets. The source iterates a
 * hash set, whose order is unspecified; the model fixes one admissible order,
 * ascending lexicographic order, so that the diff can be stated as a function.
 * Every attribute property of the diff is proved per key and for any
 * duplicate-free enumeration, so none of them depends on this choice.
 */
module Keys {

  /** Strict lexicographic order on strings (a proper prefix comes first). */
  predicate Below(a: string, b: string)
  {
    if a == [] then b != []
    else b != [] && (a[0] < b[0] || (a[0] == b[0] && Below(a[1..], b[1..])))
  }

  lemma {:induction false} BelowIrreflexive(a: string)
    ensures !Below(a, a)
  {
    if a != [] {
      BelowIrreflexive(a[1..]);
    }
  }

  lemma {:induction false} BelowAsymmetric(a: string, b: string)
    ensures !(Below(a, b) && Below(b, a))
  {
    if a != [] && b != [] && a[0] == b[0] {
      BelowAsymmetric(a[1..], b[1..]);
    }
  }

  lemma {:induction false} BelowTransitive(a: string, b: string, c: string)
    requires Below(a, b) && Below(b, c)
    ensures Below(a, c)
  {
    if a != [] && a[0] == b[0] && b[0] == c[0] {
      BelowTransitive(a[1..], b[1..], c[1..]);
    }
  }

  lemma {:induction false} BelowTotal(a: string, b: string)
    requires a != b
    ensures Below(a, b) || Below(b, a)
  {
    if a != [] && b != [] && a[0] == b[0] {
      BelowTotal(a[1..], b[1..]);
    }
  }

  /** `m` is the least element of `s`. */
  predicate IsLeast(m: string, s: set<string>)
  {
    m in s && forall k :: k in s && k != m ==> Below(m, k)
  }

  lemma {:induction false} LeastExists(s: set<string>)
    requires s != {}
    ensures exists m :: IsLeast(m, s)
    decreases |s|
  {
    var x :| x in s;
    if s == {x} {
      assert IsLeast(x, s);
    } else {
      LeastExists(s - {x});
      var m :| IsLeast(m, s - {x});
      if Below(m, x) {
        assert IsLeast(m, s);
      } else {
        BelowTotal(m, x);
        forall k | k in s && k != x
          ensures Below(x, k)
        {
          if k != m {
            BelowTransitive(x, m, k);
          }
        }
        assert IsLeast(x, s);
      }
    }
  }

  lemma {:induction false} LeastUnique(m1: string, m2: string, s: set<string>)
    requires IsLeast(m1, s) && IsLeast(m2, s)
    ensures m1 == m2
  {
    if m1 != m2 {
      BelowAsymmetric(m1, m2);
    }
  }

  /** No string occurs twice. */
  predicate Distinct(ks: seq<string>)
  {
    forall i, j :: 0 <= i < j < |ks| ==> ks[i] != ks[j]
  }

  /** The elements of `s` in ascending order: the least one, then the rest. */
  function SortedKeys(s: set<string>): seq<string>
    decreases |s|
  {
    if s == {} then []
    else
      LeastExists(s);
      forall m1, m2 | IsLeast(m1, s) && IsLeast(m2, s) ensures m1 == m2 {
        LeastUnique(m1, m2, s);
      }
      var m :| IsLeast(m, s);
      [m] + SortedKeys(s - {m})
  }

  /** The enumeration lists every element of `s`, each once, and nothing else. */
  lemma {:induction false} SortedKeysEnumerates(s: set<string>)
    ensures Distinct(SortedKeys(s))
    ensures forall k :: k in SortedKeys(s) <==> k in s
    ensures |SortedKeys(s)| == |s|
    decreases |s|
  {
    if s != {} {
      LeastExists(s);
      var m :| IsLeast(m, s);
      forall m2 | IsLeast(m2, s) ensures m2 == m {
        LeastUnique(m, m2, s);
      }
      assert SortedKeys(s) == [m] + SortedKeys(s - {m});
      SortedKeysEnumerates(s - {m});
    }
  }

  /** Each key follows every key before it: the order is strictly ascending. */
  lemma {:induction false} SortedKeysAscending(s: set<string>)
    ensures forall i, j :: 0 <= i < j < |SortedKeys(s)| ==> Below(SortedKeys(s)[i], SortedKeys(s)[j])
    decreases |s|
  {
    if s != {} {
      LeastExists(s);
      var m :| IsLeast(m, s);
      forall m2 | IsLeast(m2, s) ensures m2 == m {
        LeastUnique(m, m2, s);
      }
      var rest := SortedKeys(s - {m});
      assert SortedKeys(s) == [m] + rest;
      SortedKeysAscending(s - {m});
      SortedKeysEnumerates(s - {m});
      forall i, j | 0 <= i < j < |SortedKeys(s)|
        ensures Below(SortedKeys(s)[i], SortedKeys(s)[j])
      {
        if i == 0 {
          assert SortedKeys(s)[j] == rest[j - 1];
          assert rest[j - 1] in rest;
        } else {
          assert SortedKeys(s)[i] == rest[i - 1] && SortedKeys(s)[j] == rest[j - 1];
        }
      }
    }
  }
}
