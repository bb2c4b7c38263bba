/** Optional values, and lists seen as sets. */
module Collections {
  datatype Option<+T> = None | Some(value: T)

  predicate NoDuplicates<T(==)>(s: seq<T>) {
    forall i, j | 0 <= i < j < |s| :: s[i] != s[j]
  }

  function AsSet<T>(s: seq<T>): set<T> {
    set x | x in s
  }

  lemma {:induction false} SizeOf<T>(s: seq<T>)
    ensures |AsSet(s)| <= |s|
    ensures |AsSet(s)| == |s| <==> NoDuplicates(s)
  {
    if s == [] {
      assert AsSet(s) == {};
    } else {
      var front, last := s[..|s| - 1], s[|s| - 1];
      SizeOf(front);
      assert AsSet(s) == AsSet(front) + {last};
      if last in front {
        assert AsSet(s) == AsSet(front);
        var i :| 0 <= i < |front| && front[i] == last;
        assert s[i] == s[|s| - 1];
      } else {
        assert NoDuplicates(s) <==> NoDuplicates(front);
      }
    }
  }

  lemma {:induction false} Listing<T>(s: set<T>) returns (r: seq<T>)
    ensures AsSet(r) == s && NoDuplicates(r)
  {
    if s == {} {
      r := [];
    } else {
      var u :| u in s;
      var rest := Listing(s - {u});
      assert u !in AsSet(rest);
      assert AsSet(rest + [u]) == AsSet(rest) + {u};
      r := rest + [u];
    }
  }

  lemma SubsetOfSameSize<T>(a: set<T>, b: set<T>)
    requires a <= b && |a| == |b|
    ensures a == b
  {
    assert b == a + (b - a);
  }
}
