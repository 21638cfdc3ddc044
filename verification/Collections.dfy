/** Small facts about sequences without repetition and about set sizes. */
module Collections {

  predicate NoDuplicates<T(==)>(s: seq<T>) {
    forall i, j :: 0 <= i < j < |s| ==> s[i] != s[j]
  }

  ghost function Elements<T>(s: seq<T>): set<T> {
    set x | x in s
  }

  lemma {:induction false} NoDuplicatesSize<T>(s: seq<T>)
    requires NoDuplicates(s)
    ensures |Elements(s)| == |s|
  {
    if s == [] {
      assert Elements(s) == {};
    } else {
      var last := |s| - 1;
      NoDuplicatesSize(s[..last]);
      assert s == s[..last] + [s[last]];
      assert Elements(s) == Elements(s[..last]) + {s[last]};
    }
  }

  lemma {:induction false} ElementsSize<T>(s: seq<T>)
    ensures |Elements(s)| <= |s|
  {
    if s == [] {
      assert Elements(s) == {};
    } else {
      var last := |s| - 1;
      ElementsSize(s[..last]);
      assert s == s[..last] + [s[last]];
      assert Elements(s) == Elements(s[..last]) + {s[last]};
    }
  }

  /** Collecting into a set keeps the length exactly when nothing repeats. */
  lemma DuplicatesBySize<T>(s: seq<T>)
    ensures |Elements(s)| == |s| <==> NoDuplicates(s)
  {
    if NoDuplicates(s) {
      NoDuplicatesSize(s);
    } else {
      var i, j :| 0 <= i < j < |s| && s[i] == s[j];
      var t := s[..j] + s[j + 1..];
      assert Elements(t) == Elements(s) by {
        forall x | x in s ensures x in t {
          var k :| 0 <= k < |s| && s[k] == x;
          assert t[if k < j then k else if k == j then i else k - 1] == x;
        }
      }
      ElementsSize(t);
    }
  }

  lemma SubsetSize<T>(a: set<T>, b: set<T>)
    requires a <= b
    ensures |a| <= |b|
    ensures |a| == |b| ==> a == b
  {
    assert b == a + (b - a);
    assert |b| == |a| + |b - a|;
  }

  /** A sequence longer than the set it draws from repeats an element. */
  lemma {:induction false} Pigeonhole<T>(s: seq<T>, nodes: set<T>) returns (i: nat, j: nat)
    requires Elements(s) <= nodes && |s| > |nodes|
    ensures i < j < |s| && s[i] == s[j]
  {
    if NoDuplicates(s) {
      NoDuplicatesSize(s);
      SubsetSize(Elements(s), nodes);
      assert false;
    }
    i, j :| 0 <= i < j < |s| && s[i] == s[j];
  }

  ghost function Image<T(!new), U>(s: set<T>, f: T -> U): set<U> {
    set x | x in s :: f(x)
  }

  lemma {:induction false} ImageSize<T(!new), U>(s: set<T>, f: T -> U)
    ensures |Image(s, f)| <= |s|
  {
    if s == {} {
      assert Image(s, f) == {};
    } else {
      var x :| x in s;
      ImageSize(s - {x}, f);
      assert Image(s, f) == Image(s - {x}, f) + {f(x)};
    }
  }
}
