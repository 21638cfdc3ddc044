/**
Receipt triples: the difference between pinned and submitted ones, and the canonical material of a
submission. Both walk ordered maps, so results are listed in the order of the triples.
*/
module ReceiptDiff {
  import opened Collections

  datatype Receipt = Receipt(instructionId: string, version: string, digest: string)

  // -- the order of keys ----------------------------------------------------------------------

  predicate TextLess(a: string, b: string) {
    b != "" && (a == "" || a[0] < b[0] || (a[0] == b[0] && TextLess(a[1..], b[1..])))
  }

  predicate Less(a: Receipt, b: Receipt) {
    || TextLess(a.instructionId, b.instructionId)
    || (a.instructionId == b.instructionId &&
        (TextLess(a.version, b.version) || (a.version == b.version && TextLess(a.digest, b.digest))))
  }

  /** Equal up to `k`, where `a` ends or has the smaller character. */
  ghost predicate SmallerAt(a: string, b: string, k: nat) {
    k <= |a| && k < |b| && a[..k] == b[..k] && (k == |a| || a[k] < b[k])
  }

  /** Dictionary order. */
  ghost predicate Precedes(a: string, b: string) {
    exists k: nat :: SmallerAt(a, b, k)
  }

  lemma {:induction false} TextLessExactly(a: string, b: string)
    ensures TextLess(a, b) <==> Precedes(a, b)
  {
    if a == "" || b == "" || a[0] != b[0] {
      assert SmallerAt(a, b, 0) <==> b != "" && (a == "" || a[0] < b[0]);
      forall k: nat | SmallerAt(a, b, k) ensures k == 0 {
        SameHead(a, b, k);
      }
    } else {
      TextLessExactly(a[1..], b[1..]);
      if k: nat :| SmallerAt(a, b, k) {
        OneLonger(a, b, k - 1);
      }
      if k: nat :| SmallerAt(a[1..], b[1..], k) {
        OneLonger(a, b, k);
      }
    }
  }

  lemma SameHead(a: string, b: string, k: nat)
    requires SmallerAt(a, b, k)
    ensures k > 0 ==> a != "" && b != "" && a[0] == b[0]
  {
    if k > 0 {
      assert a[..k][0] == a[0] && b[..k][0] == b[0];
    }
  }

  lemma OneLonger(a: string, b: string, k: nat)
    requires a != "" && b != "" && a[0] == b[0]
    ensures SmallerAt(a, b, k + 1) <==> SmallerAt(a[1..], b[1..], k)
  {
    if k + 1 <= |a| && k + 1 <= |b| {
      assert a[..k + 1] == [a[0]] + a[1..][..k];
      assert b[..k + 1] == [b[0]] + b[1..][..k];
      assert a[..k + 1][1..] == a[1..][..k] && b[..k + 1][1..] == b[1..][..k];
    }
  }

  /** Triples are ordered by the first of id, version and digest in which they differ. */
  lemma LessExactly(a: Receipt, b: Receipt)
    ensures Less(a, b) <==>
      if a.instructionId != b.instructionId then Precedes(a.instructionId, b.instructionId)
      else if a.version != b.version then Precedes(a.version, b.version)
      else Precedes(a.digest, b.digest)
  {
    TextLessExactly(a.instructionId, b.instructionId);
    TextLessExactly(a.version, b.version);
    TextLessExactly(a.digest, b.digest);
    NotBelowItself(a.instructionId);
    NotBelowItself(a.version);
  }

  lemma NotBelowItself(a: string)
    ensures !TextLess(a, a)
  {
    if TextLess(a, a) { TextAsymmetric(a, a); }
  }

  lemma {:induction false} TextTotal(a: string, b: string)
    ensures a == b || TextLess(a, b) || TextLess(b, a)
  {
    if a == "" || b == "" || a[0] != b[0] {
    } else {
      TextTotal(a[1..], b[1..]);
      assert a == [a[0]] + a[1..] && b == [b[0]] + b[1..];
    }
  }

  lemma {:induction false} TextAsymmetric(a: string, b: string)
    requires TextLess(a, b)
    ensures !TextLess(b, a) && a != b
  {
    if a == "" || a[0] != b[0] {
    } else {
      TextAsymmetric(a[1..], b[1..]);
    }
  }

  lemma {:induction false} TextTransitive(a: string, b: string, c: string)
    requires TextLess(a, b) && TextLess(b, c)
    ensures TextLess(a, c)
  {
    if a == "" || a[0] != b[0] || b[0] != c[0] {
    } else {
      TextTransitive(a[1..], b[1..], c[1..]);
    }
  }

  lemma OrderTotal(a: Receipt, b: Receipt)
    ensures a == b || Less(a, b) || Less(b, a)
  {
    TextTotal(a.instructionId, b.instructionId);
    TextTotal(a.version, b.version);
    TextTotal(a.digest, b.digest);
  }

  lemma OrderAsymmetric(a: Receipt, b: Receipt)
    requires Less(a, b)
    ensures !Less(b, a) && a != b
  {
    if TextLess(a.instructionId, b.instructionId) {
      TextAsymmetric(a.instructionId, b.instructionId);
    } else if TextLess(a.version, b.version) {
      TextAsymmetric(a.version, b.version);
      if TextLess(b.instructionId, a.instructionId) { TextAsymmetric(b.instructionId, a.instructionId); }
    } else {
      TextAsymmetric(a.digest, b.digest);
      if TextLess(b.instructionId, a.instructionId) { TextAsymmetric(b.instructionId, a.instructionId); }
      if TextLess(b.version, a.version) { TextAsymmetric(b.version, a.version); }
    }
  }

  lemma OrderTransitive(a: Receipt, b: Receipt, c: Receipt)
    requires Less(a, b) && Less(b, c)
    ensures Less(a, c)
  {
    if TextLess(a.instructionId, b.instructionId) && TextLess(b.instructionId, c.instructionId) {
      TextTransitive(a.instructionId, b.instructionId, c.instructionId);
    }
    if TextLess(a.version, b.version) && TextLess(b.version, c.version) {
      TextTransitive(a.version, b.version, c.version);
    }
    if TextLess(a.digest, b.digest) && TextLess(b.digest, c.digest) {
      TextTransitive(a.digest, b.digest, c.digest);
    }
  }

  // -- ascending listings ---------------------------------------------------------------------

  ghost predicate Ascending(s: seq<Receipt>) {
    forall i, j :: 0 <= i < j < |s| ==> Less(s[i], s[j])
  }

  ghost predicate IsLeast(x: Receipt, s: set<Receipt>) {
    x in s && forall y :: y in s && y != x ==> Less(x, y)
  }

  lemma {:induction false} LeastExists(s: set<Receipt>) returns (least: Receipt)
    requires s != {}
    ensures IsLeast(least, s)
    decreases s
  {
    var x :| x in s;
    if s == {x} {
      least := x;
    } else {
      var rest := s - {x};
      var below := LeastExists(rest);
      OrderTotal(x, below);
      if Less(x, below) {
        least := x;
        forall y | y in s && y != x ensures Less(x, y) {
          if y != below { OrderTransitive(x, below, y); }
        }
      } else {
        least := below;
      }
    }
  }

  /** Take the least element, as an ordered map yields it. */
  method TakeLeast(s: set<Receipt>) returns (least: Receipt)
    requires s != {}
    ensures IsLeast(least, s)
  {
    ghost var found := LeastExists(s);
    least :| least in s && forall y :: y in s && y != least ==> Less(least, y);
  }

  /** The keys of an ordered set, in order. */
  method Listed(s: set<Receipt>) returns (listing: seq<Receipt>)
    ensures Ascending(listing) && Elements(listing) == s
  {
    listing := [];
    var rest := s;
    while rest != {}
      invariant Ascending(listing) && Elements(listing) + rest == s && Elements(listing) !! rest
      invariant forall x, y :: x in listing && y in rest ==> Less(x, y)
      decreases rest
    {
      var least := TakeLeast(rest);
      forall x | x in listing ensures Less(x, least) {
      }
      AscendingAppend(listing, least);
      listing := listing + [least];
      rest := rest - {least};
    }
  }

  lemma AscendingAppend(s: seq<Receipt>, x: Receipt)
    requires Ascending(s) && forall y :: y in s ==> Less(y, x)
    ensures Ascending(s + [x]) && Elements(s + [x]) == Elements(s) + {x}
  {
  }

  lemma AscendingDistinct(s: seq<Receipt>)
    requires Ascending(s)
    ensures NoDuplicates(s) && |Elements(s)| == |s|
  {
    forall i, j | 0 <= i < j < |s| ensures s[i] != s[j] {
      OrderAsymmetric(s[i], s[j]);
    }
    NoDuplicatesSize(s);
  }

  /** A set has one ascending listing. */
  lemma {:induction false} AscendingUnique(a: seq<Receipt>, b: seq<Receipt>)
    requires Ascending(a) && Ascending(b) && Elements(a) == Elements(b)
    ensures a == b
  {
    AscendingDistinct(a);
    AscendingDistinct(b);
    if a == [] {
    } else {
      var last := |a| - 1;
      LastIsGreatest(a, b);
      var x := a[last];
      assert Elements(a[..last]) == Elements(a) - {x} by { ButLast(a); }
      assert Elements(b[..last]) == Elements(b) - {x} by { ButLast(b); }
      AscendingUnique(a[..last], b[..last]);
      assert a == a[..last] + [x] && b == b[..last] + [x];
    }
  }

  lemma ButLast(s: seq<Receipt>)
    requires s != [] && NoDuplicates(s)
    ensures Elements(s[..|s| - 1]) == Elements(s) - {s[|s| - 1]}
  {
    assert s == s[..|s| - 1] + [s[|s| - 1]];
  }

  lemma LastIsGreatest(a: seq<Receipt>, b: seq<Receipt>)
    requires Ascending(a) && Ascending(b) && Elements(a) == Elements(b) && a != [] && |a| == |b|
    ensures a[|a| - 1] == b[|b| - 1]
  {
    var x, y := a[|a| - 1], b[|b| - 1];
    assert x in Elements(b) && y in Elements(a);
    if x != y {
      var i :| 0 <= i < |b| && b[i] == x;
      var j :| 0 <= j < |a| && a[j] == y;
      assert Less(x, y) && Less(y, x);
      OrderAsymmetric(x, y);
    }
  }

  // -- counting -------------------------------------------------------------------------------

  method Count(submitted: seq<Receipt>) returns (counts: map<Receipt, nat>)
    ensures counts.Keys == Elements(submitted)
    ensures forall r :: r in counts ==> counts[r] == multiset(submitted)[r]
  {
    counts := map[];
    for i := 0 to |submitted|
      invariant counts.Keys == Elements(submitted[..i])
      invariant forall r :: r in counts ==> counts[r] == multiset(submitted[..i])[r]
    {
      var r := submitted[i];
      assert submitted[..i + 1] == submitted[..i] + [r];
      assert r !in counts ==> r !in multiset(submitted[..i]);
      counts := counts[r := (if r in counts then counts[r] else 0) + 1];
    }
    assert submitted[..|submitted|] == submitted;
  }

  // -- the canonical material -----------------------------------------------------------------

  datatype Entry = Entry(receipt: Receipt, count: nat)

  datatype Material<Kind> = Material(kind: Kind, entries: seq<Entry>)

  ghost function Keys(entries: seq<Entry>): seq<Receipt> {
    seq(|entries|, i requires 0 <= i < |entries| => entries[i].receipt)
  }

  /** Every distinct receipt once, in order, with how often it was submitted. */
  ghost predicate Canonical(entries: seq<Entry>, m: multiset<Receipt>) {
    && Ascending(Keys(entries))
    && (forall i :: 0 <= i < |entries| ==> entries[i].count == m[entries[i].receipt] > 0)
    && (forall r :: r in m ==> r in Keys(entries))
  }

  method CanonicalMaterial<Kind>(kind: Kind, submitted: seq<Receipt>) returns (material: Material<Kind>)
    ensures material.kind == kind && Canonical(material.entries, multiset(submitted))
  {
    var counts := Count(submitted);
    var keys := Listed(counts.Keys);
    assert forall i :: 0 <= i < |keys| ==> keys[i] in Elements(keys);
    var entries := seq(|keys|, i requires 0 <= i < |keys| => Entry(keys[i], counts[keys[i]]));
    assert Keys(entries) == keys;
    forall r | r in multiset(submitted) ensures r in keys {
      assert r in Elements(submitted);
      assert r in Elements(keys);
    }
    material := Material(kind, entries);
  }

  lemma CanonicalKeys(entries: seq<Entry>, m: multiset<Receipt>, r: Receipt)
    requires Canonical(entries, m)
    ensures r in Elements(Keys(entries)) <==> r in m
  {
    if r in Elements(Keys(entries)) {
      var i :| 0 <= i < |entries| && Keys(entries)[i] == r;
      assert entries[i].count == m[r];
    }
  }

  lemma CanonicalFunctional(a: seq<Entry>, b: seq<Entry>, m: multiset<Receipt>)
    requires Canonical(a, m) && Canonical(b, m)
    ensures a == b
  {
    forall r ensures r in Elements(Keys(a)) <==> r in Elements(Keys(b)) {
      CanonicalKeys(a, m, r);
      CanonicalKeys(b, m, r);
    }
    AscendingUnique(Keys(a), Keys(b));
    forall i | 0 <= i < |a| ensures a[i] == b[i] {
      assert Keys(a)[i] == Keys(b)[i];
    }
  }

  lemma CanonicalInjective(a: seq<Entry>, m: multiset<Receipt>, n: multiset<Receipt>)
    requires Canonical(a, m) && Canonical(a, n)
    ensures m == n
  {
    forall r ensures m[r] == n[r] {
      CanonicalKeys(a, m, r);
      CanonicalKeys(a, n, r);
      if r in m {
        var i :| 0 <= i < |a| && Keys(a)[i] == r;
        assert a[i].receipt == r;
      }
    }
  }

  /** Two submissions have equal material exactly when kind and multiset agree: order is all that is lost. */
  lemma MaterialIdentifies<Kind>(x: Material<Kind>, a: seq<Receipt>, y: Material<Kind>, b: seq<Receipt>)
    requires Canonical(x.entries, multiset(a)) && Canonical(y.entries, multiset(b))
    ensures x == y <==> x.kind == y.kind && multiset(a) == multiset(b)
  {
    if multiset(a) == multiset(b) {
      CanonicalFunctional(x.entries, y.entries, multiset(a));
    }
    if x.entries == y.entries {
      CanonicalInjective(x.entries, multiset(a), multiset(b));
    }
  }

  // -- the difference -------------------------------------------------------------------------

  datatype Diff = Diff(
    expectedUnique: nat, submittedCount: nat, submittedUnique: nat,
    missing: seq<Receipt>, unexpected: seq<Receipt>, duplicates: seq<Entry>)

  ghost predicate Describes(d: Diff, expected: seq<Receipt>, submitted: seq<Receipt>) {
    && d.expectedUnique == |Elements(expected)|
    && d.submittedCount == |submitted| && d.submittedUnique == |Elements(submitted)|
    && Ascending(d.missing) && Elements(d.missing) == Elements(expected) - Elements(submitted)
    && Ascending(d.unexpected) && Elements(d.unexpected) == Elements(submitted) - Elements(expected)
    && Ascending(Keys(d.duplicates))
    && (forall i :: 0 <= i < |d.duplicates| ==> d.duplicates[i].count == multiset(submitted)[d.duplicates[i].receipt] > 1)
    && (forall r :: multiset(submitted)[r] > 1 ==> r in Keys(d.duplicates))
  }

  method Between(expected: seq<Receipt>, submitted: seq<Receipt>) returns (d: Diff)
    ensures Describes(d, expected, submitted)
  {
    var expectedSet := set r | r in expected;
    var counts := Count(submitted);
    var missing := Listed(expectedSet - counts.Keys);
    var unexpected := Listed(counts.Keys - expectedSet);
    var repeated := Listed(set r | r in counts.Keys && counts[r] > 1);
    assert forall i :: 0 <= i < |repeated| ==> repeated[i] in Elements(repeated);
    var duplicates := seq(|repeated|, i requires 0 <= i < |repeated| => Entry(repeated[i], counts[repeated[i]]));
    assert Keys(duplicates) == repeated;
    forall r | multiset(submitted)[r] > 1 ensures r in repeated {
      assert r in multiset(submitted) && r in Elements(submitted);
      assert r in Elements(repeated);
    }
    assert expectedSet == Elements(expected);
    d := Diff(|expectedSet|, |submitted|, |counts.Keys|, missing, unexpected, duplicates);
  }

  /** Nothing to report exactly when the submission lists each distinct expected receipt once. */
  lemma EmptyDiff(d: Diff, expected: seq<Receipt>, submitted: seq<Receipt>)
    requires Describes(d, expected, submitted)
    ensures d.missing == [] && d.unexpected == [] && d.duplicates == [] <==>
            NoDuplicates(submitted) && Elements(submitted) == Elements(expected)
  {
    EmptyListing(d.missing);
    EmptyListing(d.unexpected);
    DistinctCounts(submitted);
    assert Elements(submitted) == Elements(expected) <==>
      Elements(expected) - Elements(submitted) == {} && Elements(submitted) - Elements(expected) == {};
    if d.duplicates == [] {
      assert forall r :: multiset(submitted)[r] <= 1;
    } else {
      assert multiset(submitted)[d.duplicates[0].receipt] > 1;
    }
  }

  lemma EmptyListing(s: seq<Receipt>)
    ensures s == [] <==> Elements(s) == {}
  {
    if s != [] { assert s[0] in Elements(s); }
  }

  lemma DistinctCounts(s: seq<Receipt>)
    ensures NoDuplicates(s) <==> forall r :: multiset(s)[r] <= 1
  {
    if NoDuplicates(s) {
      forall r ensures multiset(s)[r] <= 1 {
        DistinctCountsOne(s, r);
      }
    } else {
      var i, j :| 0 <= i < j < |s| && s[i] == s[j];
      assert s == s[..j] + [s[j]] + s[j + 1..];
      assert s[..j][i] == s[j];
      assert multiset(s[..j])[s[j]] >= 1;
      assert multiset(s)[s[j]] == multiset(s[..j])[s[j]] + 1 + multiset(s[j + 1..])[s[j]];
    }
  }

  lemma {:induction false} DistinctCountsOne(s: seq<Receipt>, r: Receipt)
    requires NoDuplicates(s)
    ensures multiset(s)[r] <= 1
  {
    if s == [] {
    } else {
      var last := |s| - 1;
      assert s == s[..last] + [s[last]];
      DistinctCountsOne(s[..last], r);
      if s[last] == r {
        assert r !in s[..last];
      }
    }
  }

  /** How many submissions beyond the first the duplicates account for. */
  ghost function Extra(duplicates: seq<Entry>): int {
    if duplicates == [] then 0 else Extra(duplicates[..|duplicates| - 1]) + duplicates[|duplicates| - 1].count - 1
  }

  /** Extra occurrences over a listing of receipts. */
  ghost function ExtraOf(keys: seq<Receipt>, m: multiset<Receipt>): int {
    if keys == [] then 0 else ExtraOf(keys[..|keys| - 1], m) + m[keys[|keys| - 1]] - 1
  }

  lemma {:induction false} ExtraAgrees(duplicates: seq<Entry>, m: multiset<Receipt>)
    requires forall i :: 0 <= i < |duplicates| ==> duplicates[i].count == m[duplicates[i].receipt]
    ensures Extra(duplicates) == ExtraOf(Keys(duplicates), m)
  {
    if duplicates == [] {
    } else {
      var init := duplicates[..|duplicates| - 1];
      ExtraAgrees(init, m);
      assert Keys(duplicates)[..|duplicates| - 1] == Keys(init);
    }
  }

  /** Removing one occurrence of every listed receipt leaves the extra occurrences. */
  lemma {:induction false} Peel(keys: seq<Receipt>, m: multiset<Receipt>)
    requires NoDuplicates(keys)
    requires forall r :: m[r] > 1 ==> r in keys
    requires forall r :: r in keys ==> m[r] > 1
    ensures |m| == |Support(m)| + ExtraOf(keys, m)
    decreases |keys|
  {
    if keys == [] {
      AllSingle(m);
    } else {
      var last := |keys| - 1;
      var r := keys[last];
      var n := m[r := 1];
      assert keys == keys[..last] + [r];
      assert r !in keys[..last];
      forall x | n[x] > 1 ensures x in keys[..last] {
        assert m[x] > 1 && x in keys;
      }
      forall x | x in keys[..last] ensures n[x] > 1 {
        assert x in keys;
      }
      Peel(keys[..last], n);
      assert Support(n) == Support(m);
      ExtraIgnores(keys[..last], m, n);
      assert m == n + multiset{}[r := m[r] - 1];
      assert |multiset{}[r := m[r] - 1]| == m[r] - 1;
    }
  }

  ghost function Support(m: multiset<Receipt>): set<Receipt> {
    set r | r in m
  }

  lemma {:induction false} AllSingle(m: multiset<Receipt>)
    requires forall r :: m[r] <= 1
    ensures |m| == |Support(m)|
    decreases |m|
  {
    if m == multiset{} {
      assert Support(m) == {};
    } else {
      var r :| r in m;
      var n := m - multiset{r};
      AllSingle(n);
      assert Support(m) == Support(n) + {r};
    }
  }

  lemma {:induction false} ExtraIgnores(keys: seq<Receipt>, m: multiset<Receipt>, n: multiset<Receipt>)
    requires forall r :: r in keys ==> m[r] == n[r]
    ensures ExtraOf(keys, m) == ExtraOf(keys, n)
  {
    if keys == [] {
    } else {
      ExtraIgnores(keys[..|keys| - 1], m, n);
    }
  }

  /** Every submission is either the first of its triple or accounted for by a duplicate entry. */
  lemma CountsAddUp(d: Diff, expected: seq<Receipt>, submitted: seq<Receipt>)
    requires Describes(d, expected, submitted)
    ensures d.submittedCount == d.submittedUnique + Extra(d.duplicates)
  {
    var m, keys := multiset(submitted), Keys(d.duplicates);
    AscendingDistinct(keys);
    ExtraAgrees(d.duplicates, m);
    forall r | r in keys ensures m[r] > 1 {
      var i :| 0 <= i < |keys| && keys[i] == r;
      assert d.duplicates[i].receipt == r;
    }
    Peel(keys, m);
    assert Support(m) == Elements(submitted);
    assert |m| == |submitted|;
  }
}
