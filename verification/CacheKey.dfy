/** The string under which a query embedding is cached. */
module CacheKey {
  import opened Uuids
  import opened UuidText
  import Splitting

  datatype Model = Model(name: string, revision: string, dimensions: nat, recipe: string)

  const PINNED_NAME := "intfloat/multilingual-e5-small"
  const PINNED_REVISION := "614241f622f53c4eeff9890bdc4f31cfecc418b3"
  const PINNED_RECIPE := "title_v1"
  const PINNED: Model := Model(PINNED_NAME, PINNED_REVISION, 384, PINNED_RECIPE)

  predicate Validated(m: Model) {
    m == PINNED
  }

  function Digit(n: nat): char
    requires n < 10
  {
    '0' + n as char
  }

  function DecimalNat(n: nat): string {
    if n < 10 then [Digit(n)] else DecimalNat(n / 10) + [Digit(n % 10)]
  }

  function Decimal(n: int): string {
    if n < 0 then "-" + DecimalNat(-n) else DecimalNat(n)
  }

  /** What a key says of a model: not its dimensions. */
  function ModelText(m: Model): string {
    m.name + ":" + m.revision + ":" + m.recipe
  }

  function Key(workspace: Uuid, principal: Uuid, generation: int, model: Model, inputDigest: string): string {
    Hyphenated(workspace) + ":" + (Hyphenated(principal) + ":" + (Decimal(generation) + ":" +
    (ModelText(model) + ":" + inputDigest)))
  }

  function ReadNat(s: string): int {
    if s == "" then 0 else ReadNat(s[..|s| - 1]) * 10 + (s[|s| - 1] as int - '0' as int)
  }

  lemma {:induction false} DecimalNatFacts(n: nat)
    ensures ReadNat(DecimalNat(n)) == n
    ensures DecimalNat(n) != "" && forall i :: 0 <= i < |DecimalNat(n)| ==> '0' <= DecimalNat(n)[i] <= '9'
  {
    if n < 10 {
      assert [Digit(n)][..0] == "";
    } else {
      DecimalNatFacts(n / 10);
      var s := DecimalNat(n);
      assert s[..|s| - 1] == DecimalNat(n / 10);
    }
  }

  lemma DecimalInjective(a: int, b: int)
    requires Decimal(a) == Decimal(b)
    ensures a == b
  {
    DecimalNatFacts(if a < 0 then -a else a);
    DecimalNatFacts(if b < 0 then -b else b);
    assert a < 0 <==> Decimal(a)[0] == '-';
    assert b < 0 <==> Decimal(b)[0] == '-';
    if a < 0 {
      assert Decimal(a)[1..] == DecimalNat(-a) && Decimal(b)[1..] == DecimalNat(-b);
    }
  }

  lemma NoColon(id: Uuid, n: int)
    ensures ':' !in Hyphenated(id) && ':' !in Decimal(n)
  {
    PrintedPlain(id);
    DecimalNatFacts(if n < 0 then -n else n);
  }

  /** Two texts with a colon-free head agree only if heads and tails agree. */
  lemma CutAtColon(a: string, x: string, b: string, y: string)
    requires ':' !in a && ':' !in b && a + ":" + x == b + ":" + y
    ensures a == b && x == y
  {
    Splitting.FindAfter(a, ":" + x, ':');
    Splitting.FindAfter(b, ":" + y, ':');
    assert a + ":" + x == a + (":" + x) && b + ":" + y == b + (":" + y);
    assert (a + (":" + x))[..|a|] == a && (b + (":" + y))[..|b|] == b;
    assert (a + (":" + x))[|a| + 1..] == x && (b + (":" + y))[|b| + 1..] == y;
  }

  /** Two texts with a colon-free tail agree only if heads and tails agree. */
  lemma CutAtLastColon(x: string, a: string, y: string, b: string)
    requires ':' !in a && ':' !in b && x + ":" + a == y + ":" + b
    ensures x == y && a == b
  {
    var s, t := x + ":" + a, y + ":" + b;
    assert s[|x|] == ':' && t[|y|] == ':';
    assert forall i :: |x| < i < |s| ==> s[i] == a[i - |x| - 1];
    assert forall i :: |y| < i < |t| ==> t[i] == b[i - |y| - 1];
    assert s[..|x|] == x && t[..|y|] == y && s[|x| + 1..] == a && t[|y| + 1..] == b;
  }

  /** The parts before the model are read off the front of a key. */
  lemma FrontsAgree(w1: Uuid, p1: Uuid, g1: int, x1: string, w2: Uuid, p2: Uuid, g2: int, x2: string)
    requires Hyphenated(w1) + ":" + (Hyphenated(p1) + ":" + (Decimal(g1) + ":" + x1)) ==
             Hyphenated(w2) + ":" + (Hyphenated(p2) + ":" + (Decimal(g2) + ":" + x2))
    ensures w1 == w2 && p1 == p2 && g1 == g2 && x1 == x2
  {
    NoColon(w1, g1);
    NoColon(w2, g2);
    NoColon(p1, g1);
    NoColon(p2, g2);
    var t1, t2 := Decimal(g1) + ":" + x1, Decimal(g2) + ":" + x2;
    CutAtColon(Hyphenated(w1), Hyphenated(p1) + ":" + t1, Hyphenated(w2), Hyphenated(p2) + ":" + t2);
    CutAtColon(Hyphenated(p1), t1, Hyphenated(p2), t2);
    CutAtColon(Decimal(g1), x1, Decimal(g2), x2);
    PrintedInjective(w1, w2);
    PrintedInjective(p1, p2);
    DecimalInjective(g1, g2);
  }

  /** For one model, whatever it is, keys are equal exactly when workspace, principal, generation and digest are. */
  lemma SameModelSameParts(w1: Uuid, p1: Uuid, g1: int, d1: string, w2: Uuid, p2: Uuid, g2: int, d2: string, m: Model)
    ensures Key(w1, p1, g1, m, d1) == Key(w2, p2, g2, m, d2) <==> w1 == w2 && p1 == p2 && g1 == g2 && d1 == d2
  {
    if Key(w1, p1, g1, m, d1) == Key(w2, p2, g2, m, d2) {
      var prefix := ModelText(m) + ":";
      FrontsAgree(w1, p1, g1, prefix + d1, w2, p2, g2, prefix + d2);
      assert (prefix + d1)[|prefix|..] == d1 && (prefix + d2)[|prefix|..] == d2;
    }
  }

  /** For any two models and digests without a colon, as SHA-256 texts are. */
  lemma KeysAgreeExactly(w1: Uuid, p1: Uuid, g1: int, m1: Model, d1: string, w2: Uuid, p2: Uuid, g2: int, m2: Model, d2: string)
    requires ':' !in d1 && ':' !in d2
    ensures Key(w1, p1, g1, m1, d1) == Key(w2, p2, g2, m2, d2) <==>
      w1 == w2 && p1 == p2 && g1 == g2 && ModelText(m1) == ModelText(m2) && d1 == d2
  {
    if Key(w1, p1, g1, m1, d1) == Key(w2, p2, g2, m2, d2) {
      FrontsAgree(w1, p1, g1, ModelText(m1) + ":" + d1, w2, p2, g2, ModelText(m2) + ":" + d2);
      CutAtLastColon(ModelText(m1), d1, ModelText(m2), d2);
    }
  }

  lemma JoinCons(part: string, rest: seq<string>)
    requires rest != []
    ensures Splitting.Join([part] + rest, ':') == part + ":" + Splitting.Join(rest, ':')
  {
    assert ([part] + rest)[1..] == rest;
  }

  /** Without stray colons a key splits at its colons into the seven parts, in this order. */
  lemma KeyReads(w: Uuid, p: Uuid, g: int, m: Model, d: string)
    requires ColonFree(m) && ':' !in d
    ensures Splitting.Split(Key(w, p, g, m, d), ':') ==
            [Hyphenated(w), Hyphenated(p), Decimal(g), m.name, m.revision, m.recipe, d]
  {
    NoColon(w, g);
    NoColon(p, g);
    SevenSplit(Hyphenated(w), Hyphenated(p), Decimal(g), m.name, m.revision, m.recipe, d);
  }

  lemma SevenSplit(a: string, b: string, c: string, e: string, f: string, h: string, d: string)
    requires ':' !in a && ':' !in b && ':' !in c && ':' !in e && ':' !in f && ':' !in h && ':' !in d
    ensures Splitting.Split(a + ":" + (b + ":" + (c + ":" + (e + ":" + f + ":" + h + ":" + d))), ':') == [a, b, c, e, f, h, d]
  {
    var tail, parts := [e, f, h, d], [a, b, c, e, f, h, d];
    TailJoined(e, f, h, d);
    FrontJoined(a, b, c, tail);
    assert [a, b, c] + tail == parts;
    Splitting.SplitJoin(parts, ':');
  }

  lemma TailJoined(e: string, f: string, h: string, d: string)
    ensures Splitting.Join([e, f, h, d], ':') == e + ":" + f + ":" + h + ":" + d
  {
    Regrouped(e, f, h, d);
    assert [h] + [d] == [h, d] && [f] + [h, d] == [f, h, d] && [e] + [f, h, d] == [e, f, h, d];
    JoinCons(h, [d]);
    JoinCons(f, [h, d]);
    JoinCons(e, [f, h, d]);
  }

  lemma FrontJoined(a: string, b: string, c: string, rest: seq<string>)
    requires rest != []
    ensures Splitting.Join([a, b, c] + rest, ':') == a + ":" + (b + ":" + (c + ":" + Splitting.Join(rest, ':')))
  {
    JoinCons(c, rest);
    JoinCons(b, [c] + rest);
    JoinCons(a, [b] + ([c] + rest));
    assert [a] + ([b] + ([c] + rest)) == [a, b, c] + rest;
  }

  // -- which models a key tells apart ---------------------------------------------------------

  ghost predicate SameNames(a: Model, b: Model) {
    a.name == b.name && a.revision == b.revision && a.recipe == b.recipe
  }

  predicate ColonFree(m: Model) {
    ':' !in m.name && ':' !in m.revision && ':' !in m.recipe
  }

  /** The text of the model belongs to no model with another name, revision or recipe. */
  ghost predicate Identified(m: Model) {
    forall other :: ModelText(other) == ModelText(m) ==> SameNames(other, m)
  }

  function Colons(s: string): nat {
    multiset(s)[':']
  }

  lemma ColonsOf(m: Model)
    ensures Colons(ModelText(m)) == Colons(m.name) + Colons(m.revision) + Colons(m.recipe) + 2
    ensures ColonFree(m) <==> Colons(ModelText(m)) == 2
  {
    assert Colons(":") == 1;
    assert multiset(ModelText(m)) ==
           multiset(m.name) + multiset(":") + multiset(m.revision) + multiset(":") + multiset(m.recipe);
    assert forall s: string :: ':' in s <==> ':' in multiset(s);
  }

  /** A text with two colons has one reading. */
  lemma ColonFreeIdentified(m: Model, other: Model)
    requires ColonFree(m) && ModelText(other) == ModelText(m)
    ensures SameNames(other, m)
  {
    ColonsOf(m);
    ColonsOf(other);
    CutAtLastColon(m.name + ":" + m.revision, m.recipe, other.name + ":" + other.revision, other.recipe);
    CutAtLastColon(m.name, m.revision, other.name, other.revision);
  }

  /** Cut a text at a colon in it. */
  lemma AtColon(s: string) returns (a: string, b: string)
    requires ':' in s
    ensures s == a + ":" + b
  {
    var i :| 0 <= i < |s| && s[i] == ':';
    a, b := s[..i], s[i + 1..];
  }

  /** A colon within a field can be read as a separator, and a separator as part of a field. */
  lemma AnotherReading(m: Model) returns (other: Model)
    requires !ColonFree(m)
    ensures ModelText(other) == ModelText(m) && !SameNames(other, m)
  {
    if ':' in m.name {
      var a, b := AtColon(m.name);
      other := Model(a, b + ":" + m.revision, m.dimensions, m.recipe);
      assert a + ":" + b + ":" + m.revision == a + ":" + (b + ":" + m.revision);
    } else if ':' in m.revision {
      var a, b := AtColon(m.revision);
      other := Model(m.name + ":" + a, b, m.dimensions, m.recipe);
      assert m.name + ":" + a + ":" + b == m.name + ":" + (a + ":" + b);
    } else {
      var a, b := AtColon(m.recipe);
      other := Model(m.name, m.revision + ":" + a, m.dimensions, b);
      assert m.name + ":" + (m.revision + ":" + a) + ":" + b == m.name + ":" + m.revision + ":" + (a + ":" + b);
    }
  }

  /** A key pins down name, revision and recipe exactly for the models without a colon in them. */
  lemma IdentifiedExactly(m: Model)
    ensures Identified(m) <==> ColonFree(m)
  {
    if ColonFree(m) {
      forall other | ModelText(other) == ModelText(m) ensures SameNames(other, m) {
        ColonFreeIdentified(m, other);
      }
    } else {
      var other := AnotherReading(m);
    }
  }

  /** No other model, by name, revision or recipe, has this key. */
  ghost predicate IdentifiedByKey(w: Uuid, p: Uuid, g: int, m: Model, d: string) {
    forall other :: Key(w, p, g, other, d) == Key(w, p, g, m, d) ==> SameNames(other, m)
  }

  lemma SameKeySameText(w: Uuid, p: Uuid, g: int, a: Model, b: Model, d: string)
    ensures Key(w, p, g, a, d) == Key(w, p, g, b, d) <==> ModelText(a) == ModelText(b)
  {
    if Key(w, p, g, a, d) == Key(w, p, g, b, d) {
      var s, t := ModelText(a) + ":" + d, ModelText(b) + ":" + d;
      FrontsAgree(w, p, g, s, w, p, g, t);
      assert s[..|ModelText(a)|] == ModelText(a) && t[..|ModelText(b)|] == ModelText(b);
    }
  }

  /** So a key pins its model down, up to dimensions, exactly when the model has no colon. */
  lemma KeyIdentifiesExactly(w: Uuid, p: Uuid, g: int, m: Model, d: string)
    ensures IdentifiedByKey(w, p, g, m, d) <==> ColonFree(m)
  {
    IdentifiedExactly(m);
    forall other ensures Key(w, p, g, other, d) == Key(w, p, g, m, d) <==> ModelText(other) == ModelText(m) {
      SameKeySameText(w, p, g, other, m, d);
    }
  }

  /** With models free of colons, and any digests, equal keys are equal parts; dimensions never matter. */
  lemma ColonFreeKeysAgree(w1: Uuid, p1: Uuid, g1: int, m1: Model, d1: string, w2: Uuid, p2: Uuid, g2: int, m2: Model, d2: string)
    requires ColonFree(m1) && ColonFree(m2)
    ensures Key(w1, p1, g1, m1, d1) == Key(w2, p2, g2, m2, d2) <==>
      w1 == w2 && p1 == p2 && g1 == g2 && SameNames(m1, m2) && d1 == d2
  {
    if Key(w1, p1, g1, m1, d1) == Key(w2, p2, g2, m2, d2) {
      FrontsAgree(w1, p1, g1, ModelText(m1) + ":" + d1, w2, p2, g2, ModelText(m2) + ":" + d2);
      RestsAgree(m1, d1, m2, d2);
    }
  }

  lemma Regrouped(a: string, b: string, c: string, d: string)
    ensures a + ":" + b + ":" + c + ":" + d == a + ":" + (b + ":" + (c + ":" + d))
  {
  }

  lemma RestsAgree(m1: Model, d1: string, m2: Model, d2: string)
    requires ColonFree(m1) && ColonFree(m2) && ModelText(m1) + ":" + d1 == ModelText(m2) + ":" + d2
    ensures SameNames(m1, m2) && d1 == d2
  {
    Regrouped(m1.name, m1.revision, m1.recipe, d1);
    Regrouped(m2.name, m2.revision, m2.recipe, d2);
    var t1, t2 := m1.recipe + ":" + d1, m2.recipe + ":" + d2;
    CutAtColon(m1.name, m1.revision + ":" + t1, m2.name, m2.revision + ":" + t2);
    CutAtColon(m1.revision, t1, m2.revision, t2);
    CutAtColon(m1.recipe, d1, m2.recipe, d2);
  }

  /** Validation accepts one model. */
  lemma ValidatedExactly(m: Model)
    ensures Validated(m) <==>
      && m.name == "intfloat/multilingual-e5-small" && m.revision == "614241f622f53c4eeff9890bdc4f31cfecc418b3"
      && m.dimensions == 384 && m.recipe == "title_v1"
  {
  }

  lemma PlainName()
    ensures ':' !in PINNED_NAME
  {
    assert forall i :: 0 <= i < 30 ==> PINNED_NAME[i] != ':';
  }

  lemma PlainRevision()
    ensures ':' !in PINNED_REVISION
  {
    assert forall i :: 0 <= i < 40 ==> PINNED_REVISION[i] != ':';
  }

  /** The only model that reaches the key is one of these. */
  lemma ValidatedColonFree(m: Model)
    requires Validated(m)
    ensures ColonFree(m)
  {
    PlainName();
    PlainRevision();
  }

  /** A colon moved between fields, and another number of dimensions, leave every key as it is. */
  lemma ModelsCollide(w: Uuid, p: Uuid, g: int, d: string)
    ensures Key(w, p, g, Model("a:b", "c", 384, "r"), d) == Key(w, p, g, Model("a", "b:c", 384, "r"), d)
    ensures Key(w, p, g, Model("a", "b", 384, "r"), d) == Key(w, p, g, Model("a", "b", 768, "r"), d)
  {
    assert "a:b" + ":" + "c" == "a" + ":" + "b:c";
  }
}
