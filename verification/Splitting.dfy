/** Splitting a string at a separator and joining it again, as `str::split` and `join` do. */
module Splitting {

  function Find(s: string, separator: char): (p: nat)
    ensures p <= |s| && separator !in s[..p]
    ensures p < |s| ==> s[p] == separator
  {
    if s == "" || s[0] == separator then 0
    else
      var p := Find(s[1..], separator);
      assert s[..p + 1] == [s[0]] + s[1..][..p];
      p + 1
  }

  function Split(s: string, separator: char): seq<string> {
    var p := Find(s, separator);
    if p == |s| then [s] else [s[..p]] + Split(s[p + 1..], separator)
  }

  function Join(parts: seq<string>, separator: char): string {
    if parts == [] then ""
    else if |parts| == 1 then parts[0]
    else parts[0] + [separator] + Join(parts[1..], separator)
  }

  ghost predicate Separable(parts: seq<string>, separator: char) {
    parts != [] && forall i :: 0 <= i < |parts| ==> separator !in parts[i]
  }

  lemma {:induction false} FindAfter(part: string, rest: string, separator: char)
    requires separator !in part && (rest == "" || rest[0] == separator)
    ensures Find(part + rest, separator) == |part|
  {
    if part == "" {
      assert part + rest == rest;
    } else {
      FindAfter(part[1..], rest, separator);
      assert (part + rest)[1..] == part[1..] + rest;
    }
  }

  lemma SeparableCons(part: string, parts: seq<string>, separator: char)
    requires parts != []
    ensures Separable([part] + parts, separator) <==> separator !in part && Separable(parts, separator)
  {
    var longer := [part] + parts;
    assert forall i :: 0 <= i < |parts| ==> parts[i] == longer[i + 1];
    assert longer[0] == part;
  }

  lemma {:induction false} JoinSplit(s: string, separator: char)
    ensures Separable(Split(s, separator), separator)
    ensures Join(Split(s, separator), separator) == s
    decreases |s|
  {
    var p := Find(s, separator);
    if p == |s| {
      assert s[..p] == s;
    } else {
      var rest := s[p + 1..];
      JoinSplit(rest, separator);
      SeparableCons(s[..p], Split(rest, separator), separator);
      assert ([s[..p]] + Split(rest, separator))[1..] == Split(rest, separator);
      assert s == s[..p] + [separator] + rest;
    }
  }

  lemma {:induction false} SplitJoin(parts: seq<string>, separator: char)
    requires Separable(parts, separator)
    ensures Split(Join(parts, separator), separator) == parts
    decreases |parts|
  {
    if |parts| == 1 {
      assert parts == [parts[0]];
      assert parts[0] + "" == parts[0];
      FindAfter(parts[0], "", separator);
    } else {
      var first, tail := parts[0], parts[1..];
      assert parts == [first] + tail;
      SeparableCons(first, tail, separator);
      SplitJoin(tail, separator);
      var rest := [separator] + Join(tail, separator);
      assert Join(parts, separator) == first + rest;
      FindAfter(first, rest, separator);
      assert (first + rest)[..|first|] == first;
      assert (first + rest)[|first| + 1..] == Join(tail, separator);
    }
  }

  /** Joining a longer list puts a separator between the two halves. */
  lemma {:induction false} JoinAppend(a: seq<string>, b: seq<string>, separator: char)
    requires a != [] && b != []
    ensures Join(a + b, separator) == Join(a, separator) + [separator] + Join(b, separator)
  {
    if |a| == 1 {
      assert (a + b)[1..] == b;
    } else {
      assert (a + b)[1..] == a[1..] + b;
      JoinAppend(a[1..], b, separator);
    }
  }
}
