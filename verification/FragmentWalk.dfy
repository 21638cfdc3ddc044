/**
Whole walks over a fragmented read: start at offset zero, follow every returned continuation, stop
at the page without one. The document, the budget and the limit may differ from call to call.
*/
module FragmentWalk {
  import opened Wrappers
  import opened Bytes
  import opened JsonFragment

  /** One answered call: who served it, the document at that moment, the window, and the page. */
  datatype Step = Step(host: Host, doc: seq<Byte>, window: Window, page: Response)

  ghost predicate Answered(s: Step) {
    s.page.Fragment? && Serves(s.host, s.doc, s.window, s.page)
  }

  /** The next call asks for the offered offset and repeats the digest of the page before it. */
  ghost predicate Follows(a: Step, b: Step)
    requires a.page.Fragment?
  {
    a.page.next.Some? && b.window.offset == a.page.next && b.window.digest == Some(a.page.digest)
  }

  ghost predicate Walk(sha256: seq<Byte> -> string, steps: seq<Step>) {
    && steps != []
    && (forall k :: 0 <= k < |steps| ==> Answered(steps[k]) && steps[k].host.sha256 == sha256)
    && steps[0].window.Start() == 0
    && (forall k :: 0 <= k < |steps| - 1 ==> Follows(steps[k], steps[k + 1]))
  }

  ghost predicate Complete(steps: seq<Step>) {
    steps != [] && var last := steps[|steps| - 1].page; last.Fragment? && last.next.None?
  }

  /** The digest separates the documents that occur in this walk; nothing is assumed of others. */
  ghost predicate NoCollision(sha256: seq<Byte> -> string, steps: seq<Step>) {
    forall i, j :: 0 <= i < |steps| && 0 <= j < |steps| && sha256(steps[i].doc) == sha256(steps[j].doc) ==>
      steps[i].doc == steps[j].doc
  }

  ghost function Texts(steps: seq<Step>): seq<Byte>
    requires forall k :: 0 <= k < |steps| ==> steps[k].page.Fragment?
  {
    if steps == [] then [] else Texts(steps[..|steps| - 1]) + steps[|steps| - 1].page.text
  }

  /** The end of a page: where the next one starts, or the end of the document. */
  ghost function PageEnd(s: Step): nat
    requires s.page.Fragment?
  {
    if s.page.next.Some? then s.page.next.value else |s.doc|
  }

  lemma PageFacts(s: Step)
    requires Answered(s)
    ensures s.page.digest == s.host.sha256(s.doc) && s.page.total == |s.doc|
    ensures s.page.start == s.window.Start() <= PageEnd(s) <= |s.doc|
    ensures s.page.text == s.doc[s.page.start..PageEnd(s)]
    ensures Boundary(s.doc, s.page.start) && Boundary(s.doc, PageEnd(s))
    ensures s.page.next.Some? ==> s.page.start < PageEnd(s) < |s.doc|
    ensures s.page.next.None? ==> s.page.actions == s.host.terminal && s.page.recommended == s.host.eofRecommended
    ensures s.page.next.Some? ==>
      && |s.page.actions| == 1 && s.page.recommended == Some(0)
      && s.host.continuation(Params(s.page.digest, s.window.Limit(), PageEnd(s))) == Ok(s.page.actions[0])
    ensures s.host.encodedLength(s.page) <= s.host.capacity && s.host.encodedLength(s.page) <= 8192
  {
  }

  /** A followed step was answered from a document with the digest of the one before. */
  lemma PinHolds(a: Step, b: Step)
    requires Answered(a) && Answered(b) && Follows(a, b)
    ensures a.host.sha256(a.doc) == b.host.sha256(b.doc)
  {
    PageFacts(a);
  }

  lemma {:induction false} SameDocument(sha256: seq<Byte> -> string, steps: seq<Step>, k: nat)
    requires Walk(sha256, steps) && NoCollision(sha256, steps) && k < |steps|
    ensures steps[k].doc == steps[0].doc
  {
    if k == 0 {
    } else {
      SameDocument(sha256, steps, k - 1);
      assert Follows(steps[k - 1], steps[k - 1 + 1]);
      PinHolds(steps[k - 1], steps[k]);
    }
  }

  lemma WalkPrefix(sha256: seq<Byte> -> string, steps: seq<Step>, n: nat)
    requires Walk(sha256, steps) && 1 <= n <= |steps|
    ensures Walk(sha256, steps[..n])
  {
    var p := steps[..n];
    forall k | 0 <= k < |p| - 1 ensures Follows(p[k], p[k + 1]) {
      assert Follows(steps[k], steps[k + 1]);
    }
  }

  /** Any prefix of a walk has collected exactly the document up to its last page end. */
  lemma {:induction false} CollectsPrefix(sha256: seq<Byte> -> string, steps: seq<Step>)
    requires Walk(sha256, steps) && NoCollision(sha256, steps)
    ensures PageEnd(steps[|steps| - 1]) <= |steps[0].doc|
    ensures Texts(steps) == steps[0].doc[..PageEnd(steps[|steps| - 1])]
    ensures |steps| - 1 <= steps[|steps| - 1].page.start
    decreases |steps|
  {
    var last := |steps| - 1;
    PageFacts(steps[last]);
    SameDocument(sha256, steps, last);
    var doc := steps[0].doc;
    if last == 0 {
      assert Texts(steps[..0]) == [];
      assert Texts(steps) == steps[0].page.text;
    } else {
      WalkPrefix(sha256, steps, last);
      CollectsPrefix(sha256, steps[..last]);
      NextStart(sha256, steps, last);
      Adjoin(doc, steps[last].page.start, PageEnd(steps[last]));
    }
  }

  lemma Adjoin(doc: seq<Byte>, mid: nat, end: nat)
    requires mid <= end <= |doc|
    ensures doc[..mid] + doc[mid..end] == doc[..end]
  {
  }

  /** A page starts where the one before it ended, and later than that one started. */
  lemma NextStart(sha256: seq<Byte> -> string, steps: seq<Step>, k: nat)
    requires Walk(sha256, steps) && 0 < k < |steps|
    ensures steps[k].page.start == PageEnd(steps[k - 1]) > steps[k - 1].page.start
  {
    assert Follows(steps[k - 1], steps[k - 1 + 1]);
    PageFacts(steps[k - 1]);
    PageFacts(steps[k]);
  }

  lemma {:induction false} StartsIncrease(sha256: seq<Byte> -> string, steps: seq<Step>, i: nat, j: nat)
    requires Walk(sha256, steps) && i < j < |steps|
    ensures steps[i].page.start < steps[j].page.start
  {
    NextStart(sha256, steps, j);
    if i == j - 1 {
    } else {
      StartsIncrease(sha256, steps, i, j - 1);
    }
  }

  /**
  A complete walk reassembles one version of the document, however often it was replaced between
  the calls; its offsets strictly increase, so it has at most one page more than the document has
  bytes; and only its last page carries the terminal actions.
  */
  lemma WalkReassembles(sha256: seq<Byte> -> string, steps: seq<Step>)
    requires Walk(sha256, steps) && Complete(steps) && NoCollision(sha256, steps)
    ensures Texts(steps) == steps[0].doc
    ensures forall k :: 0 <= k < |steps| ==> steps[k].doc == steps[0].doc
    ensures forall i, j :: 0 <= i < j < |steps| ==> steps[i].page.start < steps[j].page.start
    ensures |steps| <= |steps[0].doc| + 1
    ensures steps[|steps| - 1].page.actions == steps[|steps| - 1].host.terminal
    ensures forall k :: 0 <= k < |steps| - 1 ==>
      && |steps[k].page.actions| == 1
      && steps[k].host.continuation(Params(sha256(steps[0].doc), steps[k].window.Limit(), steps[k + 1].page.start))
           == Ok(steps[k].page.actions[0])
  {
    var last := |steps| - 1;
    PageFacts(steps[last]);
    CollectsPrefix(sha256, steps);
    forall k | 0 <= k < |steps| ensures steps[k].doc == steps[0].doc {
      SameDocument(sha256, steps, k);
    }
    forall i, j | 0 <= i < j < |steps| ensures steps[i].page.start < steps[j].page.start {
      StartsIncrease(sha256, steps, i, j);
    }
    forall k | 0 <= k < |steps| - 1
      ensures && |steps[k].page.actions| == 1
              && steps[k].host.continuation(Params(sha256(steps[0].doc), steps[k].window.Limit(), steps[k + 1].page.start))
                   == Ok(steps[k].page.actions[0])
    {
      Continues(sha256, steps, k);
    }
  }

  /** The one action of an intermediate page was built for the digest of the document and the next start. */
  lemma Continues(sha256: seq<Byte> -> string, steps: seq<Step>, k: nat)
    requires Walk(sha256, steps) && NoCollision(sha256, steps) && k + 1 < |steps|
    ensures |steps[k].page.actions| == 1
    ensures steps[k].host.continuation(Params(sha256(steps[0].doc), steps[k].window.Limit(), steps[k + 1].page.start))
              == Ok(steps[k].page.actions[0])
  {
    assert Follows(steps[k], steps[k + 1]);
    PageFacts(steps[k]);
    NextStart(sha256, steps, k + 1);
    SameDocument(sha256, steps, k);
  }

  /** A continuation presented to a changed document is refused, whatever else the host does. */
  lemma ChangedDocumentRefused(a: Step, host: Host, doc: seq<Byte>, w: Window)
    requires Answered(a) && host.sha256 == a.host.sha256 && w.digest == Some(a.page.digest)
    requires host.sha256(doc) != host.sha256(a.doc)
    ensures !Accepted(host, doc, w)
  {
    PageFacts(a);
  }
}
