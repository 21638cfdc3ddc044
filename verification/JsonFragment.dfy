/**
Stateless byte windows over the JSON representation of a read. One call returns either the whole
document or one page of it; a page is fitted under an encoded-size budget by binary search and
carries the digest that pins the next call to the same document.
*/
module JsonFragment {
  import opened Wrappers
  import opened Bytes
  import opened Text

  const READ_BUDGET: nat := 8192
  const MAX_LIMIT: nat := 4096

  datatype Window = Window(offset: Option<nat>, limit: Option<nat>, digest: Option<string>) {
    predicate Explicit() {
      offset.Some? || limit.Some? || digest.Some?
    }

    function Start(): nat {
      if offset.Some? then offset.value else 0
    }

    function Limit(): nat {
      if limit.Some? then limit.value else MAX_LIMIT
    }
  }

  datatype Response =
    | Full(document: seq<Byte>, actions: seq<string>, recommended: Option<nat>)
    | Fragment(digest: string, total: nat, start: nat, text: seq<Byte>, next: Option<nat>,
               actions: seq<string>, recommended: Option<nat>)

  /** What a continuation is built from; the route pins that never change are left out. */
  datatype Params = Params(digest: string, limit: nat, offset: nat)

  /**
  The caller of the encoder: the digest function, the encoded size of a response envelope, the
  continuation builder, the actions delivered at the end, and the transport capacity.
  */
  datatype Host = Host(
    sha256: seq<Byte> -> string,
    encodedLength: Response -> nat,
    continuation: Params -> Result<string>,
    terminal: seq<string>,
    ordinaryRecommended: Option<nat>,
    eofRecommended: Option<nat>,
    capacity: nat)
  {
    function Budget(): nat {
      if capacity < READ_BUDGET then capacity else READ_BUDGET
    }
  }

  predicate IsHex(c: char) {
    '0' <= c <= '9' || 'a' <= c <= 'f' || 'A' <= c <= 'F'
  }

  /** The selector field that the window validation refuses, if any. */
  function WindowFault(w: Window): Option<string> {
    if w.limit.Some? && (w.limit.value == 0 || w.limit.value > MAX_LIMIT) then Some("limit_bytes")
    else if (w.digest.Some? && (|w.digest.value| != 64 || exists i :: 0 <= i < |w.digest.value| && !IsHex(w.digest.value[i])))
            || (w.Start() > 0 && w.digest.None?)
    then Some("representation_digest")
    else None
  }

  /** No code point is cut: the byte at the index is not a UTF-8 continuation byte. */
  predicate Boundary(doc: seq<Byte>, i: nat) {
    i == 0 || i == |doc| || (i < |doc| && !(0x80 <= doc[i] < 0xC0))
  }

  /** The offset is the length of an encoded prefix of the text. */
  ghost predicate CharacterEnd(text: string, i: nat) {
    exists k :: 0 <= k <= |text| && i == |Utf8(text[..k])|
  }

  lemma CharacterEndAppend(text: string, c: char, i: nat)
    ensures CharacterEnd(text + [c], i) <==> CharacterEnd(text, i) || i == |Utf8(text + [c])|
  {
    var longer := text + [c];
    assert forall k :: 0 <= k <= |text| ==> longer[..k] == text[..k];
    assert longer[..|longer|] == longer;
  }

  /** Only the first byte of an encoded character is not a continuation byte. */
  lemma BoundaryAppend(front: seq<Byte>, c: char, i: nat)
    ensures Boundary(front + Utf8Char(c), i) <==> Boundary(front, i) || i == |front + Utf8Char(c)|
  {
    var bytes := front + Utf8Char(c);
    if i < |front| {
      assert bytes[i] == front[i];
    } else if i < |bytes| {
      assert bytes[i] == Utf8Char(c)[i - |front|];
    }
  }

  /** In the encoding of a text, boundaries are exactly the ends of encoded characters. */
  lemma {:induction false} BoundaryExactly(text: string, i: nat)
    ensures Boundary(Utf8(text), i) <==> CharacterEnd(text, i)
  {
    if text == "" {
      assert CharacterEnd(text, 0) by { assert |Utf8(text[..0])| == 0; }
    } else {
      var last := |text| - 1;
      BoundaryExactly(text[..last], i);
      BoundaryAppend(Utf8(text[..last]), text[last], i);
      CharacterEndAppend(text[..last], text[last], i);
      assert text == text[..last] + [text[last]];
    }
  }

  function PageAt(h: Host, doc: seq<Byte>, limit: nat, start: nat, end: nat): Result<Response>
    requires start <= end <= |doc|
  {
    var digest := h.sha256(doc);
    if end < |doc| then
      match h.continuation(Params(digest, limit, end))
      case Ok(action) => Ok(Fragment(digest, |doc|, start, doc[start..end], Some(end), [action], Some(0)))
      case Err(e) => Err(e)
    else
      Ok(Fragment(digest, |doc|, start, doc[start..end], None, h.terminal, h.eofRecommended))
  }

  // -- what a call promises -------------------------------------------------------------------

  /** Without a selector a read starts at zero with a limit of 4096; each selector that is given counts. */
  lemma WindowDefaults(w: Window)
    ensures w.offset == Some(w.Start()) || (w.offset.None? && w.Start() == 0)
    ensures w.limit == Some(w.Limit()) || (w.limit.None? && w.Limit() == 4096)
    ensures w.Explicit() <==> w != Window(None, None, None)
  {
  }

  ghost predicate LimitValid(w: Window) {
    w.limit.Some? ==> 1 <= w.limit.value <= 4096
  }

  /** A pin is 64 hexadecimal digits, names this document, and is there for every offset but zero. */
  ghost predicate PinValid(h: Host, doc: seq<Byte>, w: Window) {
    && (w.digest.Some? ==>
          && |w.digest.value| == 64 && (forall i :: 0 <= i < 64 ==> w.digest.value[i] in "0123456789abcdefABCDEF")
          && w.digest.value == h.sha256(doc))
    && (w.digest.None? ==> w.offset.None? || w.offset.value == 0)
  }

  ghost predicate OffsetValid(doc: seq<Byte>, w: Window) {
    w.offset.Some? ==> w.offset.value <= |doc| && Boundary(doc, w.offset.value)
  }

  ghost predicate Accepted(h: Host, doc: seq<Byte>, w: Window) {
    LimitValid(w) && PinValid(h, doc, w) && OffsetValid(doc, w)
  }

  /** The encoded response is within the transport capacity and within 8192 bytes. */
  ghost predicate Small(h: Host, r: Response) {
    h.encodedLength(r) <= h.capacity && h.encodedLength(r) <= 8192
  }

  lemma BudgetMeaning(h: Host, r: Response)
    ensures h.encodedLength(r) <= h.Budget() <==> Small(h, r)
  {
  }

  ghost predicate Fits(h: Host, doc: seq<Byte>, limit: nat, start: nat, end: nat)
    requires start <= end <= |doc|
  {
    var page := PageAt(h, doc, limit, start, end);
    page.Ok? && Small(h, page.value)
  }

  /** An intermediate end: inside the limit, before the end of the document, on a boundary. */
  predicate IntermediateEnd(doc: seq<Byte>, w: Window, end: nat) {
    w.Start() <= end <= w.Start() + w.Limit() && end < |doc| && Boundary(doc, end)
  }

  /** `page` is a legitimate answer: text between boundaries, in budget, and progress before the end. */
  ghost predicate Serves(h: Host, doc: seq<Byte>, w: Window, page: Response) {
    && Accepted(h, doc, w)
    && exists end: nat ::
      && w.Start() <= end <= |doc| && Boundary(doc, end)
      && end <= w.Start() + w.Limit()
      && (w.Start() < end || end == |doc|)
      && Fits(h, doc, w.Limit(), w.Start(), end)
      && PageAt(h, doc, w.Limit(), w.Start(), end) == Ok(page)
  }

  ghost predicate WholeFits(h: Host, doc: seq<Byte>, w: Window) {
    w == Window(None, None, None) && Small(h, Full(doc, h.terminal, h.ordinaryRecommended))
  }

  ghost predicate Paged(h: Host, doc: seq<Byte>, w: Window) {
    Accepted(h, doc, w) && !WholeFits(h, doc, w)
  }

  ghost predicate EofFits(h: Host, doc: seq<Byte>, w: Window) {
    Fits(h, doc, w.Limit(), |doc|, |doc|)
  }

  ghost predicate TerminalFits(h: Host, doc: seq<Byte>, w: Window)
    requires w.Start() <= |doc|
  {
    |doc| <= w.Start() + w.Limit() && Fits(h, doc, w.Limit(), w.Start(), |doc|)
  }

  /** Continuations can be built, and a longer intermediate page never encodes shorter. */
  ghost predicate SizesGrow(h: Host, doc: seq<Byte>, w: Window) {
    forall a: nat, b: nat :: IntermediateEnd(doc, w, a) && IntermediateEnd(doc, w, b) && a <= b ==>
      var p, q := PageAt(h, doc, w.Limit(), w.Start(), a), PageAt(h, doc, w.Limit(), w.Start(), b);
      p.Ok? && q.Ok? && h.encodedLength(p.value) <= h.encodedLength(q.value)
  }

  // -- the search -----------------------------------------------------------------------------

  /** The boundaries from `from` through `through` that lie before the end of the document. */
  function Ends(doc: seq<Byte>, from: nat, through: nat): (ends: seq<nat>)
    ensures forall i :: 0 <= i < |ends| ==> from <= ends[i] <= through && ends[i] < |doc| && Boundary(doc, ends[i])
    ensures forall i, j :: 0 <= i < j < |ends| ==> ends[i] < ends[j]
    ensures forall e :: from <= e <= through && e < |doc| && Boundary(doc, e) ==> e in ends
  {
    if through < from then []
    else
      var rest := if through == 0 then [] else Ends(doc, from, through - 1);
      if through < |doc| && Boundary(doc, through) then rest + [through] else rest
  }

  method UpperEnd(doc: seq<Byte>, w: Window) returns (upper: nat)
    requires w.Start() <= |doc| && Boundary(doc, w.Start())
    ensures w.Start() <= upper <= |doc| && upper <= w.Start() + w.Limit() && Boundary(doc, upper)
    ensures forall e :: upper < e <= w.Start() + w.Limit() && e <= |doc| ==> !Boundary(doc, e)
  {
    upper := if w.Start() + w.Limit() < |doc| then w.Start() + w.Limit() else |doc|;
    while !Boundary(doc, upper)
      decreases upper
      invariant w.Start() <= upper <= |doc| && upper <= w.Start() + w.Limit()
      invariant forall e :: upper < e <= w.Start() + w.Limit() && e <= |doc| ==> !Boundary(doc, e)
    {
      upper := upper - 1;
    }
  }

  /** The largest fitting entry of `ends`, by bisection. */
  method SearchEnds(h: Host, doc: seq<Byte>, w: Window, ends: seq<nat>) returns (best: Result<Option<(nat, Response)>>)
    requires forall i :: 0 <= i < |ends| ==> IntermediateEnd(doc, w, ends[i])
    requires forall i, j :: 0 <= i < j < |ends| ==> ends[i] < ends[j]
    ensures best.Ok? && best.value.Some? ==>
      && best.value.value.0 in ends && IntermediateEnd(doc, w, best.value.value.0)
      && Fits(h, doc, w.Limit(), w.Start(), best.value.value.0)
      && PageAt(h, doc, w.Limit(), w.Start(), best.value.value.0) == Ok(best.value.value.1)
    ensures SizesGrow(h, doc, w) ==> best.Ok?
    ensures SizesGrow(h, doc, w) && best.value.None? ==>
      forall i :: 0 <= i < |ends| ==> !Fits(h, doc, w.Limit(), w.Start(), ends[i])
    ensures SizesGrow(h, doc, w) && best.value.Some? ==>
      forall i :: 0 <= i < |ends| && best.value.value.0 < ends[i] ==> !Fits(h, doc, w.Limit(), w.Start(), ends[i])
  {
    var lo, hi := 0, |ends|;
    var found: Option<(nat, Response)> := None;
    while lo < hi
      invariant 0 <= lo <= hi <= |ends|
      invariant found.None? <==> lo == 0
      invariant found.Some? ==>
        && found.value.0 == ends[lo - 1]
        && Fits(h, doc, w.Limit(), w.Start(), ends[lo - 1])
        && PageAt(h, doc, w.Limit(), w.Start(), ends[lo - 1]) == Ok(found.value.1)
      invariant SizesGrow(h, doc, w) ==> forall i :: hi <= i < |ends| ==> !Fits(h, doc, w.Limit(), w.Start(), ends[i])
    {
      var mid := lo + (hi - lo) / 2;
      var candidate := PageAt(h, doc, w.Limit(), w.Start(), ends[mid]);
      if candidate.Err? {
        return Err(candidate.error);
      }
      BudgetMeaning(h, candidate.value);
      if h.encodedLength(candidate.value) <= h.Budget() {
        found := Some((ends[mid], candidate.value));
        lo := mid + 1;
      } else {
        hi := mid;
      }
    }
    return Ok(found);
  }

  // -- the encoder ----------------------------------------------------------------------------

  lemma WindowFaultMeaning(h: Host, doc: seq<Byte>, w: Window)
    ensures WindowFault(w) == Some("limit_bytes") <==> !LimitValid(w)
    ensures LimitValid(w) && WindowFault(w).Some? ==> WindowFault(w).value == "representation_digest" && !PinValid(h, doc, w)
    ensures WindowFault(w).None? ==> (PinValid(h, doc, w) <==> w.digest.None? || w.digest.value == h.sha256(doc))
  {
    assert forall c: char :: IsHex(c) <==> c in "0123456789abcdefABCDEF";
  }

  method EncodeActions(h: Host, doc: seq<Byte>, w: Window) returns (r: Result<Response>)
    // every page that is returned is legitimate
    ensures r.Ok? && r.value.Fragment? ==> Serves(h, doc, w, r.value)
    ensures r.Ok? && r.value.Full? ==> WholeFits(h, doc, w) && r.value.document == doc
    ensures r.Ok? ==> h.encodedLength(r.value) <= h.capacity && h.encodedLength(r.value) <= 8192
    // refusals are exactly the windows that are not acceptable, and name the first selector at fault
    ensures !LimitValid(w) ==> r == Err(Refused("limit_bytes"))
    ensures LimitValid(w) && !PinValid(h, doc, w) ==> r == Err(Refused("representation_digest"))
    ensures LimitValid(w) && PinValid(h, doc, w) && !OffsetValid(doc, w) ==> r == Err(Refused("offset_bytes"))
    ensures Accepted(h, doc, w) && WholeFits(h, doc, w) ==> r == Ok(Full(doc, h.terminal, h.ordinaryRecommended))
    // the end of the document must be deliverable before anything is
    ensures Paged(h, doc, w) && !EofFits(h, doc, w) ==> r == Err(RequestTooLarge)
    ensures Paged(h, doc, w) && EofFits(h, doc, w) && TerminalFits(h, doc, w) ==>
              r == PageAt(h, doc, w.Limit(), w.Start(), |doc|)
    // otherwise, with growing sizes, the page is the largest intermediate one, and refused only if none fits
    ensures Paged(h, doc, w) && EofFits(h, doc, w) && !TerminalFits(h, doc, w) && SizesGrow(h, doc, w) ==>
              Largest(h, doc, w, r)
  {
    var fault := WindowFault(w);
    WindowFaultMeaning(h, doc, w);
    if fault.Some? {
      return Err(Refused(fault.value));
    }
    if w.digest.Some? && w.digest.value != h.sha256(doc) {
      return Err(Refused("representation_digest"));
    }
    var offset := w.Start();
    if offset > |doc| || !Boundary(doc, offset) {
      return Err(Refused("offset_bytes"));
    }
    var whole := Full(doc, h.terminal, h.ordinaryRecommended);
    BudgetMeaning(h, whole);
    if !w.Explicit() && h.encodedLength(whole) <= h.Budget() {
      return Ok(whole);
    }
    var emptyEof := PageAt(h, doc, w.Limit(), |doc|, |doc|);
    if h.encodedLength(emptyEof.value) > h.Budget() {
      return Err(RequestTooLarge);
    }
    if offset == |doc| {
      return emptyEof;
    }
    var upper := UpperEnd(doc, w);
    assert Boundary(doc, |doc|);
    if upper == |doc| {
      var terminal := PageAt(h, doc, w.Limit(), offset, upper);
      if h.encodedLength(terminal.value) <= h.Budget() {
        return terminal;
      }
    }
    r := BestIntermediate(h, doc, w, upper);
  }

  /** `r` is the longest page with progress that fits, or the refusal when there is none. */
  ghost predicate Largest(h: Host, doc: seq<Byte>, w: Window, r: Result<Response>)
    requires w.Start() <= |doc|
  {
    || (&& r == Err(RequestTooLarge)
        && forall e: nat :: IntermediateEnd(doc, w, e) && w.Start() < e ==> !Fits(h, doc, w.Limit(), w.Start(), e))
    || exists end: nat ::
      && IntermediateEnd(doc, w, end) && w.Start() < end && Fits(h, doc, w.Limit(), w.Start(), end)
      && r == PageAt(h, doc, w.Limit(), w.Start(), end)
      && forall e: nat :: IntermediateEnd(doc, w, e) && end < e ==> !Fits(h, doc, w.Limit(), w.Start(), e)
  }

  /** Cutting back to `upper` loses no intermediate end. */
  method CandidateEnds(doc: seq<Byte>, w: Window, upper: nat) returns (ends: seq<nat>)
    requires w.Start() <= upper <= |doc| && upper <= w.Start() + w.Limit()
    requires forall e :: upper < e <= w.Start() + w.Limit() && e <= |doc| ==> !Boundary(doc, e)
    ensures forall i :: 0 <= i < |ends| ==> IntermediateEnd(doc, w, ends[i])
    ensures forall i, j :: 0 <= i < j < |ends| ==> ends[i] < ends[j]
    ensures forall e: nat :: IntermediateEnd(doc, w, e) ==> e in ends
  {
    ends := Ends(doc, w.Start(), upper);
  }

  /** The tail of the encoder once the final page has been ruled out. */
  method BestIntermediate(h: Host, doc: seq<Byte>, w: Window, upper: nat) returns (r: Result<Response>)
    requires Accepted(h, doc, w) && w.Start() <= upper <= |doc| && upper <= w.Start() + w.Limit()
    requires forall e :: upper < e <= w.Start() + w.Limit() && e <= |doc| ==> !Boundary(doc, e)
    ensures r.Ok? ==> Serves(h, doc, w, r.value) && r.value.Fragment?
    ensures SizesGrow(h, doc, w) ==> Largest(h, doc, w, r)
  {
    var offset := w.Start();
    var ends := CandidateEnds(doc, w, upper);
    var best := SearchEnds(h, doc, w, ends);
    if best.Err? {
      return Err(best.error);
    }
    match best.value
    case Some((end, page)) =>
      if end > offset {
        return Ok(page);
      }
      return Err(RequestTooLarge);
    case None =>
      return Err(RequestTooLarge);
  }
}
