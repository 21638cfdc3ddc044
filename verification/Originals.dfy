/** The append-only history of original user messages behind a setup or a program, and text patches. */
module Originals {
  import opened Wrappers
  import opened Text
  import opened Uuids

  const I64_MAX: int := 0x7FFF_FFFF_FFFF_FFFF

  /** `checked_add(1)` on a 64-bit signed value, with the error its callers map an overflow to. */
  function Increment(n: int): Result<int> {
    if n == I64_MAX then Err(StorageUnavailable) else Ok(n + 1)
  }

  /** Omission keeps a field; an explicit null clears it. */
  datatype TextPatch = Unchanged | Set(text: Option<string>) {
    function Apply(field: Option<string>): Option<string> {
      if Set? then text else field
    }
  }

  predicate BlankOrAbsent(field: Option<string>) {
    field.None? || Blank(field.value)
  }

  predicate CarriesNul(field: Option<string>) {
    field.Some? && HasNul(field.value)
  }

  /** A question of white space only is no question. */
  function NormalizeQuestion(question: Option<string>): Option<string> {
    if question.Some? && Blank(question.value) then None else question
  }

  /** A field after a patch: kept when omitted, the given text when set, absent when cleared. */
  ghost predicate PatchedField(before: Option<string>, patch: TextPatch, after: Option<string>) {
    && (patch.Unchanged? ==> after == before)
    && (patch.Set? ==> after == patch.text)
  }

  /** The same for a question, which vanishes when it is blank. */
  ghost predicate PatchedQuestion(before: Option<string>, patch: TextPatch, after: Option<string>) {
    && (after.Some? ==> !Blank(after.value) && PatchedField(before, patch, after))
    && (after.None? ==> PatchedField(before, patch, None) || exists text :: Blank(text) && PatchedField(before, patch, Some(text)))
  }

  lemma QuestionPatched(before: Option<string>, patch: TextPatch)
    ensures PatchedQuestion(before, patch, NormalizeQuestion(patch.Apply(before)))
  {
    var asked := patch.Apply(before);
    if asked.Some? && Blank(asked.value) {
      assert PatchedField(before, patch, Some(asked.value));
    }
  }

  /** The field that a patch asks for. */
  ghost function Asked(before: Option<string>, patch: TextPatch): Option<string> {
    match patch
    case Unchanged => before
    case Set(text) => text
  }

  ghost predicate NulFree(field: Option<string>) {
    field.Some? ==> forall i :: 0 <= i < |field.value| ==> field.value[i] != '\0'
  }

  /** Absent, or nothing but white space. */
  ghost predicate Empty(field: Option<string>) {
    field.Some? ==> forall i :: 0 <= i < |field.value| ==> IsWhitespace(field.value[i])
  }

  /** What a patched question becomes is fixed by the patch. */
  lemma QuestionFixed(before: Option<string>, patch: TextPatch, after: Option<string>)
    requires PatchedQuestion(before, patch, after)
    ensures after == if Empty(Asked(before, patch)) then None else Asked(before, patch)
  {
    if after.None? && !PatchedField(before, patch, None) {
      var text :| Blank(text) && PatchedField(before, patch, Some(text));
    }
  }

  /** White space has no NUL, so normalizing a question does not change whether it carries one. */
  lemma QuestionNul(question: Option<string>)
    ensures CarriesNul(NormalizeQuestion(question)) <==> !NulFree(question)
    ensures NormalizeQuestion(question).Some? <==> !Empty(question)
  {
  }

  /** One stored message. `encodedBytes` is what the output guard measured when it was accepted. */
  datatype Original = Original(sequence: int, requestId: Uuid, input: string, encodedBytes: int)

  function ValidateInput(requestId: Uuid, input: string): Result<()> {
    if IsNil(requestId) || Blank(input) || HasNul(input) then Err(InvalidArguments) else Ok(())
  }

  /** A message is acceptable with a request id that is not nil and a text that is not blank and has no NUL. */
  lemma InputExactly(requestId: Uuid, input: string)
    ensures ValidateInput(requestId, input).Ok? <==> requestId != NIL && Trim(input) != "" && '\0' !in input
    ensures ValidateInput(requestId, input).Err? ==> ValidateInput(requestId, input).error == InvalidArguments
  {
    NilExactly(requestId);
    TrimExactly(input);
  }

  /** Counters stop at the largest signed 64-bit value. */
  lemma IncrementExactly(n: int)
    ensures Increment(n) == if n == 9_223_372_036_854_775_807 then Err(StorageUnavailable) else Ok(n + 1)
  {
  }

  function Lookup(originals: seq<Original>, requestId: Uuid): (r: Option<Original>)
    ensures r.Some? <==> exists i :: 0 <= i < |originals| && originals[i].requestId == requestId
    ensures r.Some? ==> r.value in originals && r.value.requestId == requestId
  {
    if originals == [] then None
    else if originals[|originals| - 1].requestId == requestId then Some(originals[|originals| - 1])
    else Lookup(originals[..|originals| - 1], requestId)
  }

  function Largest(originals: seq<Original>): int {
    if originals == [] then 0 else
      var before := Largest(originals[..|originals| - 1]);
      var last := originals[|originals| - 1].encodedBytes;
      if before < last then last else before
  }

  /** Numbered 1, 2, 3, ..., no request twice, every message acceptable and measured. */
  ghost predicate Recorded(originals: seq<Original>) {
    && (forall i :: 0 <= i < |originals| ==> originals[i].sequence == i + 1)
    && (forall i, j :: 0 <= i < j < |originals| ==> originals[i].requestId != originals[j].requestId)
    && (forall i :: 0 <= i < |originals| ==>
          ValidateInput(originals[i].requestId, originals[i].input).Ok? && originals[i].encodedBytes >= 0)
  }

  ghost predicate Measured(originals: seq<Original>) {
    forall i :: 0 <= i < |originals| ==> originals[i].encodedBytes >= 0
  }

  /** `Largest` is a measured size and no measured size exceeds it. */
  lemma {:induction false} LargestIsMaximum(originals: seq<Original>)
    requires Measured(originals) && originals != []
    ensures forall i :: 0 <= i < |originals| ==> originals[i].encodedBytes <= Largest(originals)
    ensures exists i :: 0 <= i < |originals| && originals[i].encodedBytes == Largest(originals)
  {
    var last := |originals| - 1;
    var init := originals[..last];
    assert forall k :: 0 <= k < last ==> originals[k] == init[k];
    if init == [] {
      assert originals[last].encodedBytes == Largest(originals);
    } else {
      LargestIsMaximum(init);
      if Largest(init) < originals[last].encodedBytes {
        assert originals[last].encodedBytes == Largest(originals);
      } else {
        var i :| 0 <= i < |init| && init[i].encodedBytes == Largest(init);
        assert originals[i].encodedBytes == Largest(originals);
      }
    }
  }

  lemma RecordAnother(originals: seq<Original>, another: Original)
    requires Recorded(originals) && Lookup(originals, another.requestId).None?
    requires another.sequence == |originals| + 1 && another.encodedBytes >= 0
    requires ValidateInput(another.requestId, another.input).Ok?
    ensures Recorded(originals + [another])
    ensures Largest(originals + [another]) ==
            if Largest(originals) < another.encodedBytes then another.encodedBytes else Largest(originals)
  {
    LargestAppend(originals, another);
    RequestsStayDistinct(originals, another);
    var longer := originals + [another];
    forall i | 0 <= i < |longer|
      ensures longer[i].sequence == i + 1 && longer[i].encodedBytes >= 0
      ensures ValidateInput(longer[i].requestId, longer[i].input).Ok?
    {
      assert longer[i] == if i < |originals| then originals[i] else another;
    }
  }

  lemma RequestsStayDistinct(originals: seq<Original>, another: Original)
    requires forall i, j :: 0 <= i < j < |originals| ==> originals[i].requestId != originals[j].requestId
    requires Lookup(originals, another.requestId).None?
    ensures var longer := originals + [another];
            forall i, j :: 0 <= i < j < |longer| ==> longer[i].requestId != longer[j].requestId
  {
    assert forall i :: 0 <= i < |originals| ==> originals[i].requestId != another.requestId;
  }

  lemma LargestAppend(originals: seq<Original>, another: Original)
    ensures Largest(originals + [another]) ==
            if Largest(originals) < another.encodedBytes then another.encodedBytes else Largest(originals)
  {
    assert (originals + [another])[..|originals|] == originals;
  }

  /** In a recorded history a request id finds its one message. */
  lemma LookupFinds(originals: seq<Original>, k: nat)
    requires Recorded(originals) && k < |originals|
    ensures Lookup(originals, originals[k].requestId) == Some(originals[k])
  {
    var found := Lookup(originals, originals[k].requestId);
    var j :| 0 <= j < |originals| && originals[j] == found.value;
  }
}
