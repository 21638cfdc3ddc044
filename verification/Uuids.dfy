/** UUID values as the sixteen bytes they are made of. */
module Uuids {
  import opened Bytes

  type Uuid = bytes: seq<Byte> | |bytes| == 16 witness seq(16, _ => 0)

  predicate IsNil(id: Uuid) {
    forall i :: 0 <= i < 16 ==> id[i] == 0
  }

  const NIL: Uuid := [0, 0, 0, 0, 0, 0, 0, 0, 0, 0, 0, 0, 0, 0, 0, 0]

  /** There is one nil UUID. */
  lemma NilExactly(id: Uuid)
    ensures IsNil(id) <==> id == NIL
  {
  }
}
