/** Update masks, and what an operation draws from its environment. */
module FieldMasks {
  import opened Wrappers

  /** A nil mask, or the paths of a mask. */
  type FieldMask = Option<seq<string>>

  /** Whether an update with this mask writes the field. */
  predicate Masks(mask: FieldMask, field: string) {
    mask.None? || field in mask.value || "*" in mask.value
  }

  lemma MasksGrow(paths: seq<string>, i: nat, field: string)
    requires i < |paths|
    ensures Masks(Some(paths[..i + 1]), field) <==> Masks(Some(paths[..i]), field) || Masks(Some([paths[i]]), field)
  {
    assert paths[..i + 1] == paths[..i] + [paths[i]];
  }

  lemma SinglePath(path: string)
    ensures forall f :: Masks(Some([path]), f) <==> f == path || path == "*"
  {
  }

  /** A reading of the clock, and a fresh uid and etag. */
  datatype Stamp = Stamp(now: int, uid: string, etag: string)
}
