/** Hashing as the `Hash` trait sees it. A `Hasher` is foreign code: what it returns from
    `finish` can only depend on the words written into it, so its state is modelled as that
    sequence of words, and `finish` as an arbitrary function of it. */
module Hashing {
  import opened Pointers

  /** The words written into a hasher so far, oldest first. */
  type Transcript = seq<Word>

  /** `Hasher::finish`: any function of what was written. */
  type Finish = Transcript -> Word

  /** `impl Hash for *const T`: writes the data address, then the metadata. */
  function HashPtr(p: Ptr, state: Transcript): (r: Transcript)
    ensures |state| < |r| && r[..|state|] == state
    ensures r[|state|] == p.data
    ensures |r| == |state| + 1 <==> p.meta == Thin
  {
    state + [p.data] + MetadataWords(p.meta)
  }
}
