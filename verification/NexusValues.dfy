/** The data value shared by the transaction builder and the tool runtime. */
module NexusValues {
  import opened Bcs

  const INLINE: Bytes := [105, 110, 108, 105, 110, 101]
  const WALRUS: Bytes := [119, 97, 108, 114, 117, 115]

  /** The two storage tags, as texts. */
  lemma StorageTags()
    ensures INLINE == Ascii("inline") && WALRUS == Ascii("walrus") && INLINE != WALRUS
  {
  }

  /** Raw storage tag, and one byte string or many. */
  datatype NexusData = NexusData(storage: Bytes, one: Bytes, many: seq<Bytes>)
}
