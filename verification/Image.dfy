/** What the decoders of a PDDB image share. */
module Image {
  import opened Bytes

  const PAGE_SIZE := 4096

  /** Payload of a page: what is left by nonce, tag and journal number. */
  const VPAGE_SIZE := 4064

  /** Unwritten flash. */
  const BLANK: seq<byte> := [255, 255, 255, 255, 255, 255, 255, 255, 255, 255, 255, 255, 255, 255, 255, 255]

  /** The first 16 bytes are unwritten. */
  predicate IsBlank(page: seq<byte>) {
    Slice(page, 0, 16) == BLANK
  }
}
