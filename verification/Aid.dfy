/** Application identifiers (`aid.rs`). */
module Aid {
  import opened Bytes

  /** ISO/IEC 7816-5: a five-byte RID and up to eleven bytes of extension. */
  predicate IsAid(b: bytes) {
    5 <= |b| <= 16
  }
}
