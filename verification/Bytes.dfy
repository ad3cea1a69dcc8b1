/** The byte that disk blocks, texts and user memory are made of. */
module Bytes {
  type byte = b: nat | b < 256
}
