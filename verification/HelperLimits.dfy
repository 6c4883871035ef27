/** The limits of the native helper. */
module HelperLimits {
  const MAX_CONTENT_BYTES: nat := 256 * 1024 * 1024
  const MAX_TREE_BYTES: nat := 1024 * 1024 * 1024
  const MAX_TREE_ENTRIES: nat := 100000
  const MAX_TREE_DEPTH: nat := 128
  const MAX_SELECTOR_BYTES: nat := 16 * 1024
  const NAME_MAX: nat := 255

  /** The size of the read buffers. */
  const BUFFER: nat := 64 * 1024
}
