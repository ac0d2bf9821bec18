module Limits {
  /** The longest array either side takes. */
  const MAX_ARRAY_ELEMENTS: nat := 0x100000

  /** The most bytes of mapped memory in one request. */
  const MAX_CHUNK: nat := 64 * 1024 * 1024 - 64
}
