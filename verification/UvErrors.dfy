/** The error codes of libuv that the modelled functions return. */
module UvErrors {
  const UV_E2BIG: int := -7
  const UV_EINVAL: int := -22
  const UV_ENOSPC: int := -28
}
