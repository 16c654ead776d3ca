// The result codes of src/ae.c.

module AeCodes {
  const AE_OK: int := 0
  const AE_ERR: int := -1
}
