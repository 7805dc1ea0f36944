/** status.h: what a call that fails returns, negated. */
module Status {
  const EIO: int := 1
  const EINVARG: int := 2
  const ENOMEM: int := 3
  const EPID_ISTKN: int := 8
  const EPROC_NOMEM: int := 9
  const EINVFORMAT: int := 10
}
