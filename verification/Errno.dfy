/** Error numbers the client returns, as the positive constants of the kernel headers. */
module Errno {
  /** What a call that failed returns. */
  type Failure = e: nat | e > 0 witness 1

  const ENOENT: nat := 2
  const EINTR: nat := 4
  const EIO: nat := 5
  const ECHILD: nat := 10
  const ENOMEM: nat := 12
  const EACCES: nat := 13
  const ENOTDIR: nat := 20
  const EISDIR: nat := 21
  const EINVAL: nat := 22
  const EPROTO: nat := 71
  const EOPNOTSUPP: nat := 95
  const ENOTCONN: nat := 107
  const ESTALE: nat := 116
}
