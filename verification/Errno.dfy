/** The error codes that the reader returns. */
module Errno {
  const ENOENT := -2
  const EIO := -5
  const EINVAL := -22
}
