/** Where byte streams go. */
module Sinks {
  import opened Bytes

  /** An io.Writer: it takes some of the bytes, reports how many, and may fail. */
  class ByteSink {
    var out: seq<Byte>
    /** Whether a write has failed or taken less than it was given. */
    var failed: bool

    constructor ()
      ensures out == [] && !failed
    {
      out, failed := [], false;
    }

    method Write(p: seq<Byte>) returns (n: int, err: bool)
      modifies this
      ensures 0 <= n <= |p| && out == old(out) + p[..n]
      ensures failed == (old(failed) || err || n < |p|)
    {
      n :| 0 <= n <= |p|;
      err := *;
      out := out + p[..n];
      failed := failed || err || n < |p|;
    }
  }
}
