module Wrappers {
  datatype Option<+T> = None | Some(value: T) {
    function GetOr(default: T): T {
      if Some? then value else default
    }
  }

  /** The reply of a call into an API server: refused, or served with a value. */
  datatype Reply<+T> = Refused | Served(value: T)

  /** Whether a call gets through: it may fail only where faults are allowed. */
  method CallSucceeds(faulty: bool) returns (ok: bool)
    ensures !faulty ==> ok
  {
    ok := *;
    ok := ok || !faulty;
  }
}
