/** Shared basics: optional values, calls that return or raise, and slices. */
module Outcomes {

  datatype Option<+T> = None | Some(value: T) {
    function GetOr(default: T): T {
      match this case None => default case Some(v) => v
    }
  }

  /** The exception classes the modelled code raises or lets through. */
  datatype Error =
    | PromotionError
    | HashChangedError
    | ApiException
    | DlrnHashError
    | PromoterError
    | EnvironmentError
    | AttributeError
    | KeyError
    | IndexError
    | TypeError
    | ValueError
    | OtherError

  datatype Outcome<+T> = Returned(value: T) | Raised(error: Error)

  /** A file operation works, fails with an EnvironmentError, or breaks with any other exception. */
  datatype Fault = Works | Fails | Breaks

  /** Python slicing `s[:n]` for a non-negative bound. */
  function Take<T>(s: seq<T>, n: nat): (r: seq<T>)
    ensures r <= s && (|r| == n || (|r| < n && r == s))
  {
    if n <= |s| then s[..n] else s
  }

  lemma NotInPrefix<T>(s: seq<T>, x: T, n: nat)
    requires n <= |s| && x !in s[..n]
    ensures forall k | 0 <= k < n :: s[k] != x
  {
    forall k | 0 <= k < n ensures s[k] != x {
      assert s[..n][k] == s[k];
    }
  }
}
