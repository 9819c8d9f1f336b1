/**
  `StringExtensions.Truncate(value, length)`: null or empty input gives null,
  a longer input is cut to its first `length` characters, anything else is
  returned as it is.
 */
module StringExtensions {
  import opened Wrappers
  import Text

  /** `value.Remove(length)` throws `ArgumentOutOfRangeException` for a
      negative `length`. */
  datatype TruncateFault = ArgumentOutOfRange

  /** The throw can only be reached by a non-empty input, since every length
      exceeds a negative one. */
  function Truncate(value: Option<string>, length: int): (r: Result<Option<string>, TruncateFault>)
    ensures r.Failure? <==> length < 0 && !Text.IsNullOrEmpty(value)
    ensures r.Success? ==> (r.value.None? <==> Text.IsNullOrEmpty(value))
    ensures r.Success? && r.value.Some? ==> r.value.value <= value.value
    ensures r.Success? && r.value.Some? && |value.value| > length ==> |r.value.value| == length
    ensures r.Success? && r.value.Some? && |value.value| <= length ==> r.value.value == value.value
  {
    if !Text.IsNullOrEmpty(value) then
      if |value.value| > length then
        if length < 0 then Failure(ArgumentOutOfRange) else Success(Some(value.value[..length]))
      else Success(value)
    else Success(None)
  }

  /** Truncating twice to the same positive length is truncating once. */
  lemma {:induction false} TruncateIdempotent(value: Option<string>, length: int)
    requires length >= 1
    ensures Truncate(value, length).Success?
    ensures Truncate(Truncate(value, length).value, length) == Truncate(value, length)
  {
  }

  /** At length 0 a non-empty string becomes the empty string, and truncating
      that again gives null: the one length at which Truncate is not idempotent. */
  lemma {:induction false} TruncateZero(s: string)
    requires s != []
    ensures Truncate(Some(s), 0) == Success(Some([]))
    ensures Truncate(Some([]), 0) == Success(None)
  {
  }
}
