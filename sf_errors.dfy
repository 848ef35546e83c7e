/**
 * The crate's error type `SfError`, its `Display` messages, and the
 * conversions of foreign-call outcomes (a success flag, or a possibly-null
 * owned pointer) into `SfResult`.
 */
module SfErrors {

  datatype SfError =
    | NulInStr    // a string argument had an interior nul byte
    | CallFailed  // a foreign call reported failure

  datatype SfResult<T> = Ok(value: T) | Err(error: SfError)

  datatype Option<T> = None | Some(value: T)

  /** `std::ffi::NulError`: the position of the nul byte and the bytes given. */
  datatype NulError = NulError(position: nat, bytes: seq<int>)

  /** `Display for SfError`: one fixed, non-empty message per variant. */
  function Message(e: SfError): (m: string)
    ensures |m| > 0
  {
    match e
    case NulInStr => "Interior nul byte in string passed to SFML"
    case CallFailed => "Call to SFML function returned an error"
  }

  /** The two variants can be told apart by their messages. */
  lemma {:induction false} MessagesDistinct(a: SfError, b: SfError)
    requires a != b
    ensures Message(a) != Message(b)
  {
    assert |Message(NulInStr)| == 42 && |Message(CallFailed)| == 39;
  }

  /** `From<NulError> for SfError`: every nul error is `NulInStr`. */
  function FromNulError(e: NulError): (r: SfError)
    ensures r.NulInStr?
  {
    NulInStr
  }

  /** `IntoSfResult for bool`: success exactly when the flag is set. */
  function BoolIntoSfResult(ok: bool): (r: SfResult<()>)
    ensures r.Ok? <==> ok
    ensures r.Err? ==> r.error == CallFailed
  {
    if ok then Ok(()) else Err(CallFailed)
  }

  /** `IntoSfResult for Option<FBox<T>>`: `ok_or(CallFailed)`. */
  function OptionIntoSfResult<T>(o: Option<T>): (r: SfResult<T>)
    ensures o.Some? <==> r.Ok?
    ensures o.Some? ==> r.value == o.value
    ensures o.None? ==> r.error == CallFailed
  {
    match o
    case Some(b) => Ok(b)
    case None => Err(CallFailed)
  }

  function ToOption<T>(r: SfResult<T>): Option<T>
  {
    match r
    case Ok(v) => Some(v)
    case Err(_) => None
  }

  /** The conversion loses nothing: reading the result back gives the option. */
  lemma OptionRoundTrip<T>(o: Option<T>)
    ensures ToOption(OptionIntoSfResult(o)) == o
  {
  }
}
