/** Validators and string helpers of the vault (`utils/helpers`): PIN
    validation, truncation with an ellipsis, filename sanitising and the
    thirty-day expiry window. Dates are instants in milliseconds. */
module Helpers {
  import opened Wrappers
  import opened Text

  const MinPinLength := 4
  const MaxPinLength := 8

  /** Why a PIN was refused, in the order the checks run. */
  datatype PinError = TooShort | TooLong | NotNumeric

  function PinMessage(e: PinError): string
  {
    match e
    case TooShort => "PIN must be at least 4 digits"
    case TooLong => "PIN must be at most 8 digits"
    case NotNumeric => "PIN must contain only numbers"
  }

  predicate AllDigits(s: string)
  {
    forall i :: 0 <= i < |s| ==> IsDigit(s[i])
  }

  /** `validatePIN`: `None` is `{ valid: true }`. A PIN is accepted exactly
      when it has four to eight characters, all decimal digits; a PIN that is
      too short is reported as such whatever its characters, and the length
      checks come before the digit check. */
  function ValidatePin(pin: string): (r: Option<PinError>)
    ensures r == None <==> MinPinLength <= |pin| <= MaxPinLength && AllDigits(pin)
    ensures r == Some(TooShort) <==> |pin| < MinPinLength
    ensures r == Some(TooLong) <==> |pin| > MaxPinLength
    ensures r == Some(NotNumeric) <==> MinPinLength <= |pin| <= MaxPinLength && !AllDigits(pin)
  {
    if |pin| < MinPinLength then Some(TooShort)
    else if |pin| > MaxPinLength then Some(TooLong)
    else if !AllDigits(pin) then Some(NotNumeric)
    else None
  }

  /** A two-letter PIN gets the length message, not the digits message. */
  lemma ShortLettersReportLength()
    ensures ValidatePin("ab") == Some(TooShort)
    ensures PinMessage(ValidatePin("ab").value) == "PIN must be at least 4 digits"
  {
  }

  /** `truncateText`: unchanged when it fits, otherwise the first
      `maxLength` characters (none when `maxLength` is negative) followed by
      an ellipsis. */
  function TruncateText(text: string, maxLength: int): (r: string)
    ensures |text| <= maxLength ==> r == text
    ensures |text| > maxLength ==>
      var n := if maxLength < 0 then 0 else maxLength;
      |r| == n + 3 && r[..n] == text[..n] && r[n..] == "..."
  {
    if |text| <= maxLength then text
    else Substring(text, 0, maxLength) + "..."
  }

  /** Truncating a truncated text changes nothing. */
  lemma TruncateIdempotent(text: string, maxLength: int)
    ensures TruncateText(TruncateText(text, maxLength), maxLength) == TruncateText(text, maxLength)
  {
    var r := TruncateText(text, maxLength);
    if |text| > maxLength {
      var n := if maxLength < 0 then 0 else maxLength;
      assert r[..n] == text[..n];
      assert TruncateText(r, maxLength) == r[..n] + "...";
    }
  }

  /** The characters `sanitizeFilename` keeps: `[a-zA-Z0-9._-]`. */
  predicate SafeChar(c: char)
  {
    IsUpper(c) || IsLower(c) || IsDigit(c) || c == '.' || c == '_' || c == '-'
  }

  /** `sanitizeFilename`: every other character becomes `_`. */
  function SanitizeFilename(name: string): (r: string)
    ensures |r| == |name|
    ensures forall i :: 0 <= i < |name| ==> r[i] == (if SafeChar(name[i]) then name[i] else '_')
  {
    if name == [] then []
    else [if SafeChar(name[0]) then name[0] else '_'] + SanitizeFilename(name[1..])
  }

  /** The output uses only safe characters. */
  lemma SanitizedIsSafe(name: string)
    ensures forall i :: 0 <= i < |SanitizeFilename(name)| ==> SafeChar(SanitizeFilename(name)[i])
  {
  }

  /** A name made of safe characters is left as it is. */
  lemma SanitizeKeepsSafeNames(name: string)
    requires forall i :: 0 <= i < |name| ==> SafeChar(name[i])
    ensures SanitizeFilename(name) == name
  {
  }

  /** Sanitising is idempotent. */
  lemma SanitizeIdempotent(name: string)
    ensures SanitizeFilename(SanitizeFilename(name)) == SanitizeFilename(name)
  {
    SanitizedIsSafe(name);
    SanitizeKeepsSafeNames(SanitizeFilename(name));
  }

  const MsPerDay := 86400000

  /** Integer division rounding toward zero, as `Math.trunc(a / b)`. */
  function TruncDiv(a: int, b: int): int
    requires b > 0
  {
    if a >= 0 then a / b else -((-a) / b)
  }

  /** date-fns `differenceInDays(later, earlier)`: the number of full days
      between two instants, negative when `later` is earlier. */
  function DifferenceInDays(later: int, earlier: int): int
  {
    TruncDiv(later - earlier, MsPerDay)
  }

  /** `isExpiringSoon`: an absent date is never expiring; otherwise the full
      days from now to the expiry must be 0 to 30. Because full days round
      toward zero, a date up to (but not including) one day in the past still
      counts, and a date up to 31 days ahead (exclusive) counts. */
  function IsExpiringSoon(expiry: Option<int>, now: int): (r: bool)
    ensures expiry == None ==> !r
    ensures expiry.Some? ==> (r <==> -MsPerDay < expiry.value - now < 31 * MsPerDay)
  {
    match expiry
    case None => false
    case Some(d) =>
      var diff := DifferenceInDays(d, now);
      0 <= diff <= 30
  }
}
