/**
 * The byte-size gates applied to the user's request text and to the
 * backend's accumulated answer (validation/request_response_validator.py).
 * A rejected text produces exactly one user-visible error report.
 */
module RequestResponseValidator {
  import opened Wrappers
  import Utf8

  const MAX_REQUEST_MESSAGE_SIZE: nat := 20000
  const MAX_RESPONSE_MESSAGE_SIZE: nat := 10000

  const REQUEST_TOO_LARGE: string := "Input message from slack exceeded max size 20000"
  const RESPONSE_TOO_LARGE: string := "Bedrock response exceeded max size 10000"

  /** The boolean a validator returns together with the error report it sent, if any. */
  datatype Verdict = Verdict(accepted: bool, errorReport: Option<string>)

  /** Number of bytes of the UTF-8 encoding of `text` (Python's `len(text.encode('utf-8'))`). */
  function ByteLength(text: string): nat {
    |Utf8.Encode(text)|
  }

  /** `validate_request_message_from_slack`. */
  function ValidateRequestMessage(message: string): (v: Verdict)
    ensures v.accepted <==> ByteLength(message) <= MAX_REQUEST_MESSAGE_SIZE
    ensures v.errorReport == (if v.accepted then None else Some(REQUEST_TOO_LARGE))
  {
    if ByteLength(message) > MAX_REQUEST_MESSAGE_SIZE then Verdict(false, Some(REQUEST_TOO_LARGE))
    else Verdict(true, None)
  }

  /** `validate_response_from_bedrock`. */
  function ValidateResponse(message: string): (v: Verdict)
    ensures v.accepted <==> ByteLength(message) <= MAX_RESPONSE_MESSAGE_SIZE
    ensures v.errorReport == (if v.accepted then None else Some(RESPONSE_TOO_LARGE))
  {
    if ByteLength(message) > MAX_RESPONSE_MESSAGE_SIZE then Verdict(false, Some(RESPONSE_TOO_LARGE))
    else Verdict(true, None)
  }

  /** Any text accepted as a backend answer is also accepted as a request. */
  lemma ResponseAcceptedImpliesRequestAccepted(message: string)
    ensures ValidateResponse(message).accepted ==> ValidateRequestMessage(message).accepted
  {
  }

  /**
   * Because the relay only ever appends to its answer, once an answer is
   * rejected every extension of it is rejected too, and every prefix of an
   * accepted answer was accepted.
   */
  lemma ResponseGateIsPrefixClosed(message: string, n: nat)
    requires n <= |message|
    ensures ValidateResponse(message).accepted ==> ValidateResponse(message[..n]).accepted
  {
    Utf8.PrefixEncodedLength(message, n);
  }

  /** A text of `n` copies of `c`. */
  function Repeat(c: char, n: nat): (r: string)
    ensures |r| == n && forall k :: 0 <= k < n ==> r[k] == c
  {
    if n == 0 then [] else [c] + Repeat(c, n - 1)
  }

  /** A text of `n` ASCII characters is exactly `n` bytes long. */
  lemma AsciiRepeatLength(c: char, n: nat)
    requires c as int < 0x80
    ensures ByteLength(Repeat(c, n)) == n
  {
    Utf8.AsciiEncodedLength(Repeat(c, n));
  }

  /**
   * The boundary: an ASCII text passes the request gate iff it has at most
   * 20000 characters and the response gate iff it has at most 10000, so
   * exactly the limit passes and one byte more fails.
   */
  lemma AsciiLimitBoundary(n: nat)
    ensures ValidateRequestMessage(Repeat('x', n)).accepted <==> n <= 20000
    ensures ValidateResponse(Repeat('x', n)).accepted <==> n <= 10000
  {
    AsciiRepeatLength('x', n);
  }

  /**
   * The repository's unit tests: 3000 ASCII characters pass both gates, 30000
   * fail the request gate and 11000 fail the response gate, each failure with
   * its error report.
   */
  lemma RepositoryTestCases(good: string, tooLong: string, tooLongAnswer: string)
    requires good == Repeat('x', 3000)
    requires tooLong == Repeat('x', 30000)
    requires tooLongAnswer == Repeat('x', 11000)
    ensures ValidateRequestMessage(good) == Verdict(true, None)
    ensures ValidateResponse(good) == Verdict(true, None)
    ensures ValidateRequestMessage(tooLong) == Verdict(false, Some(REQUEST_TOO_LARGE))
    ensures ValidateResponse(tooLongAnswer) == Verdict(false, Some(RESPONSE_TOO_LARGE))
  {
    AsciiRepeatLength('x', 3000);
    AsciiRepeatLength('x', 30000);
    AsciiRepeatLength('x', 11000);
  }

  /** A multi-byte character counts by its encoded size: 5000 copies of U+20AC are 15000 bytes. */
  lemma MultiByteCharactersCountByBytes(euros: string)
    requires euros == Repeat('\U{20AC}', 5000)
    ensures ValidateRequestMessage(euros).accepted
    ensures !ValidateResponse(euros).accepted
  {
    ThreeByteEncodedLength(euros);
  }

  lemma {:induction false} ThreeByteEncodedLength(text: string)
    requires forall k :: 0 <= k < |text| ==> text[k] == '\U{20AC}'
    ensures |Utf8.Encode(text)| == 3 * |text|
    decreases |text|
  {
    if |text| > 0 {
      ThreeByteEncodedLength(text[1..]);
    }
  }
}
