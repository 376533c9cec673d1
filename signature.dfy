/** The optional request-signing layer of the public API: a client that sends
    `X-Signature` must also send `X-Timestamp`, be within five minutes of the
    server's clock, and sign `timestamp ++ method ++ path ++ body` with its own
    API key under HMAC-SHA256, the digest written in lower-case hexadecimal. */
module Signature {
  import opened Wrappers
  import opened JsText

  type Byte = x: int | 0 <= x < 256

  /** HMAC-SHA256 (RFC 2104 over SHA-256) of the UTF-8 encodings of a key and
      a message. The model does not compute it: every operation that needs it
      takes it as a parameter. */
  type Mac = (string, string) -> seq<Byte>

  /** How far, in milliseconds and in either direction, a request's timestamp
      may be from the server's clock. */
  const ReplayWindowMs := 300000

  /** What the signing layer reads of an HTTP request. A header is `None` when
      it is absent. */
  datatype Request = Request(
    httpMethod: string,
    path: string,
    body: string,
    signature: Option<string>,
    timestamp: Option<string>)

  datatype Verdict = Valid | MissingHeader | TimestampExpired | SignatureMismatch

  function Abs(x: int): int {
    if x < 0 then -x else x
  }

  /** `Math.abs(now - parseInt(timestamp)) > 300000`; a `NaN` time compares
      false, so it never counts as expired. */
  predicate Expired(now: int, requestTime: Option<int>) {
    requestTime.Some? && Abs(now - requestTime.value) > ReplayWindowMs
  }

  /** The signed text: the raw timestamp header, the method, the path and,
      unless the method is GET, the body. */
  function SignedString(timestamp: string, req: Request): string {
    timestamp + req.httpMethod + req.path + (if req.httpMethod == "GET" then [] else req.body)
  }

  predicate IsLowerHexDigit(c: char) {
    '0' <= c <= '9' || 'a' <= c <= 'f'
  }

  function HexDigit(v: int): (c: char)
    requires 0 <= v < 16
    ensures IsLowerHexDigit(c)
  {
    "0123456789abcdef"[v]
  }

  /** `b.toString(16)`: lower-case hexadecimal without leading zeros. */
  function ToHex(b: Byte): string {
    if b < 16 then [HexDigit(b)] else [HexDigit(b / 16), HexDigit(b % 16)]
  }

  /** `s.padStart(2, '0')`. */
  function PadStart2(s: string): string {
    if |s| >= 2 then s else seq(2 - |s|, _ => '0') + s
  }

  /** One byte as written by the worker: always two lower-case digits, high
      nibble first. */
  function HexByte(b: Byte): (r: string)
    ensures r == [HexDigit(b / 16), HexDigit(b % 16)]
  {
    PadStart2(ToHex(b))
  }

  /** The digest as the worker writes it: the bytes' two-digit forms, joined. */
  function Hex(bs: seq<Byte>): (r: string)
    ensures |r| == 2 * |bs|
    ensures forall k :: 0 <= k < |r| ==> IsLowerHexDigit(r[k])
  {
    if bs == [] then [] else HexByte(bs[0]) + Hex(bs[1..])
  }

  /** The value of a lower-case hexadecimal digit, or -1. */
  function HexDigitValue(c: char): int {
    if '0' <= c <= '9' then c as int - '0' as int
    else if 'a' <= c <= 'f' then c as int - 'a' as int + 10
    else -1
  }

  /** Reads back a lower-case hexadecimal string, two digits per byte. */
  function Unhex(s: string): Option<seq<Byte>> {
    if s == [] then Some([])
    else if |s| == 1 then None
    else
      var hi, lo := HexDigitValue(s[0]), HexDigitValue(s[1]);
      if hi < 0 || lo < 0 then None
      else match Unhex(s[2..])
        case None => None
        case Some(rest) => Some([hi * 16 + lo] + rest)
  }

  lemma HexDigitRoundTrip(v: int)
    requires 0 <= v < 16
    ensures HexDigitValue(HexDigit(v)) == v
  {
  }

  /** Reading two digits and then the rest. */
  lemma UnhexStep(hi: int, lo: int, rest: string)
    requires 0 <= hi < 16 && 0 <= lo < 16
    ensures Unhex([HexDigit(hi), HexDigit(lo)] + rest) ==
      match Unhex(rest)
      case None => None
      case Some(r) => Some([hi * 16 + lo] + r)
  {
    HexDigitRoundTrip(hi);
    HexDigitRoundTrip(lo);
    assert ([HexDigit(hi), HexDigit(lo)] + rest)[2..] == rest;
  }

  /** Reading the hexadecimal form gives the bytes back. */
  lemma {:induction false} UnhexHex(bs: seq<Byte>)
    ensures Unhex(Hex(bs)) == Some(bs)
  {
    if bs != [] {
      var b := bs[0];
      assert Hex(bs) == [HexDigit(b / 16), HexDigit(b % 16)] + Hex(bs[1..]);
      UnhexStep(b / 16, b % 16, Hex(bs[1..]));
      UnhexHex(bs[1..]);
      assert [b] + bs[1..] == bs;
    }
  }

  /** Two digests have the same written form only if they are equal. */
  lemma HexInjective(a: seq<Byte>, b: seq<Byte>)
    requires Hex(a) == Hex(b)
    ensures a == b
  {
    UnhexHex(a);
    UnhexHex(b);
  }

  /** `verifyHMACSignature`, reduced to its verdict. */
  function VerifySignature(req: Request, apiKey: string, now: int, mac: Mac): Verdict {
    if !Present(req.signature) || !Present(req.timestamp) then MissingHeader
    else if Expired(now, ParseInt(req.timestamp.value)) then TimestampExpired
    else if req.signature.value != Hex(mac(apiKey, SignedString(req.timestamp.value, req))) then SignatureMismatch
    else Valid
  }

  /** A request signed with its decimal millisecond time (as `Date.now()`
      writes it) is accepted whenever that time is at most five
      minutes away from the server's clock, ahead or behind. */
  lemma SignedRequestAccepted(req: Request, apiKey: string, now: int, t: nat, mac: Mac)
    requires req.timestamp == Some(Decimal(t))
    requires Abs(now - t) <= ReplayWindowMs
    requires |mac(apiKey, SignedString(Decimal(t), req))| > 0
    requires req.signature == Some(Hex(mac(apiKey, SignedString(Decimal(t), req))))
    ensures VerifySignature(req, apiKey, now, mac) == Valid
  {
    ParseIntDecimal(t);
  }

  /** Outside the window a timestamp is refused before the digest is looked
      at, whichever side of the server's clock it lies on. */
  lemma StaleTimestampRejected(req: Request, apiKey: string, now: int, t: nat, mac: Mac)
    requires Present(req.signature)
    requires req.timestamp == Some(Decimal(t))
    requires Abs(now - t) > ReplayWindowMs
    ensures VerifySignature(req, apiKey, now, mac) == TimestampExpired
  {
    ParseIntDecimal(t);
  }

  /** Acceptance means: both headers present, the signature equal to the
      lower-case hexadecimal digest of the signed text under the caller's
      key, and the timestamp within the window or not a number. */
  lemma AcceptedMeansSigned(req: Request, apiKey: string, now: int, mac: Mac)
    ensures VerifySignature(req, apiKey, now, mac) == Valid <==>
      && Present(req.signature) && Present(req.timestamp)
      && (ParseInt(req.timestamp.value).None?
          || Abs(now - ParseInt(req.timestamp.value).value) <= ReplayWindowMs)
      && req.signature.value == Hex(mac(apiKey, SignedString(req.timestamp.value, req)))
  {
  }

  /** Nothing is remembered between requests: a request accepted once is
      accepted again at any time within the window of its timestamp. */
  lemma AcceptedRequestReplays(req: Request, apiKey: string, now: int, later: int, mac: Mac)
    requires VerifySignature(req, apiKey, now, mac) == Valid
    requires ParseInt(req.timestamp.value).Some?
    requires Abs(later - ParseInt(req.timestamp.value).value) <= ReplayWindowMs
    ensures VerifySignature(req, apiKey, later, mac) == Valid
  {
  }

  /** A timestamp `parseInt` cannot read (`NaN`) never expires. */
  lemma NonNumericTimestampNeverExpires(req: Request, apiKey: string, now: int, mac: Mac)
    requires Present(req.signature) && Present(req.timestamp)
    requires ParseInt(req.timestamp.value) == None
    ensures VerifySignature(req, apiKey, now, mac) != TimestampExpired
  {
  }

  /** For instance the timestamp `soon`. */
  lemma WordTimestampIsNaN()
    ensures ParseInt("soon") == None
  {
    ParseIntNonNumeric("soon");
  }

  /** The body of a GET request is not signed. */
  lemma GetBodyNotSigned(req: Request, body: string, apiKey: string, now: int, mac: Mac)
    requires req.httpMethod == "GET"
    ensures VerifySignature(req.(body := body), apiKey, now, mac) == VerifySignature(req, apiKey, now, mac)
  {
    if Present(req.timestamp) {
      assert SignedString(req.timestamp.value, req.(body := body)) == SignedString(req.timestamp.value, req);
    }
  }

  /** The comparison is exact: a signature with any character that is not a
      lower-case hexadecimal digit (an upper-case digest, say) is refused. */
  lemma NonLowerHexSignatureRejected(req: Request, apiKey: string, now: int, mac: Mac, k: int)
    requires Present(req.signature) && 0 <= k < |req.signature.value|
    requires !IsLowerHexDigit(req.signature.value[k])
    ensures VerifySignature(req, apiKey, now, mac) != Valid
  {
  }
}
