/**
 * Request fingerprints as the duplicate filters store them
 * (`_get_request_fingerprint` in src/filters/dupefilter.py): Scrapy's
 * `fingerprint(request)` yields bytes, and `bytes.hex()` renders them as a
 * lower-case hexadecimal string, two characters per byte.
 *
 * Scrapy's fingerprint function itself is a foreign call; it is a value of
 * type `Request -> seq<byte>` here, passed to the filters' `RequestSeen`,
 * which makes it deterministic by construction and otherwise uninterpreted.
 */
module Fingerprint {
  import opened Wrappers
  import opened PyStr

  newtype byte = x: int | 0 <= x < 256

  /** The identity-relevant parts of a crawl request. */
  datatype Request = Request(url: string, httpMethod: string, body: seq<byte>)

  const HexDigits: string := "0123456789abcdef"

  predicate IsLowerHexDigit(c: char) {
    ('0' <= c <= '9') || ('a' <= c <= 'f')
  }

  function HexPair(b: byte): string {
    [HexDigits[b as int / 16], HexDigits[b as int % 16]]
  }

  /** `bytes.hex()` */
  function Hex(bs: seq<byte>): (r: string)
    ensures |r| == 2 * |bs|
    ensures forall i :: 0 <= i < |r| ==> IsLowerHexDigit(r[i])
  {
    if bs == [] then [] else HexPair(bs[0]) + Hex(bs[1..])
  }

  /** Byte `i` occupies characters `2i` (high nibble) and `2i + 1` (low nibble). */
  lemma {:induction false} HexAt(bs: seq<byte>, i: nat)
    requires i < |bs|
    ensures Hex(bs)[2 * i] == HexDigits[bs[i] as int / 16]
    ensures Hex(bs)[2 * i + 1] == HexDigits[bs[i] as int % 16]
  {
    if i > 0 {
      HexAt(bs[1..], i - 1);
      assert Hex(bs) == HexPair(bs[0]) + Hex(bs[1..]);
    }
  }

  function NibbleValue(c: char): Option<nat> {
    if '0' <= c <= '9' then Some(c as int - '0' as int)
    else if 'a' <= c <= 'f' then Some(c as int - 'a' as int + 10)
    else None
  }

  /** `bytes.fromhex` on a string of lower-case digit pairs without blanks:
      the inverse of `Hex`. */
  function Unhex(s: string): Option<seq<byte>>
  {
    if s == [] then Some([])
    else if |s| == 1 then None
    else
      match (NibbleValue(s[0]), NibbleValue(s[1]), Unhex(s[2..]))
      case (Some(hi), Some(lo), Some(rest)) =>
        if hi * 16 + lo < 256 then Some([(hi * 16 + lo) as byte] + rest) else None
      case _ => None
  }

  lemma HexPairValue(b: byte)
    ensures NibbleValue(HexPair(b)[0]) == Some(b as int / 16)
    ensures NibbleValue(HexPair(b)[1]) == Some(b as int % 16)
  {
  }

  /** Decoding the hex text gives back the fingerprint bytes. */
  lemma {:induction false} HexRoundTrip(bs: seq<byte>)
    ensures Unhex(Hex(bs)) == Some(bs)
  {
    if bs != [] {
      HexRoundTrip(bs[1..]);
      HexPairValue(bs[0]);
      var h := Hex(bs);
      assert h[2..] == Hex(bs[1..]);
      assert h[0] == HexPair(bs[0])[0] && h[1] == HexPair(bs[0])[1];
      var hi, lo := bs[0] as int / 16, bs[0] as int % 16;
      assert hi * 16 + lo == bs[0] as int;
      assert Unhex(h) == Some([(hi * 16 + lo) as byte] + bs[1..]);
      assert [bs[0]] + bs[1..] == bs;
    }
  }

  /** Distinct fingerprint bytes never share a stored key. */
  lemma HexInjective(a: seq<byte>, b: seq<byte>)
    requires Hex(a) == Hex(b)
    ensures a == b
  {
    HexRoundTrip(a);
    HexRoundTrip(b);
  }

  /** Hex text holds no whitespace and no ':' (so it survives `strip` and
      cannot run into a key prefix separator). */
  lemma HexIsPlain(bs: seq<byte>)
    ensures NoSpace(Hex(bs))
    ensures ':' !in Hex(bs)
  {
    var h := Hex(bs);
    forall i | 0 <= i < |h| ensures !IsSpace(h[i]) && h[i] != ':' {
      assert IsLowerHexDigit(h[i]);
    }
  }

  /** `_get_request_fingerprint`: the fingerprint bytes as lower-case hex. */
  function RequestFingerprint(fingerprint: Request -> seq<byte>, request: Request): (fp: string)
  {
    Hex(fingerprint(request))
  }

  /** The stored fingerprint has two lower-case hex digits per fingerprint byte,
      determined by the request alone, and two requests share it exactly when
      their fingerprint bytes are equal. */
  lemma RequestFingerprintFormat(fingerprint: Request -> seq<byte>, r1: Request, r2: Request)
    ensures |RequestFingerprint(fingerprint, r1)| == 2 * |fingerprint(r1)|
    ensures forall i :: 0 <= i < |RequestFingerprint(fingerprint, r1)| ==>
              IsLowerHexDigit(RequestFingerprint(fingerprint, r1)[i])
    ensures RequestFingerprint(fingerprint, r1) == RequestFingerprint(fingerprint, r2)
            <==> fingerprint(r1) == fingerprint(r2)
  {
    if RequestFingerprint(fingerprint, r1) == RequestFingerprint(fingerprint, r2) {
      HexInjective(fingerprint(r1), fingerprint(r2));
    }
  }
}
