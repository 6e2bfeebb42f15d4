/**
 * The token codec (jwt-simple with its default HS256 algorithm), modelled by a
 * concrete stand-in wire format with jwt-simple's shape and checks:
 *
 *   <header> "." <claims> "." <signature>
 *
 * The header segment is the one jwt-simple writes for HS256. The claims segment
 * renders the four claim fields as decimal numerals separated by ',' where the
 * library writes base64url-encoded JSON. The signature is a keyed checksum of the
 * first two segments, standing for HMAC-SHA256. Decoding performs jwt-simple's
 * checks in its order: a token must be given, must have exactly three segments,
 * must carry a supported header and a readable payload, and its signature must
 * match the one recomputed with the server's secret.
 */
module Jwt {
  import opened Wrappers
  import opened Strings

  /** The session claim: subject user id, issue time in milliseconds, and the two role tags. */
  datatype Claim = Claim(sub: int, iat: int, admintype: int, usertype: int)

  datatype DecodeError = NoToken | SegmentCount | UnsupportedHeader | MalformedClaims | BadSignature

  /** The error message jwt-simple throws for each failure. */
  function Message(e: DecodeError): (msg: string)
  {
    match e
    case NoToken => "No token supplied"
    case SegmentCount => "Not enough or too many segments"
    case UnsupportedHeader => "Algorithm not supported"
    case MalformedClaims => "Unexpected token in JSON"
    case BadSignature => "Signature verification failed"
  }

  /** base64url of {"typ":"JWT","alg":"HS256"}, the header jwt-simple writes. */
  const HeaderSegment: string := "eyJ0eXAiOiJKV1QiLCJhbGciOiJIUzI1NiJ9"

  function ClaimFields(c: Claim): (fields: seq<string>)
  {
    [IntToString(c.sub), IntToString(c.iat), IntToString(c.admintype), IntToString(c.usertype)]
  }

  function ClaimSegment(c: Claim): (seg: string)
  {
    Join(ClaimFields(c), ',')
  }

  /** The payload reader: exactly four canonical integers separated by ','. */
  function ParseClaim(seg: string): (r: Option<Claim>)
  {
    var f := Split(seg, ',');
    if |f| != 4 then None
    else
      match (ParseInt(f[0]), ParseInt(f[1]), ParseInt(f[2]), ParseInt(f[3]))
      case (Some(sub), Some(iat), Some(admintype), Some(usertype)) =>
        Some(Claim(sub, iat, admintype, usertype))
      case _ => None
  }

  /** A 32-bit polynomial checksum: the stand-in for the HMAC digest. */
  function Checksum(s: string): (sum: nat)
    decreases |s|
  {
    if s == [] then 0 else (Checksum(s[..|s| - 1]) * 31 + s[|s| - 1] as int) % 0x1_0000_0000
  }

  /** The signature segment over the signing input, under the secret. */
  function Sign(input: string, secret: string): (sig: string)
    ensures '.' !in sig
  {
    NatToString(Checksum(secret + ":" + input))
  }

  /** jwt.encode(claim, secret). */
  function Encode(c: Claim, secret: string): (token: string)
  {
    var signingInput := HeaderSegment + "." + ClaimSegment(c);
    signingInput + "." + Sign(signingInput, secret)
  }

  /** jwt.decode(token, secret): the claim, or the error the library throws. */
  function Decode(token: string, secret: string): (r: Result<Claim, DecodeError>)
    ensures token == "" ==> r == Err(NoToken)
  {
    if token == "" then Err(NoToken)
    else
      var segs := Split(token, '.');
      if |segs| != 3 then Err(SegmentCount)
      else if segs[0] != HeaderSegment then Err(UnsupportedHeader)
      else
        match ParseClaim(segs[1])
        case None => Err(MalformedClaims)
        case Some(c) =>
          if segs[2] != Sign(segs[0] + "." + segs[1], secret) then Err(BadSignature) else Ok(c)
  }

  lemma NoCommaInFields(c: Claim)
    ensures forall i :: 0 <= i < 4 ==> ',' !in ClaimFields(c)[i] && '.' !in ClaimFields(c)[i]
  {
  }

  lemma ClaimSegmentHasNoDot(c: Claim)
    ensures '.' !in ClaimSegment(c)
  {
    NoCommaInFields(c);
    NotInJoin(ClaimFields(c), ',', '.');
  }

  /** The payload reader reads back what the payload writer wrote. */
  lemma ClaimRoundTrip(c: Claim)
    ensures ParseClaim(ClaimSegment(c)) == Some(c)
  {
    NoCommaInFields(c);
    SplitJoin(ClaimFields(c), ',');
    IntRoundTrip(c.sub);
    IntRoundTrip(c.iat);
    IntRoundTrip(c.admintype);
    IntRoundTrip(c.usertype);
  }

  /** Every payload the reader accepts is the one the writer produces for what it read. */
  lemma ClaimCanonical(seg: string, c: Claim)
    requires ParseClaim(seg) == Some(c)
    ensures ClaimSegment(c) == seg
  {
    var f := Split(seg, ',');
    IntCanonical(f[0], c.sub);
    IntCanonical(f[1], c.iat);
    IntCanonical(f[2], c.admintype);
    IntCanonical(f[3], c.usertype);
    assert ClaimFields(c) == f;
    JoinSplit(seg, ',');
  }

  lemma SegmentsOfEncode(c: Claim, secret: string)
    ensures Split(Encode(c, secret), '.') ==
      [HeaderSegment, ClaimSegment(c), Sign(HeaderSegment + "." + ClaimSegment(c), secret)]
  {
    var parts := [HeaderSegment, ClaimSegment(c), Sign(HeaderSegment + "." + ClaimSegment(c), secret)];
    assert '.' !in HeaderSegment;
    ClaimSegmentHasNoDot(c);
    SplitJoin(parts, '.');
    Join3(parts[0], parts[1], parts[2], '.');
  }

  /** Round trip: decoding a token with the secret it was signed with returns its claim. */
  lemma EncodeDecode(c: Claim, secret: string)
    ensures Decode(Encode(c, secret), secret) == Ok(c)
  {
    SegmentsOfEncode(c, secret);
    ClaimRoundTrip(c);
  }

  /**
   * Tamper evidence: the only token that decodes to a claim under a secret is the
   * encoding of that claim under that secret. A changed segment is rejected.
   */
  lemma DecodeOnlyGenuine(token: string, secret: string, c: Claim)
    requires Decode(token, secret) == Ok(c)
    ensures token == Encode(c, secret)
  {
    var segs := Split(token, '.');
    assert |segs| == 3 && segs[0] == HeaderSegment;
    assert ParseClaim(segs[1]) == Some(c);
    assert segs[2] == Sign(segs[0] + "." + segs[1], secret);
    ClaimCanonical(segs[1], c);
    JoinSplit(token, '.');
    assert segs == [segs[0], segs[1], segs[2]];
    Join3(segs[0], segs[1], segs[2], '.');
  }
}
