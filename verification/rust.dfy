/** rust/src/main.rs: a warp handler. Headers are first copied into a dictionary keyed by
    lower-case name (a later field overwrites an earlier one, and a value that is not
    visible ASCII is stored as empty); the listed names are trimmed but looked up without
    lower-casing, so a listed name with an upper-case letter always reads as empty. */
module Rust {
  import opened Wrappers
  import opened Text
  import opened Hex
  import opened Headers
  import opened Signing

  /** The characters HeaderValue::to_str accepts: tab and the visible ASCII range. */
  predicate IsVisibleAscii(c: char) {
    c == '\t' || ' ' <= c <= '~'
  }

  /** `value.to_str().unwrap_or("")`. */
  function ToStrOrEmpty(v: string): (r: string)
    ensures (forall i :: 0 <= i < |v| ==> IsVisibleAscii(v[i])) <==> r == v
    ensures r == v || r == ""
  {
    if forall i :: 0 <= i < |v| ==> IsVisibleAscii(v[i]) then v else ""
  }

  /** headers_map: lower-case name to the (visible-ASCII) value of the last field of that
      name. */
  function HeadersMap(headers: seq<Header>): map<string, string> {
    LastWins(headers, Lower, ToStrOrEmpty)
  }

  /** The listed names: the signed-headers value split on `,`, each piece trimmed, or none
      when the header is absent. */
  function SignedHeaders(headersMap: map<string, string>): seq<string> {
    if "x-contentful-signed-headers" in headersMap
    then Map((s: string) => Trim(s, IsAsciiSpace), Split(headersMap["x-contentful-signed-headers"], ','))
    else []
  }

  /** One entry: the name lower-cased, `:`, and the value under the name exactly as listed. */
  function Entry(header: string, headersMap: map<string, string>): string {
    Lower(header) + ":" + (if header in headersMap then headersMap[header] else "")
  }

  /** construct_canonical_string. A body that is not valid UTF-8 (None) is signed as empty. */
  function ConstructCanonicalString(verb: string, path: string, headersMap: map<string, string>,
                                    signedHeaders: seq<string>, body: Option<string>): string
  {
    Canonical(verb, path, Block(Map((h: string) => Entry(h, headersMap), signedHeaders)), body.GetOr(""))
  }

  /** A listed name with an upper-case letter is never a key of the dictionary, so its entry
      is the lower-cased name with an empty value, whatever the request carried. */
  lemma UpperCaseNameReadsEmpty(headers: seq<Header>, header: string, i: nat)
    requires i < |header| && IsUpperAscii(header[i])
    ensures Entry(header, HeadersMap(headers)) == Lower(header) + ":"
  {
    LastWinsLowerKeys(headers, ToStrOrEmpty);
  }

  /** verify_request. A missing signature is answered before the secret is read; a missing
      secret is a panic; otherwise OK exactly when the signature is the lower-case hex of
      the tag over "POST", "/", the listed headers and the body, else Unauthorized. */
  function VerifyRequest(secret: Option<string>, headers: seq<Header>, body: Option<string>, mac: Mac): (r: Response)
    ensures "x-contentful-signature" !in HeadersMap(headers) <==> r == BadRequest400
    ensures "x-contentful-signature" in HeadersMap(headers) && secret.None? <==> r == Unhandled
    ensures r == Ok200 <==>
              && "x-contentful-signature" in HeadersMap(headers)
              && secret.Some?
              && FromHex(HeadersMap(headers)["x-contentful-signature"])
                 == Some(mac(secret.value, ConstructCanonicalString("POST", "/", HeadersMap(headers),
                                                                    SignedHeaders(HeadersMap(headers)), body)))
    ensures r in {Ok200, BadRequest400, Unauthorized401, Unhandled}
  {
    var headersMap := HeadersMap(headers);
    if "x-contentful-signature" !in headersMap then BadRequest400
    else
      var signature := headersMap["x-contentful-signature"];
      match secret
      case None => Unhandled
      case Some(s) =>
        var canonicalString := ConstructCanonicalString("POST", "/", headersMap, SignedHeaders(headersMap), body);
        var generatedSignature := Signature(mac, s, canonicalString);
        SignatureMatchesTag(mac, s, canonicalString, signature);
        if generatedSignature == signature then Ok200 else Unauthorized401
  }
}
