/** kotlin/src/main/kotlin/org/example/Application.kt: a Ktor route. The canonical string
    uses the request's own method and URI, the listed names are trimmed (Kotlin's trim, which
    also drops U+001C..U+001F) but the looked-up values are not, the signature is rendered
    through a BigInteger padded to 64 digits, and the comparison is exact. */
module Kotlin {
  import opened Wrappers
  import opened Text
  import opened Hex
  import opened Headers
  import opened Signing

  /** Kotlin's String.trim on ASCII (Char.isWhitespace). */
  function TrimKt(s: string): string {
    Trim(s, IsSeparatorSpace)
  }

  /** `"${header.trim().lowercase()}:${headers[header.trim()] ?: ""}"`: the value is looked
      up with the trimmed (not lower-cased) name and is used untrimmed. */
  function Entry(header: string, headers: seq<Header>): string {
    Lower(TrimKt(header)) + ":" + LookupOrEmpty(headers, TrimKt(header))
  }

  /** buildCanonicalString. */
  function BuildCanonicalString(verb: string, path: string, headers: seq<Header>,
                                signedHeaders: seq<string>, body: string): string
  {
    Canonical(verb, path, Block(Map((h: string) => Entry(h, headers), signedHeaders)), body)
  }

  /** calculateSignature: `BigInteger(1, rawHmac).toString(16).padStart(64, '0')`. The
      BigInteger drops leading zero digits and the padding puts them back, so the result is
      the lower-case hex of the tag. An empty secret makes SecretKeySpec throw; that case is
      answered by Handle. */
  function CalculateSignature(secret: string, canonicalString: string, mac: Mac): (r: string)
    requires secret != ""
    ensures r == Signature(mac, secret, canonicalString)
  {
    PaddedValueIsToHex(mac(secret, canonicalString));
    PadStart(MinimalHex(BigEndian(mac(secret, canonicalString))), 64, '0')
  }

  /** verifyRequest: exact equality with the generated signature, that is, the claim
      decodes to the tag. */
  function VerifyRequest(secret: string, verb: string, path: string, headers: seq<Header>,
                         signedHeaders: seq<string>, body: string, incomingSignature: string, mac: Mac): (r: bool)
    requires secret != ""
    ensures r <==> FromHex(incomingSignature)
                   == Some(mac(secret, BuildCanonicalString(verb, path, headers, signedHeaders, body)))
  {
    var canonicalString := BuildCanonicalString(verb, path, headers, signedHeaders, body);
    SignatureMatchesTag(mac, secret, canonicalString, incomingSignature);
    CalculateSignature(secret, canonicalString, mac) == incomingSignature
  }

  /** The listed names: the signed-headers value split on `,` (every piece kept), or none
      when the header is absent. */
  function SignedHeaderList(headers: seq<Header>): seq<string> {
    match Lookup(headers, "x-contentful-signed-headers")
    case Some(v) => Split(v, ',')
    case None => []
  }

  /** The POST handler. A missing secret, and an empty one (SecretKeySpec rejects a key of
      no bytes), is an exception that escapes the route; otherwise the request is accepted
      exactly when its signature header is present and decodes to the tag over the
      request's own method, path, listed headers and untrimmed body, and anything else is
      Forbidden. */
  function Handle(secret: Option<string>, request: Request, mac: Mac): (r: Response)
    ensures (secret.None? || secret == Some("")) <==> r == Unhandled
    ensures r == Ok200 || r == Forbidden403 || r == Unhandled
    ensures secret.Some? && secret.value != "" ==>
              (r == Ok200 <==>
                 && Lookup(request.headers, "x-contentful-signature").Some?
                 && FromHex(Lookup(request.headers, "x-contentful-signature").value)
                    == Some(mac(secret.value, BuildCanonicalString(request.verb, request.path, request.headers,
                                                                   SignedHeaderList(request.headers), request.body))))
  {
    var signature := LookupOrEmpty(request.headers, "x-contentful-signature");
    var signedHeaders := SignedHeaderList(request.headers);
    match secret
    case None => Unhandled
    case Some(s) =>
      if s == "" then Unhandled
      else if VerifyRequest(s, request.verb, request.path, request.headers, signedHeaders, request.body, signature, mac)
      then Ok200 else Forbidden403
  }

  /** A request without the signed-headers header is signed over an empty header block:
      the method and path lines are followed by an empty line and the body. */
  lemma NoSignedHeadersEmptyBlock(request: Request)
    requires Lookup(request.headers, "x-contentful-signed-headers").None?
    ensures BuildCanonicalString(request.verb, request.path, request.headers,
                                 SignedHeaderList(request.headers), request.body)
            == request.verb + "\n" + request.path + "\n\n" + request.body
  {
  }

  /** An empty signed-headers value still lists one (empty) name, so the block is `:`
      followed by the value of a header with an empty name, which is empty when there is
      none. */
  lemma EmptySignedHeadersBlock(request: Request)
    requires Lookup(request.headers, "x-contentful-signed-headers") == Some("")
    ensures BuildCanonicalString(request.verb, request.path, request.headers,
                                 SignedHeaderList(request.headers), request.body)
            == request.verb + "\n" + request.path + "\n:" + LookupOrEmpty(request.headers, "") + "\n" + request.body
  {
    assert Split("", ',') == [""];
    assert TrimKt("") == "";
  }
}
