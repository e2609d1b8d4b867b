/** go/main.go: a Gin handler. The signed-headers list is split keeping every piece, each
    name lower-cased and trimmed, each value looked up with the name exactly as listed and
    trimmed; a missing header reads as "" and an unset secret as the empty key; the
    comparison is hmac.Equal on the bytes. */
module Go {
  import opened Wrappers
  import opened Text
  import opened Hex
  import opened Headers
  import opened Signing

  /** The characters of an HTTP token (section 5.6.2 of RFC 9110). */
  predicate IsTokenChar(c: char) {
    || 'a' <= c <= 'z' || 'A' <= c <= 'Z' || '0' <= c <= '9'
    || c in {'!', '#', '$', '%', '&', '\'', '*', '+', '-', '.', '^', '_', '`', '|', '~'}
  }

  /** A token: one or more token characters. */
  predicate IsToken(s: string) {
    |s| > 0 && forall c :: c in s ==> IsTokenChar(c)
  }

  /** c.GetHeader: the header is looked up under its canonical form, so case does not
      matter; a name that is not a token is left as it is and matches no received field,
      whose names are always tokens. */
  function GetHeader(headers: seq<Header>, name: string): string {
    if IsToken(name) then LookupOrEmpty(headers, name) else ""
  }

  /** strings.TrimSpace on ASCII. */
  function TrimGo(s: string): string {
    Trim(s, IsAsciiSpace)
  }

  /** `fmt.Sprintf("%s:%s", headerKey, strings.TrimSpace(headerValue))`. */
  function Entry(header: string, headers: seq<Header>): string {
    TrimGo(Lower(header)) + ":" + TrimGo(GetHeader(headers, header))
  }

  /** buildCanonicalString. */
  function BuildCanonicalString(verb: string, path: string, signedHeaders: string, headers: seq<Header>,
                                body: string): string
  {
    Canonical(verb, path, Block(Map((h: string) => Entry(h, headers), Split(signedHeaders, ','))), body)
  }

  /** verifyRequest: the lower-case hex of the tag (hex.EncodeToString) compared byte for
      byte with the signature header, "" when absent. */
  function VerifyRequest(secret: string, request: Request, mac: Mac): (r: bool)
    ensures r <==>
              FromHex(GetHeader(request.headers, "X-Contentful-Signature"))
              == Some(mac(secret, BuildCanonicalString(request.verb, request.path,
                                                       GetHeader(request.headers, "X-Contentful-Signed-Headers"),
                                                       request.headers, request.body)))
  {
    var signature := GetHeader(request.headers, "X-Contentful-Signature");
    var signedHeaders := GetHeader(request.headers, "X-Contentful-Signed-Headers");
    var canonicalString := BuildCanonicalString(request.verb, request.path, signedHeaders, request.headers, request.body);
    var generatedSignature := Signature(mac, secret, canonicalString);
    SignatureMatchesTag(mac, secret, canonicalString, signature);
    generatedSignature == signature
  }

  /** The POST handler: OK or Forbidden. */
  function Handle(secret: string, request: Request, mac: Mac): (r: Response)
    ensures r == Ok200 <==> VerifyRequest(secret, request, mac)
    ensures r in {Ok200, Forbidden403}
  {
    if VerifyRequest(secret, request, mac) then Ok200 else Forbidden403
  }

  /** The two Contentful header names are tokens: both are looked up up to case. */
  lemma ContentfulNamesAreTokens(headers: seq<Header>)
    ensures GetHeader(headers, "X-Contentful-Signature") == LookupOrEmpty(headers, "X-Contentful-Signature")
    ensures GetHeader(headers, "X-Contentful-Signed-Headers") == LookupOrEmpty(headers, "X-Contentful-Signed-Headers")
  {
    SignatureNameIsToken();
    SignedHeadersNameIsToken();
  }

  lemma SignatureNameIsToken()
    ensures IsToken("X-Contentful-Signature")
  {
  }

  lemma SignedHeadersNameIsToken()
    ensures IsToken("X-Contentful-Signed-Headers")
  {
  }

  /** Without a signature header the request is always Forbidden: the empty string is
      never a signature. */
  lemma MissingSignatureForbidden(secret: string, request: Request, mac: Mac)
    requires Lookup(request.headers, "X-Contentful-Signature").None?
    ensures Handle(secret, request, mac) == Forbidden403
  {
    ContentfulNamesAreTokens(request.headers);
    var canonicalString := BuildCanonicalString(request.verb, request.path,
                                                GetHeader(request.headers, "X-Contentful-Signed-Headers"),
                                                request.headers, request.body);
    EmptyClaimNeverDecodesToTag(mac(secret, canonicalString));
  }

  /** The empty string decodes to no bytes, never to a tag. */
  lemma EmptyClaimNeverDecodesToTag(tag: Digest)
    ensures FromHex("") != Some(tag)
  {
  }

  /** A listed name that is not a token, such as the second name of "a, b" with its
      space, reads as empty whatever the request carries. */
  lemma NonTokenNameReadsEmpty(header: string, headers: seq<Header>, i: nat)
    requires i < |header| && !IsTokenChar(header[i])
    ensures Entry(header, headers) == TrimGo(Lower(header)) + ":"
  {
    assert header[i] in header;
    assert TrimGo("") == "";
  }

  /** An empty (or absent) signed-headers header still lists one empty name. The empty
      name is not a token, so it reads as empty and the block is `:`. */
  lemma EmptyListBlock(verb: string, path: string, headers: seq<Header>, body: string)
    ensures BuildCanonicalString(verb, path, "", headers, body) == verb + "\n" + path + "\n" + ":" + "\n" + body
  {
    assert Split("", ',') == [[]];
    assert TrimGo("") == "" && Lower("") == "";
    assert GetHeader(headers, "") == "";
    assert Entry("", headers) == [] + ":" + [];
    var entries := Map((h: string) => Entry(h, headers), Split("", ','));
    assert |entries| == 1;
    assert entries[0] == Entry(Split("", ',')[0], headers);
    assert entries[0] == ":";
    assert entries == [":"];
    assert Block(entries) == ":";
  }
}
