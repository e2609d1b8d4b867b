/** ruby/app.rb: a Sinatra route reading the Rack environment. Each listed name is turned
    into its HTTP_ variable name; values are stripped; an empty Content-Type falls back to
    the CONTENT_TYPE variable; a missing header (nil) is rejected, an empty list is not. */
module Ruby {
  import opened Wrappers
  import opened Text
  import opened Hex
  import opened Headers
  import opened Signing

  /** The Rack environment: variable name to value. */
  type Env = map<string, string>

  function EnvGet(env: Env, k: string): Option<string> {
    if k in env then Some(env[k]) else None
  }

  /** String#strip. */
  function StripRb(s: string): string {
    Trim(s, IsRubySpace)
  }

  /** String#split(','): every trailing empty piece dropped, so "" has no pieces. */
  function SplitRb(s: string): seq<string> {
    DropTrailingEmpty(Split(s, ','))
  }

  /** `"HTTP_" + header.strip.upcase.tr('-', '_')`. */
  function EnvKey(header: string): string {
    "HTTP_" + ReplaceChar(Upper(StripRb(header)), '-', '_')
  }

  /** The value of one listed header: the stripped variable, or ""; for content-type an
      empty value is replaced by CONTENT_TYPE as it is (nil interpolates as ""). */
  function Value(header: string, env: Env): string {
    var value := match EnvGet(env, EnvKey(header))
                 case Some(v) => StripRb(v)
                 case None => "";
    if Lower(StripRb(header)) == "content-type" && value == "" then EnvGet(env, "CONTENT_TYPE").GetOr("")
    else value
  }

  function Entry(header: string, env: Env): string {
    Lower(StripRb(header)) + ":" + Value(header, env)
  }

  /** build_canonical_string. */
  function BuildCanonicalString(verb: string, path: string, env: Env, signedHeaders: seq<string>, body: string): string {
    Canonical(verb, path, Block(Map((h: string) => Entry(h, env), signedHeaders)), body)
  }

  /** The number of bytes of the UTF-8 encoding. */
  function Utf8Length(s: string): nat
    decreases |s|
  {
    if |s| == 0 then 0
    else
      var c := s[0] as int;
      (if c < 0x80 then 1 else if c < 0x800 then 2 else if c < 0x1_0000 then 3 else 4) + Utf8Length(s[1..])
  }

  /** OpenSSL.fixed_length_secure_compare: an ArgumentError (None) when the byte lengths
      differ, otherwise whether the strings are equal. */
  function FixedLengthSecureCompare(a: string, b: string): (r: Option<bool>)
    ensures r.None? <==> Utf8Length(a) != Utf8Length(b)
    ensures r.Some? ==> (r.value <==> a == b)
    ensures a == b ==> r == Some(true)
  {
    if Utf8Length(a) != Utf8Length(b) then None else Some(a == b)
  }

  /** verify_request: a missing signature or signed-headers variable is false; a length
      mismatch raises and is rescued as false; otherwise the signature must decode to the
      tag. */
  function VerifyRequest(secret: string, verb: string, path: string, env: Env, body: string, mac: Mac): (r: bool)
    ensures r <==>
              && "HTTP_X_CONTENTFUL_SIGNATURE" in env
              && "HTTP_X_CONTENTFUL_SIGNED_HEADERS" in env
              && FromHex(env["HTTP_X_CONTENTFUL_SIGNATURE"])
                 == Some(mac(secret, BuildCanonicalString(verb, path, env, SplitRb(env["HTTP_X_CONTENTFUL_SIGNED_HEADERS"]), body)))
  {
    var signature := EnvGet(env, "HTTP_X_CONTENTFUL_SIGNATURE");
    var signedHeaders := EnvGet(env, "HTTP_X_CONTENTFUL_SIGNED_HEADERS");
    if signature.None? || signedHeaders.None? then false
    else
      var canonicalString := BuildCanonicalString(verb, path, env, SplitRb(signedHeaders.value), body);
      var generatedSignature := Signature(mac, secret, canonicalString);
      SignatureMatchesTag(mac, secret, canonicalString, signature.value);
      match FixedLengthSecureCompare(generatedSignature, signature.value)
      case Some(equal) => equal
      case None => false
  }

  /** The route: OK or Forbidden. The secret was checked to be non-empty at start-up. */
  function Post(secret: string, verb: string, path: string, env: Env, body: string, mac: Mac): (r: Response)
    requires secret != ""
    ensures r == Ok200 <==> VerifyRequest(secret, verb, path, env, body, mac)
    ensures r in {Ok200, Forbidden403}
  {
    if VerifyRequest(secret, verb, path, env, body, mac) then Ok200 else Forbidden403
  }

  /** A present but empty signed-headers variable lists no names and signs an empty header
      block. */
  lemma EmptyListSignsEmptyBlock(verb: string, path: string, env: Env, body: string)
    requires EnvGet(env, "HTTP_X_CONTENTFUL_SIGNED_HEADERS") == Some("")
    ensures BuildCanonicalString(verb, path, env, SplitRb(env["HTTP_X_CONTENTFUL_SIGNED_HEADERS"]), body)
            == verb + "\n" + path + "\n\n" + body
  {
    assert Split("", ',') == [[]];
  }

  /** Content-Type, which Rack keeps in CONTENT_TYPE rather than an HTTP_ variable, is
      signed with that variable's value as it is, unstripped. */
  lemma ContentTypeFallback(header: string, env: Env)
    requires Lower(StripRb(header)) == "content-type"
    requires EnvKey(header) !in env
    ensures Entry(header, env) == "content-type:" + EnvGet(env, "CONTENT_TYPE").GetOr("")
  {
  }

  /** Every entry's name part is lower-case and stripped. */
  lemma EntryNameShape(header: string, env: Env)
    ensures var name := Lower(StripRb(header));
            && IsLowerCase(name) && StripRb(name) == name
            && Entry(header, env) == name + ":" + Value(header, env)
  {
    LowerIsLowerCase(StripRb(header));
    SpaceSetsAreLow();
    LowerTrimCommute(StripRb(header), IsRubySpace);
    TrimIdempotent(header, IsRubySpace);
  }
}
