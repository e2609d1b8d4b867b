/** python/app.py: a Flask view. The headers are copied into a dict keyed by lower-case
    name (a later field overwrites an earlier one); only listed names whose stripped,
    lower-cased form is a key produce an entry; the value is fetched with the stripped but
    not lower-cased name, and a missing value is rendered as `None`. */
module Python {
  import opened Wrappers
  import opened Text
  import opened Hex
  import opened Headers
  import opened Signing

  /** str.strip() on ASCII. */
  function StripPy(s: string): string {
    Trim(s, IsSeparatorSpace)
  }

  /** `{k.lower(): v for k, v in request.headers.items()}`. */
  function HeaderDict(hs: seq<Header>): map<string, string> {
    LastWins(hs, Lower, Identity)
  }

  /** dict.get. */
  function DictGet(d: map<string, string>, k: string): Option<string> {
    if k in d then Some(d[k]) else None
  }

  /** An f-string renders a missing value as `None`. */
  function Render(v: Option<string>): string {
    match v
    case Some(s) => s
    case None => "None"
  }

  /** One entry of the comprehension. */
  function Entry(header: string, headers: map<string, string>): string {
    StripPy(Lower(header)) + ":" + Render(DictGet(headers, StripPy(header)))
  }

  /** The comprehension's filter: the stripped, lower-cased name is a key. */
  predicate IsListedPresent(header: string, headers: map<string, string>) {
    Lower(StripPy(header)) in headers
  }

  /** build_canonical_string. */
  function BuildCanonicalString(verb: string, path: string, headers: map<string, string>,
                                signedHeaders: seq<string>, body: string): string
  {
    var sortedHeaders := Map((h: string) => Entry(h, headers),
                             Filter((h: string) => IsListedPresent(h, headers), signedHeaders));
    Canonical(verb, path, Block(sortedHeaders), body)
  }

  /** hmac.compare_digest on two str: a TypeError (None) when either is None or holds a
      non-ASCII character, otherwise whether they are equal. */
  function CompareDigest(a: string, b: Option<string>): (r: Option<bool>)
    ensures b.None? ==> r.None?
    ensures r.None? <==> || b.None?
                         || (exists i :: 0 <= i < |a| && a[i] as int >= 128)
                         || (b.Some? && exists i :: 0 <= i < |b.value| && b.value[i] as int >= 128)
    ensures r.Some? ==> (r.value <==> b == Some(a))
    ensures (forall i :: 0 <= i < |a| ==> a[i] as int < 128) ==> (r == Some(true) <==> b == Some(a))
  {
    match b
    case None => None
    case Some(s) =>
      if (forall i :: 0 <= i < |a| ==> a[i] as int < 128) && (forall i :: 0 <= i < |s| ==> s[i] as int < 128)
      then Some(a == s) else None
  }

  /** The listed names: the signed-headers value (or "") split on `,`. */
  function SignedHeaders(headers: map<string, string>): seq<string> {
    Split(DictGet(headers, "x-contentful-signed-headers").GetOr(""), ',')
  }

  /** verify_request: the exception from comparing with a missing signature is caught and
      answered false; otherwise the signature must decode to the tag. */
  function VerifyRequest(secret: string, verb: string, path: string, headers: map<string, string>,
                         body: string, mac: Mac): (r: bool)
    ensures r <==>
              && "x-contentful-signature" in headers
              && FromHex(headers["x-contentful-signature"])
                 == Some(mac(secret, BuildCanonicalString(verb, path, headers, SignedHeaders(headers), body)))
  {
    var signature := DictGet(headers, "x-contentful-signature");
    var canonicalString := BuildCanonicalString(verb, path, headers, SignedHeaders(headers), body);
    var generatedSignature := Signature(mac, secret, canonicalString);
    CompareWithGenerated(mac, secret, canonicalString, signature);
    match CompareDigest(generatedSignature, signature)
    case Some(equal) => equal
    case None => false
  }

  /** Comparing the generated signature with a claim succeeds and says equal exactly when
      the claim is present and decodes to the tag: the generated signature is ASCII. */
  lemma CompareWithGenerated(mac: Mac, secret: string, message: string, claim: Option<string>)
    ensures CompareDigest(Signature(mac, secret, message), claim) == Some(true)
            <==> claim.Some? && FromHex(claim.value) == Some(mac(secret, message))
  {
    var generated := Signature(mac, secret, message);
    forall i | 0 <= i < |generated| ensures generated[i] as int < 128 {
      assert IsLowerHexChar(generated[i]);
    }
    if claim.Some? {
      SignatureMatchesTag(mac, secret, message, claim.value);
    }
  }

  /** The view: OK or Forbidden. The secret was checked to be non-empty at start-up. */
  function Webhook(secret: string, request: Request, mac: Mac): (r: Response)
    requires secret != ""
    ensures r == Ok200 <==> VerifyRequest(secret, request.verb, request.path, HeaderDict(request.headers), request.body, mac)
    ensures r in {Ok200, Forbidden403}
  {
    if VerifyRequest(secret, request.verb, request.path, HeaderDict(request.headers), request.body, mac)
    then Ok200 else Forbidden403
  }

  /** A listed name that is present but written with an upper-case letter passes the filter
      and is then fetched under its non-lower-cased form, which is never a key: its value
      is rendered as `None`. */
  lemma MixedCaseNameRendersNone(header: string, hs: seq<Header>)
    requires Lower(StripPy(header)) in HeaderDict(hs)
    requires StripPy(header) != Lower(StripPy(header))
    ensures IsListedPresent(header, HeaderDict(hs))
    ensures Entry(header, HeaderDict(hs)) == Lower(StripPy(header)) + ":" + "None"
  {
    var t := StripPy(header);
    var d := HeaderDict(hs);
    LowerIsLowerCase(t);
    assert !IsLowerCase(t);
    LastWinsLowerKeys(hs, Identity);
    assert t !in d;
    SpaceSetsAreLow();
    LowerTrimCommute(header, IsSeparatorSpace);
    assert StripPy(Lower(header)) == Lower(t);
    assert Render(DictGet(d, t)) == "None";
  }

  /** When every listed name is already stripped, lower-case and present, the block is each
      name with its value, in list order, repeats kept. */
  lemma PlainNamesBlock(headers: map<string, string>, signedHeaders: seq<string>)
    requires forall i :: 0 <= i < |signedHeaders| ==>
               StripPy(signedHeaders[i]) == signedHeaders[i] && IsLowerCase(signedHeaders[i])
               && signedHeaders[i] in headers
    ensures var entries := Map((h: string) => Entry(h, headers),
                               Filter((h: string) => IsListedPresent(h, headers), signedHeaders));
            && |entries| == |signedHeaders|
            && forall i :: 0 <= i < |signedHeaders| ==> entries[i] == signedHeaders[i] + ":" + headers[signedHeaders[i]]
  {
    forall i | 0 <= i < |signedHeaders|
      ensures IsListedPresent(signedHeaders[i], headers)
    {
      LowerIsLowerCase(signedHeaders[i]);
    }
    FilterAll((h: string) => IsListedPresent(h, headers), signedHeaders);
    forall i | 0 <= i < |signedHeaders|
      ensures Entry(signedHeaders[i], headers) == signedHeaders[i] + ":" + headers[signedHeaders[i]]
    {
      LowerIsLowerCase(signedHeaders[i]);
    }
  }
}
