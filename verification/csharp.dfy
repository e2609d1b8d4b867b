/** The ASP.NET controller of csharp/WebhookController.cs. The canonical string always uses
    method POST and path "/", the body is trimmed before signing, and the claim is compared
    ignoring case. */
module CSharp {
  import opened Wrappers
  import opened Text
  import opened Hex
  import opened Headers
  import opened Signing

  /** The trim of String.Trim (char.IsWhiteSpace on ASCII). */
  function TrimCs(s: string): string {
    Trim(s, IsAsciiSpace)
  }

  /** One entry of the header block: the listed name lower-cased and trimmed, `:`, and the
      trimmed first value of the header of that name, or nothing when it is absent. */
  function Entry(listed: string, headers: seq<Header>): string {
    var name := TrimCs(Lower(listed));
    var value := match Lookup(headers, name)
                 case Some(v) => TrimCs(v)
                 case None => "";
    name + ":" + value
  }

  /** One entry per piece of the `,`-split list, empty pieces included. */
  function Entries(signedHeaders: string, headers: seq<Header>): seq<string> {
    Map((listed: string) => Entry(listed, headers), Split(signedHeaders, ','))
  }

  /** The canonical string the controller signs. */
  function CanonicalString(signedHeaders: string, headers: seq<Header>, body: string): string {
    Canonical("POST", "/", Block(Entries(signedHeaders, headers)), body)
  }

  /** BuildCanonicalString: the fixed frame, the header block, a newline and the body. */
  method BuildCanonicalString(signedHeaders: string, headers: seq<Header>, body: string)
    returns (s: string)
    ensures s == CanonicalString(signedHeaders, headers, body)
  {
    s := "POST\n";
    s := s + "/\n";
    var headersList := Split(signedHeaders, ',');
    s := AppendEntries(s, headersList, headers);
    s := s + "\n";
    s := s + body;
    FixedFrame(Block(Entries(signedHeaders, headers)), body);
  }

  /** The StringBuilder loop, which appends `;` after every entry but the last, appends
      exactly the `;`-join of the entries. */
  method AppendEntries(frame: string, headersList: seq<string>, headers: seq<Header>) returns (s: string)
    ensures s == frame + Block(Map((listed: string) => Entry(listed, headers), headersList))
  {
    ghost var entries := Map((listed: string) => Entry(listed, headers), headersList);
    s := frame;
    var i := 0;
    while i < |headersList|
      invariant 0 <= i <= |headersList| == |entries|
      invariant s == frame + Block(entries[..i]) + PendingSeparator(i, |entries|)
    {
      var header := Entry(headersList[i], headers);
      assert header == entries[i];
      BuilderStep(frame, entries, i, s);
      s := s + header;
      if i < |headersList| - 1 {
        s := s + ";";
      }
      i := i + 1;
    }
    assert entries[..i] == entries;
  }

  /** The fixed frame the controller writes around the block and the body. */
  lemma FixedFrame(block: string, body: string)
    ensures var c := Canonical("POST", "/", block, body);
            && c == "POST\n" + "/\n" + block + "\n" + body
            && c[..7] == "POST\n/\n"
            && c[|c| - |body| - 1..] == "\n" + body
  {
    CanonicalFrame("POST", "/", block, body);
  }

  /** The canonical string starts with the fixed "POST\n/\n", whatever the request's real
      method and path, and ends with a newline and the body. */
  lemma CanonicalFrameFixed(signedHeaders: string, headers: seq<Header>, body: string)
    ensures var c := CanonicalString(signedHeaders, headers, body);
            c[..7] == "POST\n/\n" && c[|c| - |body| - 1..] == "\n" + body
  {
    FixedFrame(Block(Entries(signedHeaders, headers)), body);
  }

  /** When the header block contains no newline, the canonical string reads back as exactly
      POST, /, the block and the body. */
  lemma CanonicalReadsBack(signedHeaders: string, headers: seq<Header>, body: string)
    requires '\n' !in Block(Entries(signedHeaders, headers))
    ensures ParseCanonical(CanonicalString(signedHeaders, headers, body))
              == Some(Fields("POST", "/", Block(Entries(signedHeaders, headers)), body))
  {
    FixedFrameReadsBack(Block(Entries(signedHeaders, headers)), body);
  }

  lemma FixedFrameReadsBack(block: string, body: string)
    requires '\n' !in block
    ensures ParseCanonical(Canonical("POST", "/", block, body)) == Some(Fields("POST", "/", block, body))
  {
    ParseCanonicalRoundTrip("POST", "/", block, body);
  }

  /** The header block holds one entry per `,`-separated piece, in order, empty pieces
      included, and the pieces are exactly the list; each entry carries the lower-cased,
      trimmed name and the trimmed value of the first header of that name, or nothing. */
  lemma BlockShape(signedHeaders: string, headers: seq<Header>)
    ensures var names := Split(signedHeaders, ',');
            && Join(names, ',') == signedHeaders
            && |Entries(signedHeaders, headers)| == |names|
            && forall i :: 0 <= i < |names| ==>
                 var name := TrimCs(Lower(names[i]));
                 && IsLowerCase(name)
                 && (name == [] || (!IsAsciiSpace(name[0]) && !IsAsciiSpace(name[|name| - 1])))
                 && Entries(signedHeaders, headers)[i]
                      == name + ":" + TrimCs(LookupOrEmpty(headers, name))
    ensures (forall i :: 0 <= i < |Entries(signedHeaders, headers)| ==> ';' !in Entries(signedHeaders, headers)[i])
              ==> Split(Block(Entries(signedHeaders, headers)), ';') == Entries(signedHeaders, headers)
  {
    var names := Split(signedHeaders, ',');
    JoinSplit(signedHeaders, ',');
    forall i | 0 <= i < |names|
      ensures IsLowerCase(TrimCs(Lower(names[i])))
    {
      LowerIsLowerCase(names[i]);
    }
    if forall i :: 0 <= i < |Entries(signedHeaders, headers)| ==> ';' !in Entries(signedHeaders, headers)[i] {
      BlockEntries(Entries(signedHeaders, headers));
    }
  }

  // ---------------------------------------------------------------------------------------
  // CalculateHMACSHA256
  // ---------------------------------------------------------------------------------------

  /** BitConverter.ToString: each byte as two upper-case digits, separated by `-`. */
  function BitConverterString(bs: seq<byte>): string {
    Join(Map((b: byte) => Upper(ByteHex(b)), bs), '-')
  }

  lemma LowerUpperHexDigit(c: char)
    requires IsLowerHexChar(c)
    ensures LowerChar(UpperChar(c)) == c
  {
  }

  /** Each further byte adds a dash and its two upper-case digits. */
  lemma BitConverterSnoc(p: seq<byte>, b: byte)
    ensures BitConverterString(p + [b])
            == if |p| == 0 then Upper(ByteHex(b)) else BitConverterString(p) + ['-'] + Upper(ByteHex(b))
  {
    var f := (b: byte) => Upper(ByteHex(b));
    assert Map(f, p + [b]) == Map(f, p) + [f(b)];
    if |p| > 0 {
      JoinSnoc(Map(f, p), f(b), '-');
    } else {
      assert Map(f, p + [b]) == [f(b)];
    }
  }

  /** Lower-casing the dashless upper-case digits of a byte gives its lower-case digits. */
  lemma DashlessByte(b: byte)
    ensures Lower(RemoveChar(Upper(ByteHex(b)), '-')) == ByteHex(b)
  {
    var u := Upper(ByteHex(b));
    assert '-' !in u;
    RemoveCharAbsent(u, '-');
    LowerUpperHexDigit(ByteHex(b)[0]);
    LowerUpperHexDigit(ByteHex(b)[1]);
  }

  /** Removing the dashes from BitConverter's rendering and lower-casing it gives the
      lower-case hex encoding: two digits per byte, no separators. */
  lemma {:induction false} DashlessLowerIsHex(bs: seq<byte>)
    ensures Lower(RemoveChar(BitConverterString(bs), '-')) == ToHex(bs)
    decreases |bs|
  {
    if |bs| == 0 {
      assert Map((b: byte) => Upper(ByteHex(b)), bs) == [];
    } else {
      var p := bs[..|bs| - 1];
      assert p + [bs[|bs| - 1]] == bs;
      if |p| > 0 {
        DashlessLowerIsHex(p);
      }
      DashlessSnoc(p, bs[|bs| - 1], BitConverterString(bs), ToHex(bs));
    }
  }

  lemma DashlessSnoc(p: seq<byte>, b: byte, rendered: string, hex: string)
    requires |p| > 0 ==> Lower(RemoveChar(BitConverterString(p), '-')) == ToHex(p)
    requires rendered == BitConverterString(p + [b]) && hex == ToHex(p + [b])
    ensures Lower(RemoveChar(rendered, '-')) == hex
  {
    var u := Upper(ByteHex(b));
    ToHexSnoc(p, b);
    BitConverterSnoc(p, b);
    DashlessByte(b);
    if |p| > 0 {
      var q := BitConverterString(p);
      assert RemoveChar(q + ['-'] + u, '-') == RemoveChar(q, '-') + RemoveChar(u, '-') by {
        RemoveCharAppend(q + ['-'], u, '-');
        RemoveCharAppend(q, ['-'], '-');
        assert RemoveChar(['-'], '-') == [];
      }
      LowerAppend(RemoveChar(q, '-'), RemoveChar(u, '-'));
    } else {
      assert ToHex(p) == [];
    }
  }

  /** The generated signature is the lower-case hex of the tag, 64 characters. */
  function CalculateHmacSha256(data: string, secret: string, mac: Mac): (r: string)
    ensures r == Signature(mac, secret, data)
    ensures |r| == 64
  {
    DashlessLowerIsHex(mac(secret, data));
    Lower(RemoveChar(BitConverterString(mac(secret, data)), '-'))
  }

  // ---------------------------------------------------------------------------------------
  // VerifyWebhook
  // ---------------------------------------------------------------------------------------

  predicate IsNullOrEmpty(s: Option<string>) {
    s.None? || s.value == ""
  }

  /** The controller action. The secret (None when the environment variable is unset) is
      checked before anything else; then the two headers; then the signature. */
  function VerifyWebhook(secret: Option<string>, request: Request, mac: Mac): (r: Response)
    ensures IsNullOrEmpty(secret) ==> r == ServerError500
    ensures r == Ok200 || r == Unauthorized401 || r == ServerError500
  {
    if IsNullOrEmpty(secret) then ServerError500
    else
      var requestBody := TrimCs(request.body);
      var signature := Lookup(request.headers, "X-Contentful-Signature");
      var signedHeaders := Lookup(request.headers, "X-Contentful-Signed-Headers");
      if IsNullOrEmpty(signature) || IsNullOrEmpty(signedHeaders) then Unauthorized401
      else
        var canonicalString := CanonicalString(signedHeaders.value, request.headers, requestBody);
        var generatedSignature := CalculateHmacSha256(canonicalString, secret.value, mac);
        if EqualsIgnoreCase(generatedSignature, signature.value) then Ok200 else Unauthorized401
  }

  /** A missing or empty signature or signed-headers header is Unauthorized, and the outcome
      does not depend on the HMAC at all: no signature is computed. */
  lemma MissingCredentialsRejected(secret: Option<string>, request: Request, mac: Mac, other: Mac)
    requires !IsNullOrEmpty(secret)
    requires IsNullOrEmpty(Lookup(request.headers, "X-Contentful-Signature"))
             || IsNullOrEmpty(Lookup(request.headers, "X-Contentful-Signed-Headers"))
    ensures VerifyWebhook(secret, request, mac) == Unauthorized401
    ensures VerifyWebhook(secret, request, other) == Unauthorized401
  {
  }

  /** With the secret and both headers present, the request is accepted exactly when the
      claim, read without regard to letter case, is the hex of the tag over the canonical
      string of the trimmed body: a claim differing from the signature only in case is
      accepted, any other claim is rejected. */
  lemma AcceptsExactlyCaseVariants(secret: string, request: Request, mac: Mac)
    requires secret != ""
    requires !IsNullOrEmpty(Lookup(request.headers, "X-Contentful-Signature"))
    requires !IsNullOrEmpty(Lookup(request.headers, "X-Contentful-Signed-Headers"))
    ensures var claim := Lookup(request.headers, "X-Contentful-Signature").value;
            var canonical := CanonicalString(Lookup(request.headers, "X-Contentful-Signed-Headers").value,
                                             request.headers, TrimCs(request.body));
            && (VerifyWebhook(Some(secret), request, mac) == Ok200 <==>
                  Lower(claim) == Signature(mac, secret, canonical))
            && (VerifyWebhook(Some(secret), request, mac) == Ok200 <==>
                  FromHex(Lower(claim)) == Some(mac(secret, canonical)))
  {
    var claim := Lookup(request.headers, "X-Contentful-Signature").value;
    var canonical := CanonicalString(Lookup(request.headers, "X-Contentful-Signed-Headers").value,
                                     request.headers, TrimCs(request.body));
    var sig := Signature(mac, secret, canonical);
    assert VerifyWebhook(Some(secret), request, mac) == if EqualsIgnoreCase(sig, claim) then Ok200 else Unauthorized401;
    HexIsLowerCase(sig);
    LowerIsLowerCase(sig);
    SignatureMatchesTag(mac, secret, canonical, Lower(claim));
  }

  /** Lower-case hex has no upper-case letter. */
  lemma HexIsLowerCase(s: string)
    requires IsLowerHex(s)
    ensures IsLowerCase(s)
  {
    forall i | 0 <= i < |s| ensures !IsUpperAscii(s[i]) {
      assert IsLowerHexChar(s[i]);
    }
  }
}
