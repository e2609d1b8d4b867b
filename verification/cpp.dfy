/** cplusplus/main.cpp: a Drogon handler. The listed names are split with std::getline
    (so an empty list has no names and a trailing comma adds none) and used verbatim, with
    no trimming or lower-casing; values are looked up case-insensitively, absent ones read
    as empty; the comparison is exact. */
module Cpp {
  import opened Wrappers
  import opened Text
  import opened Hex
  import opened Headers
  import opened Signing

  /** req->getHeader: the value of the field of that name up to case, or "". */
  function GetHeader(request: Request, name: string): string {
    LookupOrEmpty(request.headers, name)
  }

  /** The pieces std::getline(stream, piece, ',') yields: every `,`-separated piece except
      an empty last one (the read that hits the end of the stream with nothing extracted
      fails). */
  function Tokenize(s: string): seq<string> {
    DropLastEmpty(Split(s, ','))
  }

  /** The pieces rebuild the input: joined back with `,`, plus the trailing comma that an
      empty last piece stood for. */
  lemma TokenizeSpec(s: string, t: seq<string>)
    requires t == Tokenize(s)
    ensures s == "" <==> t == []
    ensures s != "" ==> Join(t, ',') + (if s[|s| - 1] == ',' then "," else "") == s
  {
    var parts := Split(s, ',');
    SplitLastEmpty(s, ',');
    JoinSplit(s, ',');
    if s == "" {
      assert parts == [[]];
    } else if s[|s| - 1] == ',' {
      assert t == parts[..|parts| - 1];
      assert parts == t + [[]];
      JoinSnoc(t, [], ',');
    } else {
      assert t == parts;
    }
  }

  /** One entry: the listed name as it is, `:`, and that header's value. */
  function Entry(header: string, request: Request): string {
    header + ":" + GetHeader(request, header)
  }

  /** The header block the loop builds. */
  function HeadersString(request: Request): string {
    Block(Map((h: string) => Entry(h, request), Tokenize(GetHeader(request, "x-contentful-signed-headers"))))
  }

  /** The getline loop with its `firstHeader` flag builds the `;`-join of the entries. */
  method BuildHeadersString(request: Request) returns (headersString: string)
    ensures headersString == HeadersString(request)
  {
    var tokens := Tokenize(GetHeader(request, "x-contentful-signed-headers"));
    ghost var entries := Map((h: string) => Entry(h, request), tokens);
    headersString := "";
    var firstHeader := true;
    var i := 0;
    while i < |tokens|
      invariant 0 <= i <= |tokens|
      invariant firstHeader <==> i == 0
      invariant headersString == Block(entries[..i])
    {
      var header := tokens[i];
      var headerValue := GetHeader(request, header);
      BlockStep(entries, i);
      if !firstHeader {
        headersString := headersString + ";";
      }
      headersString := headersString + header + ":" + headerValue;
      firstHeader := false;
      i := i + 1;
    }
    assert entries[..|tokens|] == entries;
  }

  /** computeSignature: each tag byte written as two zero-filled hex digits. */
  method ComputeSignature(canonicalString: string, secret: string, mac: Mac) returns (r: string)
    ensures r == Signature(mac, secret, canonicalString)
  {
    var result := mac(secret, canonicalString);
    r := "";
    var i := 0;
    while i < |result|
      invariant 0 <= i <= |result|
      invariant r == ToHex(result[..i])
    {
      PaddedByteIsByteHex(result[i]);
      assert result[..i + 1] == result[..i] + [result[i]];
      ToHexSnoc(result[..i], result[i]);
      r := r + PadStart(MinimalHex(result[i]), 2, '0');
      i := i + 1;
    }
    assert result[..|result|] == result;
  }

  /** The canonical string: the request's method and path, the header block, the body. */
  function CanonicalString(request: Request): string {
    Canonical(request.verb, request.path, HeadersString(request), request.body)
  }

  /** verifyRequestHandler. An unset secret is a server error; otherwise OK exactly when
      the signature header decodes to the tag, and Forbidden otherwise (a missing
      signature reads as "" and never matches). */
  method VerifyRequestHandler(secret: Option<string>, request: Request, mac: Mac) returns (r: Response)
    ensures secret.None? <==> r == ServerError500
    ensures r == Ok200 <==>
              secret.Some? && FromHex(GetHeader(request, "x-contentful-signature"))
                              == Some(mac(secret.value, CanonicalString(request)))
    ensures r in {Ok200, Forbidden403, ServerError500}
  {
    var incomingSignature := GetHeader(request, "x-contentful-signature");
    if secret.None? {
      return ServerError500;
    }
    var headersString := BuildHeadersString(request);
    var canonicalString := request.verb + "\n" + request.path + "\n" + headersString + "\n" + request.body;
    var computedSignature := ComputeSignature(canonicalString, secret.value, mac);
    SignatureMatchesTag(mac, secret.value, canonicalString, incomingSignature);
    if computedSignature == incomingSignature {
      r := Ok200;
    } else {
      r := Forbidden403;
    }
  }

  /** A trailing comma adds no name: the list reads exactly as the same list without it
      would under a split that keeps every piece. */
  lemma TrailingCommaAddsNothing(s: string)
    ensures Tokenize(s + ",") == Split(s, ',')
  {
    SplitSnocSep(s, ',');
    assert (Split(s, ',') + [[]])[..|Split(s, ',')|] == Split(s, ',');
  }
}
