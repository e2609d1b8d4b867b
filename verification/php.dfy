/** php/index.php: the headers are rebuilt from the server variables (HTTP_X_FOO_BAR becomes
    X-Foo-Bar), the two Contentful headers are read by exact key, the listed names are
    trimmed and lower-cased, values are matched by lower-cased key and trimmed, and the
    comparison is hash_equals. */
module Php {
  import opened Wrappers
  import opened Text
  import opened Hex
  import opened Headers
  import opened LinkedMaps
  import opened Signing

  // ---------------------------------------------------------------------------------------
  // fetchAllHeaders
  // ---------------------------------------------------------------------------------------

  /** The default word delimiters of ucwords: space, tab, CR, LF, form feed, vertical tab. */
  predicate IsWordDelimiter(c: char) {
    c == ' ' || c == '\t' || c == '\r' || c == '\n' || c as int == 12 || c as int == 11
  }

  /** Position `i` starts a word: it is the first position or follows a delimiter. */
  predicate StartsWord(s: string, i: nat)
    requires i < |s|
  {
    i == 0 || IsWordDelimiter(s[i - 1])
  }

  /** ucwords: the first character and every character after a delimiter upper-cased. */
  function UcWords(s: string): (r: string)
    ensures |r| == |s|
    ensures forall i :: 0 <= i < |s| ==> r[i] == if StartsWord(s, i) then UpperChar(s[i]) else s[i]
  {
    seq(|s|, i requires 0 <= i < |s| => if StartsWord(s, i) then UpperChar(s[i]) else s[i])
  }

  /** The header name for a server variable name after its HTTP_ prefix:
      `str_replace(' ', '-', ucwords(str_replace('_', ' ', strtolower(...))))`. */
  function ConvertName(suffix: string): string {
    ReplaceChar(UcWords(ReplaceChar(Lower(suffix), '_', ' ')), ' ', '-')
  }

  /** The header name is the variable name with `_` (and space) turned into `-`, each word
      starting upper-case and continuing lower-case. */
  lemma ConvertNameSpec(suffix: string)
    ensures |ConvertName(suffix)| == |suffix|
    ensures forall i :: 0 <= i < |suffix| && (suffix[i] == '_' || suffix[i] == ' ') ==> ConvertName(suffix)[i] == '-'
    ensures forall i :: 0 <= i < |suffix| && suffix[i] != '_' && suffix[i] != ' ' ==>
              ConvertName(suffix)[i]
                == if i == 0 || IsWordDelimiter(suffix[i - 1]) || suffix[i - 1] == '_' then UpperChar(suffix[i])
                   else LowerChar(suffix[i])
  {
    var a := Lower(suffix);
    var b := ReplaceChar(a, '_', ' ');
    var c := UcWords(b);
    var d := ReplaceChar(c, ' ', '-');
    assert d == ConvertName(suffix);
    forall i | 0 <= i < |suffix|
      ensures d[i] == if suffix[i] == '_' || suffix[i] == ' ' then '-'
                      else if i == 0 || IsWordDelimiter(suffix[i - 1]) || suffix[i - 1] == '_' then UpperChar(suffix[i])
                      else LowerChar(suffix[i])
    {
      var starts := StartsWord(b, i);
      assert c[i] == if starts then UpperChar(b[i]) else b[i];
      assert d[i] == if c[i] == ' ' then '-' else c[i];
      if i > 0 {
        PreviousDelimiter(suffix[i - 1]);
        assert b[i - 1] == if suffix[i - 1] == '_' then ' ' else LowerChar(suffix[i - 1]);
      }
      CaseChar(suffix[i]);
      assert b[i] == if suffix[i] == '_' then ' ' else LowerChar(suffix[i]);
    }
  }

  lemma PreviousDelimiter(x: char)
    ensures IsWordDelimiter(if x == '_' then ' ' else LowerChar(x)) <==> IsWordDelimiter(x) || x == '_'
  {
  }

  lemma CaseChar(x: char)
    ensures x != '_' && x != ' ' ==> LowerChar(x) != ' ' && UpperChar(LowerChar(x)) != ' '
    ensures UpperChar(LowerChar(x)) == UpperChar(x)
    ensures UpperChar(' ') == ' '
  {
  }

  predicate HasHttpPrefix(name: string) {
    |name| >= 5 && name[..5] == "HTTP_"
  }

  /** The server variables with the HTTP_ prefix, in order, renamed to header names. */
  function HttpHeaders(server: Entries): (hs: seq<Header>)
    ensures |hs| <= |server|
    decreases |server|
  {
    if |server| == 0 then []
    else
      var hs := HttpHeaders(server[..|server| - 1]);
      var last := server[|server| - 1];
      if HasHttpPrefix(last.name) then hs + [Header(ConvertName(last.name[5..]), last.value)] else hs
  }

  /** fetchAllHeaders: every HTTP_ variable stored under its header name in order, then
      Content-Type from CONTENT_TYPE when that is set. */
  function FetchAllHeaders(server: Entries): Entries {
    var headers := PutAll([], HttpHeaders(server));
    match Get(server, "CONTENT_TYPE")
    case Some(v) => Put(headers, "Content-Type", v)
    case None => headers
  }

  /** Every header name occurs once; Content-Type comes from CONTENT_TYPE when that is set,
      and every other name reads as the last HTTP_ variable that converts to it. */
  lemma FetchAllHeadersSpec(server: Entries, k: string)
    ensures DistinctKeys(FetchAllHeaders(server))
    ensures var m := LastWins(HttpHeaders(server), Identity, Identity);
            Get(FetchAllHeaders(server), k)
              == if k == "Content-Type" && Get(server, "CONTENT_TYPE").Some? then Get(server, "CONTENT_TYPE")
                 else if k in m then Some(m[k]) else None
  {
    var headers := PutAll([], HttpHeaders(server));
    PutAllKeepsDistinct([], HttpHeaders(server));
    GetPutAll([], HttpHeaders(server), k);
    if Get(server, "CONTENT_TYPE").Some? {
      PutKeepsDistinct(headers, "Content-Type", Get(server, "CONTENT_TYPE").value);
      GetPut(headers, "Content-Type", Get(server, "CONTENT_TYPE").value, k);
    }
  }

  // ---------------------------------------------------------------------------------------
  // verifyRequest
  // ---------------------------------------------------------------------------------------

  function TrimPhp(s: string): string {
    Trim(s, IsPhpTrimmable)
  }

  /** `!$signature` holds for null, "" and "0". */
  predicate IsFalsy(s: Option<string>) {
    s.None? || s.value == "" || s.value == "0"
  }

  /** One entry: the listed name trimmed and lower-cased, `:`, and the trimmed value of the
      first header whose lower-cased key equals it, or nothing. */
  function Entry(header: string, headers: Entries): string {
    var headerKey := Lower(TrimPhp(header));
    headerKey + ":" + TrimPhp(LookupOrEmpty(headers, headerKey))
  }

  /** buildCanonicalString. */
  function BuildCanonicalString(verb: string, path: string, headers: Entries,
                                signedHeaders: seq<string>, body: string): string
  {
    Canonical(verb, path, Block(Map((h: string) => Entry(h, headers), signedHeaders)), body)
  }

  /** The listed names: explode on `,` (every piece kept), or none when the header is not
      set. */
  function SignedHeaders(headers: Entries): seq<string> {
    match Get(headers, "X-Contentful-Signed-Headers")
    case Some(v) => Split(v, ',')
    case None => []
  }

  /** verifyRequest. An unset secret (getenv's false) is used as the empty key. The falsy
      check on the signature never changes the answer: "" and "0" are never a signature.
      The request is accepted exactly when both headers are set and the signature decodes
      to the tag. */
  function VerifyRequest(secret: Option<string>, verb: string, path: string, headers: Entries,
                         body: string, mac: Mac): (r: bool)
    ensures r <==>
              && Get(headers, "X-Contentful-Signature").Some?
              && Get(headers, "X-Contentful-Signed-Headers").Some?
              && FromHex(Get(headers, "X-Contentful-Signature").value)
                 == Some(mac(secret.GetOr(""), BuildCanonicalString(verb, path, headers, SignedHeaders(headers), body)))
  {
    var signature := Get(headers, "X-Contentful-Signature");
    var signedHeaders := SignedHeaders(headers);
    if IsFalsy(signature) then
      (if signature.Some? then
         var canonicalString := BuildCanonicalString(verb, path, headers, signedHeaders, body);
         WrongLengthNeverMatches(mac, secret.GetOr(""), canonicalString, signature.value);
         SignatureMatchesTag(mac, secret.GetOr(""), canonicalString, signature.value);
         false
       else false)
    else if |signedHeaders| == 0 then false
    else
      var canonicalString := BuildCanonicalString(verb, path, headers, signedHeaders, body);
      SignatureMatchesTag(mac, secret.GetOr(""), canonicalString, signature.value);
      Signature(mac, secret.GetOr(""), canonicalString) == signature.value
  }

  /** A set but empty signed-headers header is not rejected: it lists one empty name, so
      the block is `:` followed by the value of a header with an empty name, which is empty
      when there is none. */
  lemma EmptySignedHeadersBlock(verb: string, path: string, headers: Entries, body: string)
    requires Get(headers, "X-Contentful-Signed-Headers") == Some("")
    requires Lookup(headers, "").None?
    ensures |SignedHeaders(headers)| == 1
    ensures BuildCanonicalString(verb, path, headers, SignedHeaders(headers), body)
            == verb + "\n" + path + "\n" + ":" + "\n" + body
  {
    assert SignedHeaders(headers) == [""] by {
      assert Split("", ',') == [""];
    }
    EmptyNameBlock(headers);
  }

  /** The single empty name gives the block `:` when no header has an empty name. */
  lemma EmptyNameBlock(headers: Entries)
    requires Lookup(headers, "").None?
    ensures Block(Map((h: string) => Entry(h, headers), [""])) == ":"
  {
    EmptyNameEntry(headers);
    assert Map((h: string) => Entry(h, headers), [""]) == [":"];
    assert Block([":"]) == ":";
  }

  lemma EmptyNameEntry(headers: Entries)
    requires Lookup(headers, "").None?
    ensures Entry("", headers) == ":"
  {
    assert TrimPhp("") == "" && Lower("") == "";
  }

  /** The script: a POST is answered OK or Forbidden; any other method gets no output. */
  function Handle(secret: Option<string>, server: Entries, body: string, mac: Mac): (r: Response)
    ensures Get(server, "REQUEST_METHOD") != Some("POST") <==> r == NoResponse
    ensures r == Ok200 <==>
              Get(server, "REQUEST_METHOD") == Some("POST")
              && VerifyRequest(secret, "POST", Get(server, "REQUEST_URI").GetOr(""), FetchAllHeaders(server), body, mac)
    ensures r in {Ok200, Forbidden403, NoResponse}
  {
    if Get(server, "REQUEST_METHOD") != Some("POST") then NoResponse
    else
      var path := Get(server, "REQUEST_URI").GetOr("");
      if VerifyRequest(secret, "POST", path, FetchAllHeaders(server), body, mac) then Ok200 else Forbidden403
  }
}
