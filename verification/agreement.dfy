/** How the nine verifiers relate: where two of them sign the same canonical string and
    reach the same verdict, and inputs on which they provably part ways. */
module Agreement {
  import opened Wrappers
  import opened Text
  import opened Hex
  import opened Headers
  import opened LinkedMaps
  import opened Signing
  import CSharp
  import Go
  import Cpp
  import Java
  import Python
  import Php

  /** Every `,`-separated piece of the list is a token name. */
  predicate IsTokenList(signedHeaders: string) {
    forall i :: 0 <= i < |Split(signedHeaders, ',')| ==> Go.IsToken(Split(signedHeaders, ',')[i])
  }

  /** A token name, lower-cased, has no surrounding whitespace. */
  lemma LowerTokenIsTrimmed(listed: string)
    requires Go.IsToken(listed)
    ensures Trim(Lower(listed), IsAsciiSpace) == Lower(listed)
  {
    var l := Lower(listed);
    if |l| > 0 {
      assert listed[0] in listed && listed[|listed| - 1] in listed;
      TokenLowerNotSpace(listed[0]);
      TokenLowerNotSpace(listed[|listed| - 1]);
    }
    TrimOfTrimmed(l, IsAsciiSpace);
  }

  /** For a token name, C# (which trims and lower-cases before looking up) and Go (which
      looks up the name as listed) read the same field and write the same entry. */
  lemma TokenNameEntry(listed: string, headers: seq<Header>)
    requires Go.IsToken(listed)
    ensures CSharp.Entry(listed, headers) == Go.Entry(listed, headers)
  {
    LowerTokenIsTrimmed(listed);
    LowerIsLowerCase(listed);
    LookupIgnoresCase(headers, Lower(listed), listed);
    SameLookupSameEntry(listed, headers);
  }

  /** When lower-casing leaves nothing to trim and the lower-cased name finds the same field
      as the name itself, the C# and Go entries coincide. */
  lemma SameLookupSameEntry(listed: string, headers: seq<Header>)
    requires Go.IsToken(listed)
    requires Trim(Lower(listed), IsAsciiSpace) == Lower(listed)
    requires Lookup(headers, Lower(listed)) == Lookup(headers, listed)
    ensures CSharp.Entry(listed, headers) == Go.Entry(listed, headers)
  {
    assert Go.GetHeader(headers, listed) == LookupOrEmpty(headers, listed);
    assert Trim("", IsAsciiSpace) == "";
  }

  lemma TokenLowerNotSpace(c: char)
    requires Go.IsTokenChar(c)
    ensures !IsAsciiSpace(LowerChar(c))
  {
  }

  /** Lower-casing undoes upper-casing on lower-case hex. */
  lemma LowerUpperHex(s: string)
    requires IsLowerHex(s)
    ensures Lower(Upper(s)) == s
  {
    forall i | 0 <= i < |s|
      ensures Lower(Upper(s))[i] == s[i]
    {
      CSharp.LowerUpperHexDigit(s[i]);
    }
  }

  /** For a POST to "/" whose body has no surrounding whitespace and whose list holds only
      token names, the C# and Go handlers sign the same canonical string. */
  lemma CSharpGoSameCanonical(request: Request, signedHeaders: string)
    requires request.verb == "POST" && request.path == "/"
    requires CSharp.TrimCs(request.body) == request.body
    requires IsTokenList(signedHeaders)
    ensures CSharp.CanonicalString(signedHeaders, request.headers, CSharp.TrimCs(request.body))
            == Go.BuildCanonicalString(request.verb, request.path, signedHeaders, request.headers, request.body)
  {
    var names := Split(signedHeaders, ',');
    TokenNamesSameEntries(names, request.headers);
    assert CSharp.Entries(signedHeaders, request.headers) == Map((h: string) => Go.Entry(h, request.headers), names);
  }

  /** Over a list of token names, C# and Go write the same entries. */
  lemma TokenNamesSameEntries(names: seq<string>, headers: seq<Header>)
    requires forall i :: 0 <= i < |names| ==> Go.IsToken(names[i])
    ensures Map((h: string) => CSharp.Entry(h, headers), names) == Map((h: string) => Go.Entry(h, headers), names)
  {
    var cs := Map((h: string) => CSharp.Entry(h, headers), names);
    var go := Map((h: string) => Go.Entry(h, headers), names);
    forall i | 0 <= i < |names|
      ensures cs[i] == go[i]
    {
      TokenNameEntry(names[i], headers);
    }
  }

  /** Under the same conditions, with a secret and both headers present and non-empty, and
      a signature without upper-case letters, C# accepts exactly when Go does. */
  lemma CSharpGoSameVerdict(secret: string, request: Request, mac: Mac)
    requires secret != ""
    requires request.verb == "POST" && request.path == "/"
    requires CSharp.TrimCs(request.body) == request.body
    requires !CSharp.IsNullOrEmpty(Lookup(request.headers, "X-Contentful-Signature"))
    requires !CSharp.IsNullOrEmpty(Lookup(request.headers, "X-Contentful-Signed-Headers"))
    requires IsTokenList(Lookup(request.headers, "X-Contentful-Signed-Headers").value)
    requires IsLowerCase(Lookup(request.headers, "X-Contentful-Signature").value)
    ensures CSharp.VerifyWebhook(Some(secret), request, mac) == Ok200 <==> Go.Handle(secret, request, mac) == Ok200
  {
    var signedHeaders := Lookup(request.headers, "X-Contentful-Signed-Headers").value;
    CSharpGoSameCanonical(request, signedHeaders);
    CSharp.AcceptsExactlyCaseVariants(secret, request, mac);
    LowerIsLowerCase(Lookup(request.headers, "X-Contentful-Signature").value);
    Go.ContentfulNamesAreTokens(request.headers);
  }

  /** The signature in upper case: C# accepts it, Go rejects it. */
  lemma UpperCaseSignatureDivergence(secret: string, request: Request, mac: Mac)
    requires secret != ""
    requires request.verb == "POST" && request.path == "/"
    requires CSharp.TrimCs(request.body) == request.body
    requires !CSharp.IsNullOrEmpty(Lookup(request.headers, "X-Contentful-Signed-Headers"))
    requires IsTokenList(Lookup(request.headers, "X-Contentful-Signed-Headers").value)
    requires var canonical := CSharp.CanonicalString(Lookup(request.headers, "X-Contentful-Signed-Headers").value,
                                                     request.headers, request.body);
             var generated := Signature(mac, secret, canonical);
             && Upper(generated) != generated
             && Lookup(request.headers, "X-Contentful-Signature") == Some(Upper(generated))
    ensures CSharp.VerifyWebhook(Some(secret), request, mac) == Ok200
    ensures Go.Handle(secret, request, mac) == Forbidden403
  {
    var signedHeaders := Lookup(request.headers, "X-Contentful-Signed-Headers").value;
    var canonical := CSharp.CanonicalString(signedHeaders, request.headers, request.body);
    var generated := Signature(mac, secret, canonical);
    LowerUpperHex(generated);
    Go.ContentfulNamesAreTokens(request.headers);
    LookupIgnoresCase(request.headers, "X-Contentful-Signed-Headers", "X-Contentful-Signed-Headers");
    CSharpGoSameCanonical(request, signedHeaders);
    CSharp.AcceptsExactlyCaseVariants(secret, request, mac);
  }

  /** A present but empty signed-headers header: C# answers Unauthorized without signing,
      Go signs the block `:` and C++ an empty block. */
  lemma EmptySignedHeadersDivergence(secret: string, request: Request, mac: Mac)
    requires secret != ""
    requires Lookup(request.headers, "X-Contentful-Signed-Headers") == Some("")
    ensures CSharp.VerifyWebhook(Some(secret), request, mac) == Unauthorized401
    ensures Go.BuildCanonicalString(request.verb, request.path, Go.GetHeader(request.headers, "X-Contentful-Signed-Headers"),
                                    request.headers, request.body)
            == request.verb + "\n" + request.path + "\n" + ":" + "\n" + request.body
    ensures Cpp.HeadersString(request) == ""
  {
    CSharp.MissingCredentialsRejected(Some(secret), request, mac, mac);
    GoEmptyList(request);
    CppEmptyList(request);
  }

  lemma GoEmptyList(request: Request)
    requires Lookup(request.headers, "X-Contentful-Signed-Headers") == Some("")
    ensures Go.BuildCanonicalString(request.verb, request.path, Go.GetHeader(request.headers, "X-Contentful-Signed-Headers"),
                                    request.headers, request.body)
            == request.verb + "\n" + request.path + "\n" + ":" + "\n" + request.body
  {
    Go.ContentfulNamesAreTokens(request.headers);
    Go.EmptyListBlock(request.verb, request.path, request.headers, request.body);
  }

  lemma CppEmptyList(request: Request)
    requires Lookup(request.headers, "X-Contentful-Signed-Headers") == Some("")
    ensures Cpp.HeadersString(request) == ""
  {
    SignedHeadersNameCase();
    LookupIgnoresCase(request.headers, "X-Contentful-Signed-Headers", "x-contentful-signed-headers");
    assert Cpp.Tokenize("") == [];
  }

  lemma SignedHeadersNameCase()
    ensures Lower("X-Contentful-Signed-Headers") == Lower("x-contentful-signed-headers")
  {
    UpperNameLowered();
    LowerNameLowered();
  }

  lemma UpperNameLowered()
    ensures Lower("X-Contentful-Signed-Headers") == "x-contentful-signed-headers"
  {
  }

  lemma LowerNameLowered()
    ensures Lower("x-contentful-signed-headers") == "x-contentful-signed-headers"
  {
  }

  /** A token has no character up to U+0020 at either end. */
  lemma TokenIsBare(listed: string)
    requires Go.IsToken(listed)
    ensures IsBare(listed)
  {
    if |listed| > 0 {
      assert listed[0] in listed && listed[|listed| - 1] in listed;
    }
  }

  /** For a token name whose value has no surrounding whitespace, PHP (which trims and
      lower-cases the name before a case-insensitive match) and Go (which looks up the name
      as listed) write the same entry, although their trims remove different characters. */
  lemma PhpGoSameEntry(listed: string, headers: seq<Header>)
    requires Go.IsToken(listed)
    requires IsBare(LookupOrEmpty(headers, listed))
    ensures Php.Entry(listed, headers) == Go.Entry(listed, headers)
  {
    var v := LookupOrEmpty(headers, listed);
    TokenTrims(listed);
    BareTrims(v);
    LowerIsLowerCase(listed);
    LookupIgnoresCase(headers, Lower(listed), listed);
    PhpGoEntryParts(listed, headers, v);
  }

  /** Neither PHP's trim of a token nor Go's trim of its lower-case form removes anything. */
  lemma TokenTrims(listed: string)
    requires Go.IsToken(listed)
    ensures Php.TrimPhp(listed) == listed && Go.TrimGo(Lower(listed)) == Lower(listed)
  {
    TokenIsBare(listed);
    BareTrims(listed);
    LowerTokenIsTrimmed(listed);
  }

  /** Neither PHP's nor Go's trim changes a bare value. */
  lemma BareTrims(v: string)
    requires IsBare(v)
    ensures Php.TrimPhp(v) == v && Go.TrimGo(v) == v
  {
    SpaceSetsAreLow();
    TrimOfBare(v, IsPhpTrimmable);
    TrimOfBare(v, IsAsciiSpace);
  }

  lemma PhpGoEntryParts(listed: string, headers: seq<Header>, v: string)
    requires Go.IsToken(listed)
    requires Php.TrimPhp(listed) == listed && Go.TrimGo(Lower(listed)) == Lower(listed)
    requires LookupOrEmpty(headers, listed) == v && LookupOrEmpty(headers, Lower(listed)) == v
    requires Php.TrimPhp(v) == v && Go.TrimGo(v) == v
    ensures Php.Entry(listed, headers) == Go.Entry(listed, headers)
  {
    assert Go.GetHeader(headers, listed) == v;
  }

  /** When the list holds only token names and every listed value is free of surrounding
      whitespace, PHP and Go sign the same canonical string for the same method, path
      string and body. The servers derive that string differently: PHP passes REQUEST_URI,
      query string included, and Go the decoded URL.Path. */
  lemma PhpGoSameCanonical(verb: string, path: string, signedHeaders: string, headers: seq<Header>, body: string)
    requires Get(headers, "X-Contentful-Signed-Headers") == Some(signedHeaders)
    requires IsTokenList(signedHeaders)
    requires forall i :: 0 <= i < |Split(signedHeaders, ',')| ==>
               IsBare(LookupOrEmpty(headers, Split(signedHeaders, ',')[i]))
    ensures Php.BuildCanonicalString(verb, path, headers, Php.SignedHeaders(headers), body)
            == Go.BuildCanonicalString(verb, path, signedHeaders, headers, body)
  {
    var names := Split(signedHeaders, ',');
    assert Php.SignedHeaders(headers) == names;
    PhpGoSameEntries(names, headers);
  }

  /** Over a list of token names with bare values, PHP and Go write the same entries. */
  lemma PhpGoSameEntries(names: seq<string>, headers: seq<Header>)
    requires forall i :: 0 <= i < |names| ==> Go.IsToken(names[i])
    requires forall i :: 0 <= i < |names| ==> IsBare(LookupOrEmpty(headers, names[i]))
    ensures Map((h: string) => Php.Entry(h, headers), names) == Map((h: string) => Go.Entry(h, headers), names)
  {
    var php := Map((h: string) => Php.Entry(h, headers), names);
    var go := Map((h: string) => Go.Entry(h, headers), names);
    forall i | 0 <= i < |names|
      ensures php[i] == go[i]
    {
      PhpGoSameEntry(names[i], headers);
    }
  }

  /** A name listed twice: Java's insertion-ordered map keeps one entry for it, Python's
      list comprehension keeps both. */
  lemma RepeatedNameDivergence(name: string, normalized: map<string, string>, headers: map<string, string>)
    requires Java.NormKey(name) == name && name in normalized
    requires Python.IsListedPresent(name, headers)
    ensures |Java.PickSigned([name, name], normalized)| == 1
    ensures |Filter((h: string) => Python.IsListedPresent(h, headers), [name, name])| == 2
  {
    JavaRepeatedName(name, normalized);
    PythonRepeatedName(name, headers);
  }

  lemma JavaRepeatedName(name: string, normalized: map<string, string>)
    requires Java.NormKey(name) == name && name in normalized
    ensures |Java.PickSigned([name, name], normalized)| == 1
  {
    var twice := [name, name];
    assert twice[..1] == [name] && [name][..0] == [];
    assert Java.PresentKeys([name], normalized) == [name];
    assert Java.PresentKeys(twice, normalized) == twice;
    assert Java.Dedup([name]) == [name];
    assert Java.Dedup(twice) == [name];
    Java.PickSignedSpec(twice, normalized);
  }

  lemma PythonRepeatedName(name: string, headers: map<string, string>)
    requires Python.IsListedPresent(name, headers)
    ensures |Filter((h: string) => Python.IsListedPresent(h, headers), [name, name])| == 2
  {
    FilterAll((h: string) => Python.IsListedPresent(h, headers), [name, name]);
  }
}
