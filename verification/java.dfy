/** java/src/main/java/com/example/demo/RequestVerifier.java: normalises the header map,
    keeps the listed headers that are present (each once, in first-listed order), signs with
    the request's own method and path, and compares exactly. Every exception inside is
    caught and turned into `false`. */
module Java {
  import opened Wrappers
  import opened Text
  import opened Hex
  import opened Headers
  import opened LinkedMaps
  import opened Signing

  /** String.trim followed by toLowerCase: the key normalisation. */
  function NormKey(k: string): string {
    Lower(Trim(k, IsJavaTrimmable))
  }

  function TrimJava(s: string): string {
    Trim(s, IsJavaTrimmable)
  }

  // ---------------------------------------------------------------------------------------
  // normalizeHeaders
  // ---------------------------------------------------------------------------------------

  /** Every raw header stored under its normalised key with its trimmed value; the raw map's
      iteration order is the order of `raw`, and a later header overwrites an earlier one
      that normalises to the same key. */
  function NormalizeHeaders(raw: seq<Header>): map<string, string> {
    LastWins(raw, NormKey, TrimJava)
  }

  /** A normalised key is lower-case and trimmed. */
  lemma NormKeyShape(k: string)
    ensures IsLowerCase(NormKey(k)) && TrimJava(NormKey(k)) == NormKey(k)
  {
    LowerIsLowerCase(TrimJava(k));
    SpaceSetsAreLow();
    LowerTrimCommute(TrimJava(k), IsJavaTrimmable);
    TrimIdempotent(k, IsJavaTrimmable);
  }

  /** The normalised map has exactly the normalised raw keys; keys come out lower-case and
      trimmed, and each value is the trimmed value of the last raw header with that key. */
  lemma NormalizeHeadersSpec(raw: seq<Header>)
    ensures forall k :: k in NormalizeHeaders(raw) <==> exists i :: 0 <= i < |raw| && NormKey(raw[i].name) == k
    ensures forall k :: k in NormalizeHeaders(raw) ==> IsLowerCase(k) && TrimJava(k) == k
    ensures forall k :: k in NormalizeHeaders(raw) ==>
              exists i :: IsLastWithKey(raw, NormKey, k, i) && NormalizeHeaders(raw)[k] == TrimJava(raw[i].value)
  {
    LastWinsKeys(raw, NormKey, TrimJava);
    LastWinsValues(raw, NormKey, TrimJava);
    forall k | k in NormalizeHeaders(raw)
      ensures IsLowerCase(k) && TrimJava(k) == k
    {
      var i :| 0 <= i < |raw| && NormKey(raw[i].name) == k;
      NormKeyShape(raw[i].name);
    }
  }

  // ---------------------------------------------------------------------------------------
  // String.split(",")
  // ---------------------------------------------------------------------------------------

  /** Java's String.split with a one-character pattern: the pieces, with every empty piece
      at the end removed; the empty string, which the pattern does not match, gives itself. */
  function SplitComma(s: string): seq<string> {
    if s == "" then [""] else DropTrailingEmpty(Split(s, ','))
  }

  /** The pieces are a prefix of the full split and only empty pieces are cut: the input is
      the join of the pieces followed by nothing but commas. */
  lemma SplitCommaSpec(s: string)
    requires s != ""
    ensures var r := SplitComma(s);
            && r == Split(s, ',')[..|r|]
            && (|r| == 0 || r[|r| - 1] != "")
            && forall i :: |r| <= i < |Split(s, ',')| ==> Split(s, ',')[i] == ""
  {
  }

  // ---------------------------------------------------------------------------------------
  // Picking the signed headers into a LinkedHashMap
  // ---------------------------------------------------------------------------------------

  /** The loop over the split list: every listed name, trimmed and lower-cased, that is a
      key of the normalised map is put into an insertion-ordered map with its value. */
  function PickSigned(names: seq<string>, normalized: map<string, string>): Entries
    decreases |names|
  {
    if |names| == 0 then []
    else
      var picked := PickSigned(names[..|names| - 1], normalized);
      var key := NormKey(names[|names| - 1]);
      if key in normalized then Put(picked, key, normalized[key]) else picked
  }

  /** The normalised listed names that are keys of the map, in list order, repeats kept. */
  function PresentKeys(names: seq<string>, normalized: map<string, string>): (ks: seq<string>)
    ensures forall i :: 0 <= i < |ks| ==> ks[i] in normalized
    decreases |names|
  {
    if |names| == 0 then []
    else
      var ks := PresentKeys(names[..|names| - 1], normalized);
      var key := NormKey(names[|names| - 1]);
      if key in normalized then ks + [key] else ks
  }

  /** The picked entries are the present keys with repeats removed, each at the position of
      its first occurrence, each carrying its value from the normalised map. */
  lemma {:induction false} PickSignedSpec(names: seq<string>, normalized: map<string, string>)
    ensures Keys(PickSigned(names, normalized)) == Dedup(PresentKeys(names, normalized))
    ensures forall k :: k in normalized ==>
              Get(PickSigned(names, normalized), k)
                == (if k in PresentKeys(names, normalized) then Some(normalized[k]) else None)
    decreases |names|
  {
    if |names| > 0 {
      var p := names[..|names| - 1];
      PickSignedSpec(p, normalized);
      var key := NormKey(names[|names| - 1]);
      var ks := PresentKeys(p, normalized);
      if key in normalized {
        assert (ks + [key])[..|ks|] == ks;
        forall k | k in normalized
          ensures Get(PickSigned(names, normalized), k)
                    == (if k in PresentKeys(names, normalized) then Some(normalized[k]) else None)
        {
          GetPut(PickSigned(p, normalized), key, normalized[key], k);
        }
      }
    }
  }

  /** The first index at which `x` occurs. */
  function FirstIndex(s: seq<string>, x: string): (k: nat)
    requires x in s
    ensures k < |s| && s[k] == x && x !in s[..k]
    decreases |s|
  {
    if s[0] == x then 0
    else
      var k := FirstIndex(s[1..], x);
      assert s[..k + 1] == [s[0]] + s[1..][..k];
      k + 1
  }

  lemma FirstIndexUnique(s: seq<string>, x: string, k: nat)
    requires k < |s| && s[k] == x && x !in s[..k]
    ensures FirstIndex(s, x) == k
  {
  }

  /** The elements of `s` without repeats, each kept where it first occurs. */
  function Dedup(s: seq<string>): seq<string>
    decreases |s|
  {
    if |s| == 0 then []
    else
      var d := Dedup(s[..|s| - 1]);
      if s[|s| - 1] in s[..|s| - 1] then d else d + [s[|s| - 1]]
  }

  /** Dedup keeps every element exactly once, ordered by first occurrence. */
  lemma {:induction false} DedupSpec(s: seq<string>)
    ensures forall x :: x in Dedup(s) <==> x in s
    ensures forall i, j :: 0 <= i < j < |Dedup(s)| ==> Dedup(s)[i] != Dedup(s)[j]
    ensures forall i, j :: 0 <= i < j < |Dedup(s)| ==> FirstIndex(s, Dedup(s)[i]) < FirstIndex(s, Dedup(s)[j])
    decreases |s|
  {
    if |s| > 0 {
      var p := s[..|s| - 1];
      var x := s[|s| - 1];
      DedupSpec(p);
      var d := Dedup(p);
      assert s == p + [x];
      forall y | y in p
        ensures FirstIndex(s, y) == FirstIndex(p, y)
      {
        var k := FirstIndex(p, y);
        assert s[..k] == p[..k];
        FirstIndexUnique(s, y, k);
      }
      if x !in p {
        FirstIndexUnique(s, x, |p|);
        forall i, j | 0 <= i < j < |Dedup(s)|
          ensures FirstIndex(s, Dedup(s)[i]) < FirstIndex(s, Dedup(s)[j])
        {
          assert Dedup(s) == d + [x];
          if j < |d| {
            assert Dedup(s)[i] == d[i] && Dedup(s)[j] == d[j];
          } else {
            assert Dedup(s)[i] == d[i] && d[i] in p;
          }
        }
      }
    }
  }

  // ---------------------------------------------------------------------------------------
  // The canonical string and the signature
  // ---------------------------------------------------------------------------------------

  /** The request as RequestVerifier sees it; the body is null when the request had none. */
  datatype CanonicalRequest = CanonicalRequest(verb: string, path: string, headers: seq<Header>, body: Option<string>)

  /** headersToString: `key:value` for every entry in map order, joined by `;`. */
  function HeadersToString(headers: seq<Header>): string {
    Block(Map((h: Header) => h.name + ":" + h.value, headers))
  }

  /** StringBuilder.append of a null String appends "null". */
  function BodyText(body: Option<string>): string {
    body.GetOr("null")
  }

  function BuildCanonicalString(request: CanonicalRequest): string {
    Canonical(request.verb, request.path, HeadersToString(request.headers), BodyText(request.body))
  }

  type JavaByte = b: int | -128 <= b < 128

  /** The signed byte Mac.doFinal returns for an unsigned tag byte. */
  function ToJavaByte(b: byte): JavaByte {
    if b < 128 then b else b - 256
  }

  /** `0xff & b`: the signed byte's unsigned value (the remainder here is never negative). */
  function Unsigned(b: JavaByte): byte {
    b % 256
  }

  lemma UnsignedOfJavaByte(b: byte)
    ensures Unsigned(ToJavaByte(b)) == b
  {
  }

  /** One iteration of bytesToHex: Integer.toHexString of the unsigned value, with a `0`
      in front when that has a single digit. */
  function ByteToHex(b: JavaByte): string {
    var hex := MinimalHex(Unsigned(b));
    (if |hex| == 1 then "0" else "") + hex
  }

  /** Each byte becomes exactly its two-digit lower-case encoding. */
  lemma ByteToHexIsTwoDigits(b: JavaByte)
    ensures ByteToHex(b) == ByteHex(Unsigned(b))
  {
    MinimalHexLength(Unsigned(b), 2);
    PaddedByteIsByteHex(Unsigned(b));
  }

  /** bytesToHex: the output is the lower-case hex encoding of the unsigned bytes, twice as
      long as the input. */
  method BytesToHex(bytes: seq<JavaByte>) returns (hexString: string)
    ensures hexString == ToHex(Map(Unsigned, bytes))
    ensures |hexString| == 2 * |bytes|
  {
    hexString := "";
    var i := 0;
    while i < |bytes|
      invariant 0 <= i <= |bytes|
      invariant hexString == ToHex(Map(Unsigned, bytes[..i]))
    {
      ByteToHexIsTwoDigits(bytes[i]);
      assert Map(Unsigned, bytes[..i + 1]) == Map(Unsigned, bytes[..i]) + [Unsigned(bytes[i])];
      ToHexSnoc(Map(Unsigned, bytes[..i]), Unsigned(bytes[i]));
      hexString := hexString + ByteToHex(bytes[i]);
      i := i + 1;
    }
    assert bytes[..|bytes|] == bytes;
  }

  /** signRequest: the signature of the canonical string, or an exception (None) when the
      secret is null (`secret.getBytes`) or empty (SecretKeySpec rejects a key of no bytes,
      and a string's UTF-8 encoding is empty exactly when the string is). */
  method SignRequest(secret: Option<string>, request: CanonicalRequest, mac: Mac)
    returns (r: Option<string>)
    ensures (secret.None? || secret == Some("")) <==> r.None?
    ensures secret.Some? && secret.value != "" ==> r == Some(Signature(mac, secret.value, BuildCanonicalString(request)))
  {
    if secret.None? || secret.value == "" {
      return None;
    }
    var canonicalString := BuildCanonicalString(request);
    var tag := mac(secret.value, canonicalString);
    var hashBytes := Map(ToJavaByte, tag);
    var hex := BytesToHex(hashBytes);
    assert Map(Unsigned, hashBytes) == tag by {
      forall i | 0 <= i < |tag| ensures Map(Unsigned, hashBytes)[i] == tag[i] {
        UnsignedOfJavaByte(tag[i]);
      }
    }
    return Some(hex);
  }

  // ---------------------------------------------------------------------------------------
  // verifyRequest
  // ---------------------------------------------------------------------------------------

  /** When verifyRequest answers true: a non-empty secret, both headers present after normalisation,
      and the normalised signature equal to the signature of the request rebuilt with only
      the picked signed headers. It has no time-to-live input. */
  predicate Verified(secret: Option<string>, request: CanonicalRequest, mac: Mac) {
    var normalized := NormalizeHeaders(request.headers);
    && secret.Some?
    && secret.value != ""
    && "x-contentful-signed-headers" in normalized
    && "x-contentful-signature" in normalized
    && var picked := PickSigned(SplitComma(normalized["x-contentful-signed-headers"]), normalized);
       normalized["x-contentful-signature"]
         == Signature(mac, secret.value, BuildCanonicalString(CanonicalRequest(request.verb, request.path, picked, request.body)))
  }

  /** verifyRequest: a missing signed-headers header (the null split), a missing or empty
      secret and a missing signature all end in false rather than an exception; the answer
      never depends on `timeToLive`. */
  method VerifyRequest(secret: Option<string>, canonicalRequest: CanonicalRequest, timeToLive: int, mac: Mac)
    returns (r: bool)
    ensures r <==> Verified(secret, canonicalRequest, mac)
    ensures "x-contentful-signed-headers" !in NormalizeHeaders(canonicalRequest.headers) ==> !r
    ensures "x-contentful-signature" !in NormalizeHeaders(canonicalRequest.headers) ==> !r
    ensures secret.None? ==> !r
    ensures secret == Some("") ==> !r
  {
    var normalizedHeaders := NormalizeHeaders(canonicalRequest.headers);
    if "x-contentful-signed-headers" !in normalizedHeaders {
      return false;
    }
    var signedHeadersArray := SplitComma(normalizedHeaders["x-contentful-signed-headers"]);
    var signedHeadersMap := PickSigned(signedHeadersArray, normalizedHeaders);
    var requestToValidate := CanonicalRequest(canonicalRequest.verb, canonicalRequest.path,
                                              signedHeadersMap, canonicalRequest.body);
    var generatedSignature := SignRequest(secret, requestToValidate, mac);
    if generatedSignature.None? {
      return false;
    }
    r := "x-contentful-signature" in normalizedHeaders
         && generatedSignature.value == normalizedHeaders["x-contentful-signature"];
  }
}
