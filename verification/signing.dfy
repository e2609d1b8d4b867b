/** The pieces every verifier shares: the canonical string's shape, the HMAC-SHA256 tag
    (RFC 2104 over the SHA-256 of FIPS 180-4) as an uninterpreted 32-byte function, its
    lower-case base16 rendering, and the HTTP outcomes the handlers answer with. */
module Signing {
  import opened Wrappers
  import opened Text
  import opened Hex

  /** The length in bytes of an HMAC-SHA256 tag. */
  const DigestLength: nat := 32

  type Digest = d: seq<byte> | |d| == DigestLength witness seq(32, _ => 0)

  /** HMAC-SHA256 keyed with the UTF-8 bytes of the first argument over the UTF-8 bytes of
      the second. Its internals are not modelled: every verifier is given it. */
  type Mac = (string, string) -> Digest

  /** The generated signature: the tag as lower-case hex. It is 64 characters long and
      decodes back to the tag. */
  function Signature(mac: Mac, secret: string, message: string): (r: string)
    ensures |r| == 2 * DigestLength
    ensures IsLowerHex(r)
    ensures FromHex(r) == Some(mac(secret, message))
  {
    FromHexToHex(mac(secret, message));
    ToHex(mac(secret, message))
  }

  /** A claim equals the generated signature exactly when it decodes to the tag. */
  lemma SignatureMatchesTag(mac: Mac, secret: string, message: string, claim: string)
    ensures claim == Signature(mac, secret, message) <==> FromHex(claim) == Some(mac(secret, message))
  {
    if FromHex(claim) == Some(mac(secret, message)) {
      ToHexFromHex(claim);
    }
  }

  /** A claim of any length other than 64 never equals the generated signature. */
  lemma WrongLengthNeverMatches(mac: Mac, secret: string, message: string, claim: string)
    requires |claim| != 2 * DigestLength
    ensures claim != Signature(mac, secret, message)
  {
  }

  // ---------------------------------------------------------------------------------------
  // The canonical string
  // ---------------------------------------------------------------------------------------

  /** METHOD, newline, PATH, newline, header block, newline, BODY. */
  function Canonical(verb: string, path: string, block: string, body: string): string {
    verb + "\n" + path + "\n" + block + "\n" + body
  }

  /** The method and path come first, each followed by a newline; the body comes last,
      preceded by a newline. */
  lemma CanonicalFrame(verb: string, path: string, block: string, body: string)
    ensures var c := Canonical(verb, path, block, body);
            && |c| == |verb| + |path| + |block| + |body| + 3
            && c[..|verb| + |path| + 2] == verb + "\n" + path + "\n"
            && c[|c| - |body| - 1..] == "\n" + body
  {
  }

  datatype Fields = Fields(verb: string, path: string, block: string, body: string)

  /** Reads a canonical string back: everything before the first newline, between the first
      and second, between the second and third, and the rest. */
  function ParseCanonical(c: string): Option<Fields> {
    var parts := Split(c, '\n');
    if |parts| < 4 then None
    else Some(Fields(parts[0], parts[1], parts[2], Join(parts[3..], '\n')))
  }

  /** The three structural newlines make the shape unambiguous: when method, path and
      header block contain no newline, the canonical string determines all four parts,
      whatever the body holds. */
  lemma ParseCanonicalRoundTrip(verb: string, path: string, block: string, body: string)
    requires '\n' !in verb && '\n' !in path && '\n' !in block
    ensures ParseCanonical(Canonical(verb, path, block, body)) == Some(Fields(verb, path, block, body))
  {
    var t2 := block + "\n" + body;
    var t1 := path + "\n" + t2;
    assert Canonical(verb, path, block, body) == verb + ['\n'] + t1;
    assert t1 == path + ['\n'] + t2;
    assert t2 == block + ['\n'] + body;
    SplitAfterPiece(verb, '\n', t1);
    SplitAfterPiece(path, '\n', t2);
    SplitAfterPiece(block, '\n', body);
    var parts := Split(Canonical(verb, path, block, body), '\n');
    assert parts == [verb, path, block] + Split(body, '\n');
    assert parts[3..] == Split(body, '\n');
    JoinSplit(body, '\n');
  }

  lemma CanonicalInjective(v1: string, p1: string, b1: string, d1: string,
                           v2: string, p2: string, b2: string, d2: string)
    requires '\n' !in v1 && '\n' !in p1 && '\n' !in b1
    requires '\n' !in v2 && '\n' !in p2 && '\n' !in b2
    requires Canonical(v1, p1, b1, d1) == Canonical(v2, p2, b2, d2)
    ensures v1 == v2 && p1 == p2 && b1 == b2 && d1 == d2
  {
    ParseCanonicalRoundTrip(v1, p1, b1, d1);
    ParseCanonicalRoundTrip(v2, p2, b2, d2);
  }

  /** The header block: the entries joined by `;`. */
  function Block(entries: seq<string>): string {
    Join(entries, ';')
  }

  /** Extending the entry list by one adds a `;` before the new entry, unless it is the
      first. */
  lemma BlockStep(entries: seq<string>, i: nat)
    requires i < |entries|
    ensures Block(entries[..i + 1]) == Block(entries[..i]) + (if i > 0 then ";" else "") + entries[i]
  {
    assert entries[..i + 1] == entries[..i] + [entries[i]];
    if i > 0 {
      JoinSnoc(entries[..i], entries[i], ';');
    }
  }

  /** What a builder that appends `;` after every entry but the last has written after
      the first `i` of `n` entries, beyond the block so far. */
  function PendingSeparator(i: nat, n: nat): string {
    if 0 < i < n then ";" else ""
  }

  /** One step of such a builder keeps its text equal to the frame, the block of the
      entries so far and the pending separator. */
  lemma BuilderStep(frame: string, entries: seq<string>, i: nat, s: string)
    requires i < |entries|
    requires s == frame + Block(entries[..i]) + PendingSeparator(i, |entries|)
    ensures s + entries[i] + PendingSeparator(i + 1, |entries|)
              == frame + Block(entries[..i + 1]) + PendingSeparator(i + 1, |entries|)
  {
    BlockStep(entries, i);
  }

  /** The block gives back its entries when there is at least one and none contains `;`. */
  lemma BlockEntries(entries: seq<string>)
    requires |entries| >= 1
    requires forall i :: 0 <= i < |entries| ==> ';' !in entries[i]
    ensures Split(Block(entries), ';') == entries
  {
    SplitJoin(entries, ';');
  }

  // ---------------------------------------------------------------------------------------
  // Outcomes
  // ---------------------------------------------------------------------------------------

  /** The HTTP outcome of a handler. `Unhandled` is an exception or panic that escapes the
      handler and is answered by the framework; `NoResponse` is a script that writes
      nothing, which the server answers with an empty default response. */
  datatype Response = Ok200 | BadRequest400 | Unauthorized401 | Forbidden403 | ServerError500 | Unhandled | NoResponse
}
