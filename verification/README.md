# Contentful webhook request verification, modelled in Dafny

Contentful signs each webhook delivery. It sends an HMAC-SHA256 tag of a canonical string in
`X-Contentful-Signature` and the names of the signed headers in
`X-Contentful-Signed-Headers`. The canonical string is

    METHOD \n PATH \n name:value;name:value;... \n BODY

The repository holds nine receivers for such deliveries: C#, Java, Kotlin, Rust, C++, PHP,
Python, Ruby and Go. Each rebuilds the canonical string, computes the tag with the shared
secret, renders it in lower-case hex and compares it with the claim. They all follow that
outline, but they differ in the details:

- how the name list is split;
- which side of an entry is trimmed or lower-cased;
- whether an absent header gives `name:`, `name:None` or no entry;
- whether method and path are fixed;
- how the comparison treats case and length;
- which HTTP status each failure gets.

This project models each receiver's verification logic as pure Dafny over `seq<char>`,
following each source file branch by branch. The shared vocabulary lives in its own modules:

- `Text`: ASCII case mapping; trimming with each language's whitespace set; splitting, joining and filtering.
- `Hex`: the lower-case base16 encoding of section 8 of RFC 4648, its decoder, and the number-based renderings.
- `Headers`: requests; first-match case-insensitive lookup, since field names are case-insensitive by section 5.1 of RFC 9110; dictionaries built last-wins.
- `LinkedMaps`: Java's `LinkedHashMap` and PHP's ordered arrays.
- `Signing`: the canonical string, the tag as an uninterpreted 32-byte function `Mac`, the signature and the response codes.

There is one module per receiver (`CSharp`, `Java`, `Kotlin`, `Rust`, `Cpp`, `Php`,
`Python`, `Ruby`, `Go`). `Agreement` proves where two receivers coincide and exhibits
inputs on which they part ways.

HMAC-SHA256 (RFC 2104 over the SHA-256 of FIPS 180-4) is a parameter `mac: Mac`. Every
receiver's verdict is characterised by the same fact: the claim decodes to the tag over
that receiver's canonical string (`FromHex(claim) == Some(mac(secret, canonical))`). C#
applies that fact to the lower-cased claim.

The model follows the code where it departs from the protocol as Contentful describes it:

- C# trims the body before signing (csharp/WebhookController.cs:37).
- C# compares the claim ignoring case (csharp/WebhookController.cs:66).
- C++ uses the listed names verbatim, without trimming or lower-casing.
- Java and Python drop listed headers that are absent rather than signing `name:`.
- Python renders a value fetched under a mixed-case name as `None`.
- Only C# rejects an empty name list (csharp/WebhookController.cs:44). C++ and Ruby split it into no names and sign an empty block. Java and Python split it into one empty name and drop it unless a field with an empty name is present. Go, Kotlin, PHP and Rust split it into one empty name and sign its entry: `:` followed by the value of a field with an empty name, if any (Go always reads that value as empty: the empty name is not an HTTP token, and Go stores no field without a name).
- Go and PHP never fail closed on a missing secret. They sign with the empty key.
- Kotlin and Rust do not fail closed either: a missing secret escapes as an exception or panic. In Kotlin an empty secret escapes too, because `SecretKeySpec` rejects a key of no bytes.
- Java answers a missing or empty secret with `false`: the `SecretKeySpec` exception is caught by `verifyRequest`.
- Rust answers a missing signature with 400.
- C# answers every failed verification with 401 and a missing secret with 500, and Rust answers a signature mismatch with 401. The others answer a failed verification with 403.

## Model

| member | source | states |
|---|---|---|
| Text.TrimInfix | csharp/WebhookController.cs:87-88 | A trim is the infix of the input after its leading whitespace run, followed only by whitespace; neither end of it is whitespace |
| Text.TrimIdempotent | java/src/main/java/com/example/demo/RequestVerifier.java:86 | Trimming a trimmed string changes nothing |
| Text.LowerTrimCommute | python/app.py:38 | For every language's whitespace set, lower-casing then stripping equals stripping then lower-casing |
| Text.LowerIsLowerCase | go/main.go:43 | Lower-casing yields a lower-case string, is idempotent and leaves lower-case strings alone |
| Text.JoinSplit | go/main.go:39 | Joining the pieces of a split with the same separator rebuilds the input |
| Text.SplitJoin | go/main.go:48 | Splitting a join gives back the pieces when there is one or more and none holds the separator |
| Text.JoinSnoc | csharp/WebhookController.cs:91-95 | Appending a piece adds exactly one separator before it, never a trailing one |
| Text.DropTrailingEmpty | ruby/app.rb:16 | The pieces are a prefix of the full split ending in a non-empty piece, and only empty pieces are cut |
| Text.Filter | python/app.py:38 | The kept elements all satisfy the test and come from the input, and every satisfying input element is kept |
| Text.FilterCounts | python/app.py:38 | An element failing the test is dropped every time; one passing it is kept exactly as often as it occurs in the input |
| Text.FilterAppend | python/app.py:38 | The comprehension keeps input order: filtering a concatenation concatenates the filtered parts |
| Text.FilterAll | python/app.py:38 | When every element passes, the filter keeps the whole sequence |
| Hex.FromHexToHex | go/main.go:53-57 | Decoding the lower-case hex of any byte string gives the bytes back |
| Hex.ToHexFromHex | go/main.go:34 | Every string that decodes is the hex of its decoding, so comparing with a hex string is comparing decodings |
| Hex.ToHexInjective | go/main.go:56 | Distinct byte strings have distinct hex encodings |
| Hex.ToHexIsFixedHex | kotlin/src/main/kotlin/org/example/Application.kt:76 | The byte-wise encoding is the 2n-digit base-16 numeral of the big-endian value |
| Hex.PadMinimalIsFixed | kotlin/src/main/kotlin/org/example/Application.kt:76 | Zero-padding the shortest numeral to k digits gives the k-digit numeral whenever the value fits |
| Hex.PaddedValueIsToHex | kotlin/src/main/kotlin/org/example/Application.kt:76 | BigInteger(1, bytes).toString(16) padded to twice the length is the byte-wise hex |
| Hex.PaddedByteIsByteHex | cplusplus/main.cpp:24 | A byte's shortest numeral zero-filled to width 2 is its two-digit encoding |
| Hex.MinimalHexLength | java/src/main/java/com/example/demo/RequestVerifier.java:94-97 | A value below 16^k has a shortest numeral of at most k digits, so one byte needs at most one padding zero |
| Headers.LookupFindsFirst | csharp/WebhookController.cs:41-42 | The lookup finds a value exactly when some field has the name up to case, and then it is the first such field's |
| Headers.LookupIgnoresCase | go/main.go:44 | Names equal up to case find the same field |
| Headers.LastWinsKeys | rust/src/main.rs:15-18 | The dictionary's keys are exactly the keys of the fields |
| Headers.LastWinsValues | rust/src/main.rs:15-18 | Under each key sits the value of the last field with that key |
| Headers.LastWinsReadBack | python/app.py:57 | With distinct keys every field is read back under its key |
| Headers.LastWinsLowerKeys | rust/src/main.rs:17 | A dictionary keyed by lower-cased names has only lower-case keys |
| LinkedMaps.Put | java/src/main/java/com/example/demo/RequestVerifier.java:31 | put keeps an existing key in place and appends a new one |
| LinkedMaps.GetPut | java/src/main/java/com/example/demo/RequestVerifier.java:31 | After put, the key reads as the stored value and every other key as before |
| LinkedMaps.PutKeepsDistinct | java/src/main/java/com/example/demo/RequestVerifier.java:27-33 | put never creates a duplicate key |
| LinkedMaps.GetPutAll | php/index.php:8-12 | After a series of stores each key reads as the last stored value, and others as before |
| LinkedMaps.PutAllKeepsDistinct | php/index.php:8-12 | A series of stores never creates a duplicate key |
| Signing.Signature | go/main.go:53-57 | The generated signature is 64 lower-case hex characters and decodes to the tag |
| Signing.SignatureMatchesTag | go/main.go:34 | A claim equals the generated signature exactly when it decodes to the tag |
| Signing.WrongLengthNeverMatches | kotlin/src/main/kotlin/org/example/Application.kt:38 | A claim of length other than 64, the empty default included, never matches |
| Signing.CanonicalFrame | java/src/main/java/com/example/demo/RequestVerifier.java:68-75 | The canonical string is method and path each followed by a newline, the block, a newline and the body |
| Signing.ParseCanonicalRoundTrip | go/main.go:49 | Method, path and block free of newlines are read back from the canonical string, whatever the body holds |
| Signing.CanonicalInjective | go/main.go:49 | Two canonical strings of newline-free method, path and block are equal only if all four parts are |
| Signing.BlockStep | cplusplus/main.cpp:61-65 | Each further entry adds one `;` before it, the first none |
| Signing.BuilderStep | csharp/WebhookController.cs:89-95 | Appending an entry and then `;` unless it is the last keeps the builder equal to the block so far plus the pending separator |
| Signing.BlockEntries | go/main.go:48 | The block gives back its entries when there is one or more and none holds `;` |
| CSharp.BuildCanonicalString | csharp/WebhookController.cs:76-102 | The builder writes "POST", "/", the `;`-join of one entry per `,`-piece, and the body |
| CSharp.AppendEntries | csharp/WebhookController.cs:85-96 | The loop that appends `;` only between entries appends exactly the `;`-join of the entries |
| CSharp.CanonicalFrameFixed | csharp/WebhookController.cs:79-80 | The canonical string starts with "POST\n/\n" whatever the request's method and path, and ends with a newline and the body |
| CSharp.CanonicalReadsBack | csharp/WebhookController.cs:76-102 | A newline-free block reads back as POST, /, the block and the body |
| CSharp.BlockShape | csharp/WebhookController.cs:82-89 | One entry per `,`-piece, empty pieces included: the lower-cased trimmed name and the trimmed first value or nothing |
| CSharp.DashlessLowerIsHex | csharp/WebhookController.cs:109 | BitConverter's dashed upper-case rendering, dashes removed and lower-cased, is the lower-case hex |
| CSharp.CalculateHmacSha256 | csharp/WebhookController.cs:104-111 | The result is the generated signature, 64 characters |
| CSharp.VerifyWebhook | csharp/WebhookController.cs:25-31 | An empty or unset secret is answered 500 before anything else; the outcomes are 200, 401 and 500 |
| CSharp.MissingCredentialsRejected | csharp/WebhookController.cs:41-48 | An empty or absent signature or signed-headers header is 401 whatever the HMAC, so none is computed |
| CSharp.AcceptsExactlyCaseVariants | csharp/WebhookController.cs:61-73 | Accepted exactly when the lower-cased claim is the signature over the trimmed body, that is when it decodes to the tag |
| Java.NormKeyShape | java/src/main/java/com/example/demo/RequestVerifier.java:86 | A normalised key is lower-case and trimmed |
| Java.NormalizeHeadersSpec | java/src/main/java/com/example/demo/RequestVerifier.java:83-89 | Keys are exactly the normalised raw keys; each value is the trimmed value of the last raw header with that key |
| Java.SplitCommaSpec | java/src/main/java/com/example/demo/RequestVerifier.java:24 | String.split keeps a prefix of the pieces that ends non-empty and cuts only empty pieces |
| Java.PickSignedSpec | java/src/main/java/com/example/demo/RequestVerifier.java:27-33 | The picked keys are the present listed keys without repeats; present keys read their value and absent ones nothing |
| Java.DedupSpec | java/src/main/java/com/example/demo/RequestVerifier.java:27-33 | Without repeats every listed key is kept once, ordered by first occurrence |
| Java.ByteToHexIsTwoDigits | java/src/main/java/com/example/demo/RequestVerifier.java:94-98 | The zero-prefixed Integer.toHexString of `0xff & b` is the byte's two-digit encoding |
| Java.BytesToHex | java/src/main/java/com/example/demo/RequestVerifier.java:91-101 | bytesToHex is the lower-case hex of the unsigned bytes, twice as long as the input |
| Java.SignRequest | java/src/main/java/com/example/demo/RequestVerifier.java:53-66 | A null or empty secret is an exception (SecretKeySpec rejects an empty key); otherwise the result is the signature of the canonical string |
| Java.VerifyRequest | java/src/main/java/com/example/demo/RequestVerifier.java:17-51 | true exactly when a non-empty secret and both headers exist and the signature matches the rebuilt request; a missing header or a null or empty secret gives false, never an exception; timeToLive is ignored |
| Kotlin.CalculateSignature | kotlin/src/main/kotlin/org/example/Application.kt:69-79 | For a non-empty secret (an empty one makes SecretKeySpec throw), the padded BigInteger rendering is the generated signature |
| Kotlin.VerifyRequest | kotlin/src/main/kotlin/org/example/Application.kt:54-60 | For a non-empty secret, true exactly when the incoming signature decodes to the tag over the canonical string |
| Kotlin.Handle | kotlin/src/main/kotlin/org/example/Application.kt:32-49 | A missing or empty secret escapes as an exception; otherwise 200 exactly when the signature header exists and decodes to the tag, else 403 |
| Kotlin.NoSignedHeadersEmptyBlock | kotlin/src/main/kotlin/org/example/Application.kt:39 | Without the signed-headers header the canonical string is method, path, an empty line and the body |
| Kotlin.EmptySignedHeadersBlock | kotlin/src/main/kotlin/org/example/Application.kt:63-66 | An empty signed-headers value lists one empty name, so the block is `:` and the empty-named header's value |
| Rust.ToStrOrEmpty | rust/src/main.rs:17 | A value is kept exactly when it is all visible ASCII, otherwise it is empty |
| Rust.UpperCaseNameReadsEmpty | rust/src/main.rs:59-62 | A listed name with an upper-case letter always reads as an empty value |
| Rust.VerifyRequest | rust/src/main.rs:13-50 | A missing signature is 400 before the secret is read; a missing secret panics; 200 exactly when the signature decodes to the tag |
| Cpp.TokenizeSpec | cplusplus/main.cpp:51-57 | The getline pieces are none for "" and otherwise rebuild the input with the trailing comma that an empty last piece stood for |
| Cpp.TrailingCommaAddsNothing | cplusplus/main.cpp:57 | A trailing comma adds no name |
| Cpp.BuildHeadersString | cplusplus/main.cpp:55-68 | The loop with its first-header flag builds the `;`-join of the verbatim entries |
| Cpp.ComputeSignature | cplusplus/main.cpp:13-28 | The setw/setfill loop yields the generated signature |
| Cpp.VerifyRequestHandler | cplusplus/main.cpp:31-90 | An unset secret is 500; otherwise 200 exactly when the header decodes to the tag, else 403 |
| Php.ConvertNameSpec | php/index.php:10 | HTTP_X_FOO becomes X-Foo: `_` turns into `-`, each word starts upper-case and continues lower-case |
| Php.FetchAllHeadersSpec | php/index.php:6-20 | Names are distinct; Content-Type comes from CONTENT_TYPE when set; every other name reads as its last HTTP_ variable |
| Php.VerifyRequest | php/index.php:23-39 | true exactly when both headers are set and the signature decodes to the tag under the secret or the empty key |
| Php.EmptySignedHeadersBlock | php/index.php:25 | A set but empty signed-headers value lists one empty name and signs the block `:` |
| Php.Handle | php/index.php:69-83 | A non-POST gets no output; a POST is 200 exactly when verifyRequest holds, else 403 |
| Python.CompareDigest | python/app.py:29 | compare_digest raises for None or non-ASCII and otherwise answers equality |
| Python.CompareWithGenerated | python/app.py:26-29 | Comparing the generated signature succeeds and says equal exactly when the claim exists and decodes to the tag |
| Python.VerifyRequest | python/app.py:13-32 | A missing signature is caught as false; otherwise true exactly when the signature decodes to the tag |
| Python.Webhook | python/app.py:50-66 | 200 exactly when verify_request holds, else 403 |
| Python.MixedCaseNameRendersNone | python/app.py:38 | A present name written with an upper-case letter passes the filter and is rendered as `None` |
| Python.PlainNamesBlock | python/app.py:38-39 | Stripped, lower-case, present names give one `name:value` entry each, in order, repeats kept |
| Ruby.FixedLengthSecureCompare | ruby/app.rb:56-58 | A byte-length mismatch raises; otherwise the answer is equality |
| Ruby.VerifyRequest | ruby/app.rb:12-33 | A missing variable is false, a length mismatch is rescued as false; otherwise true exactly when the signature decodes to the tag |
| Ruby.Post | ruby/app.rb:60-78 | 200 exactly when verify_request holds, else 403 |
| Ruby.EmptyListSignsEmptyBlock | ruby/app.rb:16 | A present but empty list has no names and signs an empty block |
| Ruby.ContentTypeFallback | ruby/app.rb:42 | Content-Type without its HTTP_ variable is signed with CONTENT_TYPE as it is |
| Ruby.EntryNameShape | ruby/app.rb:44 | Every entry's name is lower-case and stripped |
| Go.VerifyRequest | go/main.go:17-35 | true exactly when the signature header, "" when absent, decodes to the tag under the secret, possibly empty |
| Go.Handle | go/main.go:62-72 | 200 exactly when verifyRequest holds, else 403 |
| Go.ContentfulNamesAreTokens | go/main.go:24-25 | Both Contentful headers are looked up case-insensitively |
| Go.MissingSignatureForbidden | go/main.go:24 | Without a signature header the request is always 403 |
| Go.NonTokenNameReadsEmpty | go/main.go:44 | A listed name with a non-token character, such as a space after a comma, reads as empty |
| Go.EmptyListBlock | go/main.go:39-46 | An empty list still names one empty header, which is not a token and reads as empty, so the block is `:` whatever fields the request carries |
| Agreement.TokenNameEntry | go/main.go:43-45 | For a token name C# and Go write the same entry |
| Agreement.CSharpGoSameCanonical | csharp/WebhookController.cs:79-99 | For POST to / with a body free of surrounding whitespace and token names only, C# and Go sign the same string |
| Agreement.CSharpGoSameVerdict | csharp/WebhookController.cs:66 | Under those conditions, with a lower-case claim, C# accepts exactly when Go does |
| Agreement.UpperCaseSignatureDivergence | csharp/WebhookController.cs:66 | The upper-cased signature is accepted by C# and rejected by Go |
| Agreement.EmptySignedHeadersDivergence | csharp/WebhookController.cs:44 | An empty signed-headers value: C# answers 401 unsigned, Go signs the block `:`, C++ an empty block |
| Agreement.PhpGoSameEntry | php/index.php:45-56 | For a token name with a bare value PHP and Go write the same entry |
| Agreement.PhpGoSameCanonical | php/index.php:42-61 | For token names with bare values PHP and Go sign the same string, given the same method, path string and body (PHP's REQUEST_URI equal to Go's URL.Path) |
| Agreement.RepeatedNameDivergence | java/src/main/java/com/example/demo/RequestVerifier.java:27-33 | A name listed twice gives Java one entry and Python two |

## Left out

- HTTP servers, routing and response bodies are not modelled; each handler's answer is a `Response` value. csharp/Program.cs, java/src/main/java/com/example/demo/DemoApplication.java, every `main` and kotlin/build.gradle.kts are plumbing.
- Reading `CONTENTFUL_SIGNING_SECRET` is not modelled: the secret is a parameter, `Option` where it can be unset. The Python and Ruby start-up checks become `requires secret != ""`.
- HMAC-SHA256 and SHA-256 internals, and the UTF-8 encoding of key and message, are the `mac` parameter.
- Timing behaviour of `hash_equals`, `compare_digest`, `hmac.Equal` and `fixed_length_secure_compare` is not modelled, only their results.
- Unicode case mapping and non-ASCII whitespace are not modelled. Each trim uses its language's ASCII set.
- Each framework's own header storage is not modelled. ASP.NET, Ktor, Drogon and Go are a first-match case-insensitive lookup over the fields in arrival order. For Go it is restricted to token names, because Go canonicalises only those.
- Duplicate header fields: lookups take the first, dictionary copies the last. Drogon's and Werkzeug's own merging is not modelled.
- Java's `HashMap` iteration order is not modelled. When two raw keys normalise alike, the later field in the given order wins.
- Java's `ExpiredRequestException` is unused and left out. `timeToLive` is an ignored parameter.
- The Go body re-read in `main` is left out; the body is a parameter.
- Rust's UTF-8 check of the body is not modelled: the body arrives as an `Option` decoded by the caller.
- PHP's integer-like array keys are not modelled; `$_SERVER` is an ordered list of string pairs.
- Rack's construction of `env` is not modelled; `env` is a given map.
- How each server derives the path is not modelled; `path` is the string the receiver signs. C#, Java and Rust sign the fixed `/`. PHP signs `REQUEST_URI` and Kotlin `call.request.uri`, both with the query string. Go signs the decoded `URL.Path`, C++ Drogon's `getPath()`, and Python and Ruby `request.path`, all without the query string. Agreements between receivers hold for equal path strings, which the servers do not derive alike.
- CSharp.VerifyWebhook: its own contract states only the secret check and the outcome range. CSharp.MissingCredentialsRejected and CSharp.AcceptsExactlyCaseVariants state the other branches.
- Java.VerifyRequest: states acceptance through the reference predicate `Verified`, comparing with the signature string. The tag-level form follows from Signing.SignatureMatchesTag.
