# AppleCertCheck `/check`: a Dafny model

AppleCertCheck is a small Express server. A user uploads a PKCS#12 (`.p12`)
file and its password. The server takes the first certificate out of the file
and reads the certificate's Authority Information Access (AIA) extension. From
the extension's raw value it scrapes two URLs with regular expressions: the
issuer certificate's `.der` URL and the OCSP responder URL. It downloads the
issuer certificate, asks the OCSP responder about the certificate, and tells
the user one of seven outcomes.

This project models the logic in `server.js` that makes these decisions:

- **`js_text.dfy` (module `JsText`):** JavaScript's `\s` character class and
  `String.prototype.includes`.
- **`url_patterns.dfy` (module `UrlPatterns`):** the two regular expressions
  of `getUrls`, `/http[^\s]+\.der/` and `/http[^\s]+ocsp[^\s"]*/`, run the way
  a non-global `String.prototype.match` runs them.
  - The engine is modelled step by step. Start positions are tried from left
    to right. At each start, the greedy `[^\s]+` first takes the whole
    non-whitespace run, then gives characters back one at a time until the
    literal that follows matches.
  - Each pattern also has a declarative description: the set of strings it
    matches as a whole.
  - The engine is proved to report exactly the leftmost match, extended as
    far as it can go. It reports `null` exactly when no substring matches.
- **`server.dfy` (module `Server`):**
  - `getUrls`;
  - the `if/else` chain in the `ocsp.check` callback;
  - the `/check` handler's branch order: missing file, then P12 parsing, then
    URL scraping, then the issuer download, then the OCSP check.

  The handler is a pure function. Its inputs are the request and the answers
  of its collaborators. It returns the HTTP status, the outcome, and the
  ordered list of collaborator calls it made. That list is what lets the
  model state "no download happens" and "the OCSP check comes after the
  download".
- **`aia_sample.dfy` (module `AiaSample`):** `getUrls` applied to a concrete,
  DER-encoded AIA value.
  - In node-forge, the extension's value is its DER bytes, held as a binary
    string. The tag and length bytes between two access descriptions are
    usually not whitespace.
  - So on this value the scraped issuer URL starts at the OCSP URI's `http`,
    runs across the DER bytes, and ends at the issuer URI's `.der`.
  - The scraped OCSP URL keeps one trailing byte, `0` (0x30). It stops at the
    next length byte, 0x22, because that byte is a double quote.

`server.js` does not parse the access descriptions by OID. It scrapes both
URLs with regular expressions, and it classifies a failed check by testing
whether the error message contains `"revoked"`.

Characters are Dafny `char`s. `IsSpace` is the full ECMAScript `\s` set.
A binary string only holds code points 0..255, and on those the set is
{9, 10, 11, 12, 13, 32, 160}. Because `getUrls` is a function over immutable
values, it cannot change the certificate or the extension value.

## Model

| member | source | states |
|---|---|---|
| JsText.BinaryStringSpaces | server.js:30-31 | `IsSpace`, the `\s` class of both patterns, is ECMAScript's WhiteSpace and LineTerminator code points; on the characters 0..255 of a binary string it holds exactly for 9, 10, 11, 12, 13, 32 and 160 |
| JsText.IncludesFrom | server.js:74 | the substring search is true exactly when `needle` occurs in `s` at some position at or after `from` |
| JsText.Includes | server.js:74 | `s.includes(needle)` is true exactly when `needle` is a contiguous, case-sensitive substring of `s` |
| UrlPatterns.RunEnd | server.js:30-31 | a greedy character-class run stops at the first character outside the class, or at the end of the string, and everything it passed is in the class |
| UrlPatterns.Backtrack | server.js:30-31 | giving back characters of the greedy `[^\s]+` finds the rightmost position where the following literal matches, or reports that the literal matches nowhere in the range |
| UrlPatterns.MatchAt | server.js:30-31 | a match tried at start `i` ends at least 9 characters later and within the string |
| UrlPatterns.SearchFrom | server.js:30-31 | the reported start is the first position at which the engine's attempt succeeds; every earlier start fails; `null` means every start fails |
| UrlPatterns.MatchAtSound | server.js:30-31 | whatever the engine reports at a start is a substring in the pattern's language |
| UrlPatterns.IssuerSound | server.js:30 | for `/http[^\s]+\.der/`, the reported text is `http`, a non-empty run without whitespace, then `.der` |
| UrlPatterns.OcspSound | server.js:31 | for `/http[^\s]+ocsp[^\s"]*/`, the reported text is `http`, a non-empty run without whitespace, `ocsp`, then a run without whitespace or `"` |
| UrlPatterns.MatchAtLongest | server.js:30-31 | every match from a start is found by the engine there, and none is longer than the one it reports |
| UrlPatterns.IssuerLongest | server.js:30 | the `.der` match the engine reports from a start is the longest one from that start |
| UrlPatterns.OcspLongest | server.js:31 | the OCSP match the engine reports from a start is the longest one from that start |
| UrlPatterns.Exec | server.js:30-31 | `s.match(re)` is `null` exactly when no substring of `s` matches; otherwise its span is a match, no match starts further left, and no longer match has the same start |
| UrlPatterns.ExecAgainstSearch | server.js:30-31 | the scan over start positions satisfies the leftmost-longest description, and fails exactly when no substring matches |
| UrlPatterns.LeftmostLongestUnique | server.js:30-31 | at most one span is the leftmost-longest match, so the description determines the result |
| UrlPatterns.ExecReports | server.js:30-31 | any span that meets the leftmost-longest description is exactly what `match` reports |
| UrlPatterns.MatchStartsWithHttp | server.js:30-31 | every match of either pattern begins with `http` |
| UrlPatterns.MatchLength | server.js:30-31 | every match of either pattern is at least 9 characters long, so it is never the empty string |
| UrlPatterns.IssuerExtent | server.js:30 | the issuer match starts with `http`, contains no whitespace, has at least one character before `.der`, and ends at the last `.der` inside the unbroken non-whitespace run after that `http` |
| UrlPatterns.OcspExtent | server.js:31 | the OCSP match starts with `http` and is anchored at the last `ocsp` of the run, at least 5 characters after the start; it ends at the first whitespace or `"` after that `ocsp`, or at the end of the string |
| Server.MatchText | server.js:34-35 | `match(...)[0]` is present exactly when the pattern occurs, and is then the text of the leftmost-longest match |
| Server.GetUrls | server.js:26-37 | without an AIA extension neither URL is present; otherwise each URL is present exactly when its pattern occurs in the extension value, and is then the leftmost-longest match in it |
| Server.Truthy | server.js:59 | JavaScript truthiness of a possibly-null URL, as used by `!issuerUrl`: false exactly for `null` and `""` |
| Server.FoundUrlsAreTruthy | server.js:59 | a scraped URL is never `""`, so the handler's falsiness test on the two URLs is a test for absence |
| Server.Classify | server.js:72-90 | the callback's classification is total: an error whose message contains `revoked` is Revoked, any other error is a failed check; with no error, `good` is Good, `revoked` is Revoked, anything else is Unknown |
| Server.PasswordOrEmpty | server.js:16 | the fallback of the `password` field to `""`: the result is `""` exactly when the password is missing or empty; otherwise it is the password sent |
| Server.Handle | server.js:50-108 | status 400 exactly when no file was uploaded; no collaborator is called in that case; otherwise the first call parses the P12 with the password, or `""` when none was sent |
| Server.MissingFileFirst | server.js:51-53 | a request without a file gets status 400 and the missing-file outcome before any parsing |
| Server.OutcomeConditions | server.js:55-108 | each outcome holds under exactly one condition on the inputs; a parse failure and a failed issuer download both give the invalid-file-or-password outcome; the OCSP outcomes are the callback's classification |
| Server.NoFetchWithoutUrls | server.js:59-65 | when either URL is missing, the outcome is "URLs not found" and neither the issuer download nor the OCSP check happens |
| Server.FetchOrder | server.js:67-69 | the issuer is downloaded from the scraped issuer URL; the OCSP check, against the scraped OCSP URL, follows only when that download succeeded |
| AiaSample.IssuerSpan | server.js:30 | on the sample DER value, the issuer match runs from the OCSP URI's `http` to the issuer URI's `.der` |
| AiaSample.OcspSpan | server.js:31 | on the sample DER value, the OCSP match is the OCSP URI plus the following `0` byte, cut off by the `"` length byte |
| AiaSample.SampleUrls | server.js:26-37 | on the sample DER value, `getUrls` yields both URIs with the DER bytes between them as the issuer URL, and the OCSP URI followed by `0` as the OCSP URL |

## Left out

- Express and multer setup, static file serving and `app.listen` (server.js:1-9, 112-117): HTTP plumbing. The upload is an input: whether a file came, and the `password` field.
- `parseP12ToPem` (server.js:12-23): file I/O and node-forge's PKCS#12/ASN.1 decoding, a library whose code is not part of this model. Its result is an input: either an exception, or the first certificate bag's certificate, reduced to the value of its AIA extension. An exception includes the case where there is no certificate bag, since indexing `[0]` of a missing list throws. The password default `password || ""` is modelled.
- `cert.getExtension("authorityInfoAccess")` (server.js:27): a node-forge lookup. Its result is an input: the extension's value, or none.
- Exceptions from `getUrls` itself: on a string value the two `match` calls cannot throw, so in this model URL scraping never fails.
- `downloadIssuerPem` (server.js:40-47): an axios request and forge DER parsing. Only whether it succeeded is modelled. The downloaded certificate is not.
- `ocsp.check` internals (server.js:69): request encoding, the network POST and response checking happen in a third-party library. The callback's `err` message and `result.type` are inputs. A synchronous exception thrown by `ocsp.check` itself, before the callback runs, is not modelled.
- The callback's HTML, the CN lookup, and the `toLocaleDateString("vi-VN")` date formatting (server.js:92-99) are presentation. `console.error` logging is left out.
- Exceptions thrown inside the asynchronous callback escape the surrounding `try` (server.js:69-100 versus 101). Examples are a certificate without a CN, or a `null` result with no error. This is asynchronous control flow and is not modelled.
- JavaScript strings are UTF-16 code units, while Dafny's `char` is a Unicode scalar value, so lone surrogates cannot be represented. This does not matter for the binary strings `getUrls` receives.
