# Service-account JWT and report formatting of php-ga4-example, in Dafny

`index.php` signs in to the Google Analytics Data API as a service account. It mints a
JWT bearer assertion, exchanges it for an access token, calls `runReport` for one
property and prints the returned rows. Most of the script is HTTP and file I/O. This
project models its deterministic core and proves what that core promises:

- `base64url_encode` (module `Base64Url`). This is standard Base64 (section 4 of
  RFC 4648, module `Base64`), then `strtr` of `+/` to `-_`, then `rtrim` of `=`. Standard
  Base64 is written out over byte sequences, one 3-byte group at a time. The model proves
  that the output alphabet is the URL-safe one of section 5 of RFC 4648, that the output
  length is `4 * (n / 3) + [0, 2, 3][n % 3]`, and that re-padding and mapping back gives
  exactly standard Base64. A decoder then gives the bytes back, so the encoding is
  injective.
- `create_jwt` (module `Jwt`). This is the JWS Compact Serialization of section 7.1 of
  RFC 7515: `b64u(header) "." b64u(claims) "." b64u(signature)`. The header is
  `{alg: RS256, typ: JWT}` (section 3.3 of RFC 7518). The claims follow section 3 of
  RFC 7523, with `iss = sub = client_email`, the token endpoint as `aud`, the read-only
  Analytics `scope`, `iat = now` and `exp = now + 3600`. The clock is the argument `now`.
  `json_encode` and `openssl_sign` are function arguments whose result may be absent, as
  PHP's `false`. PHP's `base64_encode` turns that `false` or `null` into the empty
  string, and the model does the same.
- The `runReport` URL of `fetch_ga4_data`, and the `foreach` that prints a `City:` line
  and an `Active Users:` line per row (module `Report`). The loop is a method with a `for`
  loop, proved against a function of the rows.

`Text` holds the splitting of a string at a separator character. It is the reader's view
used to state "three segments" and "two lines per row". `Wrappers` holds `Option`.

The script never stops on a failure. It ignores what `json_encode` and `openssl_sign`
return on failure, so a failed signature gives a token whose third segment is empty, and
the model keeps that. A response without `rows` makes the loop echo nothing, even if the
response holds an `error` member.

## Model

| member | source | states |
|---|---|---|
| `Base64.Encode` | index.php:48 | standard Base64 output is 4 characters per started 3-byte group: `4 * ceil(n / 3)` |
| `Base64.StdChar` | index.php:48 | each 6-bit value maps to the Table 1 character whose table index is that value, so decoding the character gives the value back |
| `Base64.EncodeShape` | index.php:48 | standard Base64 is alphabet characters followed by exactly `PadCount(n)` (0, 2 or 1) `=` characters |
| `Base64.DecodeEncode` | index.php:48 | decoding the standard Base64 of any byte sequence gives that sequence back |
| `Base64.KnownAnswers` | index.php:48 | the encoder agrees with all seven test vectors of section 10 of RFC 4648 |
| `Base64.EncodeInjective` | index.php:48 | different byte sequences have different standard Base64 encodings |
| `Base64Url.KnownAnswers` | index.php:46-49 | bytes 251, 255 encode to `-_8`, and `f` and `fooba` encode to `Zg` and `Zm9vYmE`, the RFC 4648 vectors without padding |
| `Base64Url.EncodeIsTrimmedTranslation` | index.php:46-49 | `base64url_encode` is the `+/`→`-_` translation of standard Base64 with exactly its padding removed, and no alphabet character is trimmed |
| `Base64Url.EncodeLength` | index.php:48 | for n bytes the output length is `4 * (n / 3) + [0, 2, 3][n % 3]`, the padded length less the padding |
| `Base64Url.EncodeAlphabet` | index.php:46-49 | every output character is in `A-Z a-z 0-9 - _`; the output never holds `+`, `/`, `=` or `.` |
| `Base64Url.Reversible` | index.php:48 | appending `=` up to a multiple of 4 and mapping `-`→`+`, `_`→`/` gives back exactly the standard Base64 of the input |
| `Base64Url.DecodeEncode` | index.php:46-49 | decoding the unpadded URL-safe text gives the input bytes back |
| `Base64Url.EncodeInjective` | index.php:46-49 | different byte sequences have different `base64url_encode` outputs |
| `Jwt.HeaderFields` | index.php:11-14 | the JOSE header has `alg` = `RS256` and `typ` = `JWT` |
| `Jwt.ClaimSetInvariants` | index.php:17-27 | the claim set has `iss` and `sub` equal to `client_email`, the token endpoint as `aud`, the analytics.readonly `scope`, `iat = now` and `exp = now + 3600` |
| `Jwt.Segments` | index.php:9-38 | splitting the token on `.` yields exactly three segments: encoded header, encoded claims, and the encoded signature of exactly the first two joined by `.`; each segment decodes back to the bytes that were encoded |
| `Jwt.HeaderSegmentFixed` | index.php:11-14 | the first segment is the same for all credentials, issue times and signers |
| `Jwt.PayloadClaims` | index.php:17-30 | the decoded second segment is the serialisation of a claim set with `iss == sub == client_email`, `iat == now` and `exp == now + 3600` |
| `Report.ReportUrlRoundTrip` | index.php:96 | the report URL is the fixed `properties/` prefix, the property id, then `:runReport`, so the id reads back out of it |
| `Report.ReportUrlInjective` | index.php:96 | different property ids give different report URLs |
| `Report.PrintRows` | index.php:155-158 | the loop's output is the concatenation, in row order, of each row's `City: ...\n` and `Active Users: ...\n` lines |
| `Report.RenderedAppend` | index.php:155-158 | printing one more row appends exactly that row's two lines to the output |
| `Report.NoRowsNoOutput` | index.php:155 | for an empty or absent `rows` the loop echoes nothing |
| `Report.RenderedSplitsIntoLines` | index.php:155-158 | when no value holds a line break, the output splits into exactly the listed lines, each ended by `\n` |
| `Report.LinesOfRow` | index.php:156-157 | there are two lines per row; line 2k is `City: ` plus the first dimension value of row k and line 2k+1 is `Active Users: ` plus its first metric value |

## Left out

- `get_access_token` (index.php:58-85): the cURL POST to the token endpoint and the lookup of `access_token` in the reply are network I/O. Its error branch only echoes the cURL error.
- `fetch_ga4_data` beyond its URL (index.php:99-134): the constant request body, the cURL POST and `json_decode` of the reply are a fixed literal and network I/O.
- Loading `credentials.json` (index.php:143) is file I/O. Credentials are the record `Credentials(clientEmail, privateKey)`.
- The main flow (index.php:146-152) only chains the calls above; the placeholder property id is an argument of `ReportUrl`.
- `time()`, `json_encode` and `openssl_sign` are not modelled. They are arguments, and RSA and SHA-256 are not modelled.
- `echo` is modelled as appending to the string that `PrintRows` returns.
- Jwt.ClaimSetInvariants: `now + 3600` is unbounded; PHP's 64-bit integer would turn into a float only within an hour of the largest integer, which `time()` never returns.
- Report.PrintRows: PHP's warnings and notices are not modelled; a stock PHP command-line run also writes them to standard output, for a missing `rows` key and a `foreach` over `null` (index.php:155) and for a missing first entry of a row's values (index.php:156-157).
- Report.PrintRows: a row entry without a `value` member is not modelled. A missing first entry of `dimensionValues` or `metricValues` is modelled as PHP's `null`, which prints as the empty string.
- The decoders `Base64.Decode` and `Base64Url.Decode` are not in the script. They exist so that reversibility can be stated; they accept more than canonical text (standard characters and padding in base64url input, non-zero leftover bits in a last quantum).
