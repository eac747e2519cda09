# upload-pdf: storage keys, upload batches and listings

This project models the pure logic of the PDF upload service in `index.js`:

- the **key sanitiser** `sanitizeKey`, which deletes every character outside
  the allow-list `a-z A-Z 0-9 ! - _ . * ' ( )`;
- the **storage key** of an upload, `pdfs/<Date.now()>_<sanitised name>`;
- the **`POST /upload` batch**: an empty or missing file list is refused with
  the 400 response; otherwise every file gets a key and a PutObject request,
  and, when every request succeeds, one result `{filename, url, key, size,
  uploadedAt}` in input order; one failure turns the whole batch into the 500
  response;
- the **`GET /files/:key` lookup key**, which is the sanitised route parameter;
- the **`GET /newsletters` listing**: the display name
  `key.split('_').pop().replace('.pdf', '') || 'arquivo'` and the public URL
  `https://<bucket>.s3.<region>.amazonaws.com/<key>` of each stored object.

Everything the handlers obtain from outside is a parameter. This covers the
`Date.now()` and `toISOString()` clock readings, whether the store accepts a
write, the presigned URL of each file, the bucket and region names, and the
store's listing. The modules follow the handlers:

| file | module | what it holds |
|---|---|---|
| wrappers.dfy | `Wrappers` | `Option`, `Result` |
| strings.dfy | `Strings` | `split(c).pop()` and `replace(pattern, '')` as the listing uses them, with helper searches for a character's first and last position |
| numerals.dfy | `Numerals` | decimal printing of naturals (`${Date.now()}`, `size.toString()`) and the parse that inverts it |
| key_sanitizer.dfy | `KeySanitizer` | `sanitizeKey` and its properties |
| upload_keys.dfy | `UploadKeys` | the key template and the parse that splits a key back into timestamp and name |
| upload_batch.dfy | `UploadBatch` | the `POST /upload` handler |
| retrieval.dfy | `Retrieval` | the lookup key of `GET /files/:key` |
| listing.dfy | `Listing` | the `GET /newsletters` entries |

Three behaviours of the code are kept as written:

- The S3 metadata entry `originalname` holds the generated key (index.js:51), not the original file name.
- The lookup of a generated key does not resolve to that key (Findings, row 1).
- An empty bucket is answered with 500, not with an empty list (Findings, row 3).

## Model

| member | source | states |
|---|---|---|
| `KeySanitizer.Sanitize` | index.js:33 | every character of the output is in the allow-list, and the output is no longer than the input |
| `KeySanitizer.SanitizeIsSubsequence` | index.js:33 | the output is a subsequence of the input: the sanitiser only deletes characters and keeps their order |
| `KeySanitizer.SanitizeCounts` | index.js:33 | each allowed character occurs in the output as often as in the input, and each other character does not occur at all |
| `KeySanitizer.SanitizeFixedPoint` | index.js:33 | a string comes back unchanged if and only if all its characters are allowed |
| `KeySanitizer.SanitizeIdempotent` | index.js:33 | sanitising twice gives the same result as sanitising once |
| `KeySanitizer.SanitizeConcat` | index.js:33 | the sanitiser distributes over concatenation and maps the empty string to itself |
| `KeySanitizer.SanitizeKeepsOne` | index.js:33 | an allowed character is kept in place between the sanitised text on either side of it |
| `KeySanitizer.SanitizeDropsOne` | index.js:33 | a single disallowed character between two allowed runs is the only thing deleted |
| `Numerals.Decimal` | index.js:43 | the printed timestamp is a canonical numeral: digits only, non-empty, and a leading zero only for zero |
| `Numerals.ValueOfDecimal` | index.js:43 | parsing the printed number gives the number back |
| `Numerals.DecimalOfValue` | index.js:43 | printing the value of a canonical numeral gives the numeral back |
| `Numerals.DecimalInjective` | index.js:43 | distinct timestamps print as distinct numerals |
| `UploadKeys.UploadKey` | index.js:43 | a generated key starts with `pdfs/`, is longer than the prefix plus separator, and contains a `/` |
| `UploadKeys.ParseOfUploadKey` | index.js:43 | the key splits back into the timestamp and the sanitised name: the text after the first `_` is exactly `sanitizeKey(originalname)` |
| `UploadKeys.UploadKeyOfParse` | index.js:43 | every string the parse accepts is the key of its parts, and its name part is already sanitised |
| `UploadKeys.UploadKeyCollision` | index.js:43 | two uploads get the same key if and only if the clock read the same and the names sanitise to the same string |
| `UploadKeys.NameAfterFirstSeparator` | index.js:43 | the text after the first `_` of a generated key is the sanitised name |
| `UploadBatch.UploadBatch` | index.js:38-70 | a missing or empty file list gives the 400 outcome and issues no writes. Otherwise one PutObject is issued per file, in order, with that file's key, bytes, PDF content type and decimal size. The batch succeeds if and only if every file succeeds, and then result `i` carries file `i`'s name, size and key, the URL signed for that key at that position, and its upload time |
| `UploadBatch.BatchKeysParse` | index.js:42-66 | each key of a successful batch lies under `pdfs/` and parses back to its own file's clock reading and sanitised name |
| `UploadBatch.BatchKeysCollide` | index.js:42-56 | two files of one batch are written under the same key if and only if their clock readings match and their names sanitise alike |
| `Retrieval.RequestedKey` | index.js:81 | the key looked up never contains `/` and is a subsequence of the route parameter |
| `Retrieval.RequestedKeyOfUploadKey` | index.js:81 | looking up a generated key deletes exactly its `/` and nothing else |
| `Retrieval.GeneratedKeysUnreachable` | index.js:81 | no route parameter is looked up as a generated key |
| `Retrieval.RequestedKeyFixed` | index.js:81 | corrected lookup: every character of the result is allowed except the `/` of a kept `pdfs/` prefix, and the result has that prefix if and only if the parameter has it |
| `Retrieval.FixedReachesGeneratedKeys` | index.js:81 | with the corrected lookup, every generated key is looked up as itself |
| `Strings.LastPiece` | index.js:103 | `split(c).pop()` is the longest suffix without `c`: the whole string when `c` is absent, otherwise what follows the last `c` |
| `Strings.RemoveFirst` | index.js:103 | `replace(pat, '')` leaves a string without `pat` unchanged; otherwise putting `pat` back at its first occurrence gives the input, and no new characters appear |
| `Listing.OrFallback` | index.js:103 | the fallback to `arquivo` is never empty and keeps a non-empty base |
| `Listing.DisplayName` | index.js:103 | the display name is never empty and never contains `_`; a key without `_` is used whole |
| `Listing.DisplayNameOfUploadKey` | index.js:103 | if the sanitised name has no `_`, the display name of a generated key is that name with its first `.pdf` removed, or `arquivo` |
| `Listing.DisplayNameOfPdfUpload` | index.js:103 | a file uploaded as `<base>.pdf`, with no `_` or `.` in `<base>`, is listed under `<base>` |
| `Listing.DisplayNameKeepsLastPiece` | index.js:103 | a name `a_b` is listed exactly as `b` would be, so everything up to the last `_` is lost |
| `Listing.DisplayNameTruncatesAtUnderscore` | index.js:103 | `my_report.pdf` is listed as `report` |
| `Listing.DisplayNameFixed` | index.js:103 | corrected display name: never empty |
| `Listing.DisplayNameFixedOfUploadKey` | index.js:103 | the corrected display name of a generated key is the whole sanitised name with its first `.pdf` removed, or `arquivo` |
| `Listing.PublicUrl` | index.js:106 | the URL starts with `https://` and ends with the key |
| `Listing.PublicUrlInjective` | index.js:106 | within one bucket and region, distinct keys have distinct URLs |
| `Listing.ListNewsletters` | index.js:101-107 | a listing without `Contents` fails. Otherwise there is one entry per object, in listing order, with its key, display name, size, modification date (or the current time) and public URL |
| `Listing.EmptyBucketFails` | index.js:101 | an empty bucket, reported without `Contents`, gives the 500 outcome |
| `Listing.ListNewslettersFixed` | index.js:101-107 | corrected listing: no `Contents` gives no entries, and each entry uses the corrected display name |
| `Listing.ListNewslettersFixedAgrees` | index.js:101-107 | where the listing succeeds, the corrected listing differs from it only in the display names |

## Findings

| source | as written | input that shows it | evidently intended | confidence | as-written member | corrected member |
|---|---|---|---|---|---|---|
| index.js:81 | the route parameter is sanitised, which deletes the `/` of every generated key | the key `pdfs/1700000000000_a.pdf`, returned by the upload and sent URL-encoded, is looked up as `pdfs1700000000000_a.pdf` | a key returned by the upload is looked up as itself | medium, not executed | `Retrieval.GeneratedKeysUnreachable` (about `Retrieval.RequestedKey`) | `Retrieval.FixedReachesGeneratedKeys` (about `Retrieval.RequestedKeyFixed`) |
| index.js:103 | the display name is cut at the last `_`, but the sanitiser keeps `_` in names | a file uploaded as `my_report.pdf` is listed as `report` | the name after the timestamp separator, `my_report` | medium, not executed | `Listing.DisplayNameTruncatesAtUnderscore` (about `Listing.DisplayName`) | `Listing.DisplayNameFixedOfUploadKey` (about `Listing.DisplayNameFixed`) |
| index.js:101 | `Contents.map` is called without a check | a bucket with no object under `pdfs/`, for which the S3 listing carries no `Contents` | an empty list | medium, not executed | `Listing.EmptyBucketFails` (about `Listing.ListNewsletters`) | `Listing.ListNewslettersFixed` |

## Left out

- HTTP plumbing is not modelled: Express setup, CORS, routes, redirects, status codes and the error middleware (index.js:17-19, 72-76, 87-91, 109-130). The 400 and 500 responses appear only as the error values `NoFilesProvided`, `UploadFailed` and `ListFailed`.
- The S3 calls are not modelled: `PutObjectCommand`, `getSignedUrl` with its 3600-second expiry, and `ListObjectsV2Command`. Each write's success, each signed URL and the listing are parameters. The bucket name in the PutObject parameters is omitted.
- Presigning for `GET /files/:key` and its 404 path are left out, since both depend only on the S3 client. Only the key that is looked up is modelled.
- `Promise.all` concurrency is modelled as an ordered map. All writes are issued, and one failure fails the batch. Which objects were already stored when a write failed is not modelled.
- Clock readings are parameters indexed by file or entry position: `Date.now()` (index.js:43) and `toISOString()` (index.js:68, 105). `LastModified` is given as its ISO rendering.
- The startup checks of environment variables and `process.exit` (index.js:9-15) are not modelled.
- The multipart middleware `./middleware/upload` is not part of this model. It parses `files` and applies the file-count and media-type limits.
- controllers/fileController.js, config/s3Config.js and models/File.js are not part of this model. They contain database queries, filesystem checks, client construction and a schema declaration.
- `Numerals.Decimal` prints every natural number in plain digits. JavaScript uses exponent notation from 10^21 upwards, which neither a millisecond clock nor a file size reaches.
- `KeySanitizer.Sanitize` works on Unicode scalar values, while the JavaScript regex works on UTF-16 code units. No surrogate unit is in the allow-list, so both delete a character outside the Basic Multilingual Plane entirely, and the results agree.
- File sizes are naturals rather than JavaScript numbers. Object keys in the listing are always present, so `file.Key?.` is modelled as a plain string.
