# Snowflake whispers — a Dafny model of the core

This project models the logic behind the snowflake-whisper web app in Dafny:

- **Generator.** The deterministic snowflake generator (`utils/snowflakeGenerator.ts`):
  - the 32-bit rolling string hash;
  - the Park–Miller generator `SeededRandom`;
  - how snowflake parameters are derived from a text and a signature;
  - how many random draws and SVG lines each branch uses and emits.
- **Encryption.** The ciphertext format of `utils/encryption.ts`:
  - salt, IV and AES-GCM output, framed and base64-encoded;
  - the single error each direction reports;
  - the random password.
- **Share links** (`utils/share.ts`):
  - the base64url token of the JSON payload;
  - the base-36 checksum and the `SN-` display id;
  - the share key carried in the fragment;
  - building and parsing v2 (ciphertext) links, and reading v1 (plaintext) links;
  - removing the share parameters from an address.
- **Local history** (`utils/storage.ts`):
  - tolerant normalisation of stored items;
  - de-duplication by id;
  - the newest-first cap of 50;
  - the preset seeding;
  - saving, deleting, clearing and force-loading the presets.
- **Translation lookup** (`contexts/I18nContext.tsx`):
  - dotted-key lookup with the fallback to Chinese and then to the key itself;
  - `{name}` interpolation;
  - locale detection, toggling and the language tag.

JavaScript strings are sequences of UTF-16 code units (`Text.String`). The browser services the core relies on are modelled from their standards:

- UTF-8 encoding and the WHATWG UTF-8 decoder behind `TextEncoder`/`TextDecoder` and `encodeURIComponent`/`decodeURIComponent`: module `Unicode`.
- `btoa`/`atob`, that is the encoding of RFC 4648 section 4 and the WHATWG forgiving-base64 decode: module `Base64`.
- `URLSearchParams` as a list of name/value pairs: module `UrlParams`.
- The JSON value tree the core inspects: module `JsValues`.

The following are parameters rather than modelled operations:

- **Cryptography and JSON.** PBKDF2 and AES-GCM are the fields of an `Encryption.Cipher` value. `JSON.stringify`/`JSON.parse` are the fields of a `Share.Json` value. The round-trip properties assume what each is trusted to do: `Encryption.Sound` and `Share.Faithful`.
- **Clock and randomness.** `Date.now()`, `crypto.getRandomValues` and `Math.random` are passed in as parameters.
- **The storage slot.** It is the parsed value of the stored text, `None` when nothing usable is stored.

Points where the code's behaviour is easy to mistake:

- **Password flag.** A stored record may say `hasPassword` without carrying ciphertext, because normalisation sets the flag when *either* the stored flag or a ciphertext is present (`utils/storage.ts:133`). `Storage.Canonical` states that invariant.
- **Bootstrap read.** The first read of an empty store returns all 51 presets without the cap, and the next read returns 50 (`utils/storage.ts:235-244`). See the second finding below.
- **Hash range.** The hash is at most 2^31, not an arbitrary unsigned 32-bit value (`utils/snowflakeGenerator.ts:18`).

## Model

| member | source | states |
|---|---|---|
| Text.Utf16Encode1 | utils/snowflakeGenerator.ts:14 | a scalar value below U+10000 is one code unit, equal to itself; any other is a high surrogate followed by a low one |
| Text.Trim | utils/share.ts:89 | `trim()` yields the empty string exactly for all-whitespace input; otherwise the result neither starts nor ends with whitespace |
| Text.TrimIsInfix | utils/share.ts:89 | the trimmed string is an infix of the input with only whitespace before and after it, so trimming removes nothing else |
| Text.TrimOfTrimmed | utils/share.ts:89 | a string with no surrounding whitespace is its own trim |
| Text.TrimIdempotent | utils/snowflakeGenerator.ts:139 | trimming twice is trimming once |
| Text.Split | contexts/I18nContext.tsx:17 | `split('.')` always yields at least one segment, and no segment contains the separator |
| Text.JoinSplit | contexts/I18nContext.tsx:17 | joining the segments of a split with the separator restores the key |
| Text.SplitJoin | contexts/I18nContext.tsx:17 | splitting the join of separator-free segments gives those segments back |
| Text.ToRadix | utils/share.ts:48 | `toString(radix)` yields at least one digit of that radix, with a leading `0` only for zero |
| Text.RadixRoundTrip | utils/share.ts:48 | reading the digits of `toString(radix)` back gives the number: the rendering loses nothing |
| Text.Base36 | utils/share.ts:48 | `toString(36)` is a non-empty string of base-36 digits |
| Text.RadixLeadingZeros | utils/share.ts:80 | zero padding in front does not change the number a digit string denotes |
| Text.RadixLength | utils/share.ts:80 | a number below radix^k has at most k digits |
| Text.PadStartZero | utils/share.ts:80 | `padStart(n, '0')` keeps the string at the end, puts only zeros in front, and has length max(len, n) |
| Text.SliceLast | utils/share.ts:80 | `slice(-n)` is the last n code units, or the whole string when it is shorter |
| Unicode.PairRoundTrip | utils/encryption.ts:35 | a surrogate pair read as a scalar value and re-encoded is the same pair |
| Unicode.Utf16RoundTrip | utils/encryption.ts:35 | a well-formed string is recovered from the scalar values `TextEncoder` reads from it |
| Unicode.DecodeStepEncode1 | utils/encryption.ts:88 | the UTF-8 decoder reads exactly one encoded scalar back, whatever bytes follow it |
| Unicode.Utf8StrictRoundTrip | utils/share.ts:43 | the throwing decoder of `decodeURIComponent` accepts UTF-8 encoding and returns the scalar values encoded |
| Unicode.Utf8LossyRoundTrip | utils/encryption.ts:87-88 | the replacing decoder of `TextDecoder` returns the scalar values of well-formed UTF-8 and inserts no U+FFFD of its own |
| Unicode.UriEncodeBytes | utils/share.ts:34 | `unescape(encodeURIComponent(s))` succeeds exactly when `s` has no lone surrogate |
| Unicode.TextRoundTrip | utils/encryption.ts:87-88 | `TextDecoder` inverts `TextEncoder` on well-formed text that does not start with U+FEFF |
| Unicode.TextDropsLeadingBom | utils/encryption.ts:87-88 | a leading U+FEFF does not survive `TextEncoder` then `TextDecoder` |
| Unicode.UriRoundTrip | utils/share.ts:34-43 | well-formed text survives the URI-component byte round trip of share tokens |
| Base64.SextetCount | utils/share.ts:42 | unpadded base64 never has a length one more than a multiple of 4; its length is a multiple of 4 exactly when the byte count is a multiple of 3 |
| Base64.SextetsRoundTrip | utils/encryption.ts:58 | the six-bit groups of any byte sequence decode back to that sequence |
| Base64.AlphabetBijection | utils/encryption.ts:58 | the base64 alphabet and its decoding are inverse bijections |
| Base64.ValuesChars | utils/encryption.ts:69 | the characters of any sextet sequence decode back to that sequence |
| Base64.Encode | utils/encryption.ts:58 | `btoa` output has length 4·⌈n/3⌉ for n bytes, a multiple of 4 |
| Base64.PadCount | utils/share.ts:42 | `btoa` appends at most two `=`, exactly `(4 - len % 4) % 4` of them, the count `fromBase64Url` restores |
| Base64.StripPaddingOfPadded | utils/encryption.ts:69 | the forgiving decoder removes exactly the padding `btoa` added |
| Base64.DecodeEncode | utils/encryption.ts:69 | `atob(btoa(b)) == b` for every binary string |
| Base64.EncodePaddingShape | utils/share.ts:37 | all `=` of `btoa` output are at its end, at most two of them |
| Base64.RandomPassword | utils/encryption.ts:96-100 | the password of 32 random bytes has 44 characters, of which only the last is `=` |
| Base64.StripTrailingPad | utils/share.ts:37 | `replace(/=+$/g, '')` removes a suffix made only of `=` and leaves no `=` at the end |
| Base64.Repad | utils/share.ts:42 | re-padding appends fewer than 4 `=` characters and nothing else, reaching a multiple of 4 |
| Base64.UrlEncodeIsUrlAlphabet | utils/share.ts:33-38 | the token is the sextets written in the base64url alphabet, unpadded |
| Base64.UrlEncodeClean | utils/share.ts:35-37 | the token contains no `+`, `/` or `=` |
| Base64.UrlRestoresStandard | utils/share.ts:41-42 | mapping the token back to the standard alphabet and re-padding restores the `btoa` text |
| Base64.UrlRoundTrip | utils/share.ts:33-44 | the base64url decoder inverts the encoder on every byte sequence |
| Base64.UrlDecodeRejectsLengthOneModFour | utils/share.ts:42-43 | a token without ASCII whitespace whose length is 1 modulo 4 makes `atob` throw, whatever its other characters (whitespace is removed before the length is judged) |
| Hash.ToInt32 | utils/snowflakeGenerator.ts:16 | `hash & hash` gives the int32 congruent to its operand modulo 2^32 |
| Hash.StepAsWrittenIsStep | utils/snowflakeGenerator.ts:15-16 | the shift-subtract-add step equals `31·hash + unit` reduced to int32 |
| Hash.Hash | utils/snowflakeGenerator.ts:18 | the hash is non-negative and at most 2^31 |
| Hash.HashString | utils/snowflakeGenerator.ts:11-19 | the source loop, with its shift arithmetic, computes the 31-multiplier rolling hash |
| Hash.HashEmpty | utils/snowflakeGenerator.ts:12-18 | the empty string hashes to 0 |
| Hash.HashBoundReached | utils/snowflakeGenerator.ts:18 | the bound is reached: `xfjfxtf` accumulates to -2^31, whose absolute value is 2^31 |
| Generator.JsRem | utils/snowflakeGenerator.ts:26 | JavaScript `%` keeps the sign of the dividend, has magnitude below the divisor, and completes the quotient truncated toward zero to the dividend |
| Generator.Init | utils/snowflakeGenerator.ts:25-28 | a non-negative seed gives a state in [1, 2^31 - 2]: the seed modulo 2^31 - 1, or 2^31 - 2 for a multiple of it |
| Generator.InitZero | utils/snowflakeGenerator.ts:27 | seed 0 becomes 2147483646 |
| Generator.InitNegativeSeedReachesZero | utils/snowflakeGenerator.ts:26-27 | the repair does not cover negative seeds: -2147483646 leaves the generator at state 0 |
| Generator.UndoMultiplier | utils/snowflakeGenerator.ts:31 | multiplying by 1407677000 undoes multiplying by 16807 modulo 2^31 - 1 |
| Generator.Advance | utils/snowflakeGenerator.ts:31 | each `next()` transition has an inverse, so it never leaves the state space |
| Generator.AdvanceInjective | utils/snowflakeGenerator.ts:31 | distinct states stay distinct: the generator permutes its states |
| Generator.Draw | utils/snowflakeGenerator.ts:32 | every value `next()` returns lies in [0, 1) |
| Generator.Next | utils/snowflakeGenerator.ts:30-33 | `next()` moves to the advanced state and returns that state's draw, in [0, 1) |
| Generator.GenerateParams | utils/snowflakeGenerator.ts:37-48 | 6 branches, complexity in 3..7, symmetry in [0.85, 1.15), seed = hash of the trimmed signature or else the text |
| Generator.SignatureDecides | utils/snowflakeGenerator.ts:38 | with a non-blank signature the text plays no part |
| Generator.ParamsFromSourceOnly | utils/snowflakeGenerator.ts:38-39 | the parameters depend only on the seed source |
| Generator.GenerateBranch | utils/snowflakeGenerator.ts:89-135 | a branch emits one main line plus two per side branch, consumes one draw per segment after the first plus three per side branch, leaves the generator that many steps on, and grows side branches exactly at the segments whose first draw exceeds 0.3 (`Generator.Segments`) |
| Generator.GenerateSnowflake | utils/snowflakeGenerator.ts:51-64 | the image has one main line per branch plus two per side branch, at most complexity - 1 side branches per branch, and exactly as many side branches as the draws from the seeded generator give, branch after branch (`Generator.BranchSides`) |
| Generator.SafeText | utils/snowflakeGenerator.ts:139 | the seed text is never empty |
| Generator.BlankTextFallsBack | utils/snowflakeGenerator.ts:139-140 | missing or blank text renders the snowflake of the word `snowflake` |
| Generator.SurroundingWhitespaceIgnored | utils/snowflakeGenerator.ts:139 | surrounding whitespace in the text does not change the image |
| JsValues.ArrayIndexOfDecimal | contexts/I18nContext.tsx:24 | the decimal numeral of an index below 2^32 - 1 is a property key naming that index |
| JsValues.GetProp | contexts/I18nContext.tsx:24 | reading an object gives its own property or `undefined`; reading a non-object gives `undefined` |
| JsValues.GetArrayElement | contexts/I18nContext.tsx:24 | element k of an array is found under the key `String(k)` |
| JsValues.GetString | utils/share.ts:190-196 | the string a property holds, present exactly when the property is a string |
| Encryption.Slice | utils/encryption.ts:72-74 | `slice` clamps its bounds to the array, never fails, and returns the bytes from `from` on in order |
| Encryption.Frame | utils/encryption.ts:52-55 | the framed blob is 28 bytes longer than the AES-GCM output |
| Encryption.Unframe | utils/encryption.ts:72-74 | the three slices partition the blob, with a 16-byte salt and a 12-byte IV whenever the blob has 28 bytes |
| Encryption.UnframeFrame | utils/encryption.ts:72-74 | the slicing of `decrypt` undoes the framing of `encrypt` |
| Encryption.FrameUnframe | utils/encryption.ts:52-55 | every blob of at least 28 bytes is the framing of its own slices |
| Encryption.Encrypt | utils/encryption.ts:32-63 | encryption fails exactly when AES-GCM sealing fails, and then only with the one `EncryptionFailed` error |
| Encryption.Decrypt | utils/encryption.ts:66-93 | every decryption failure is the one `DecryptionFailed` error, and input that is not base64 always fails |
| Encryption.DecryptEncrypt | utils/encryption.ts:32-93 | with sound AES-GCM, decrypting with the same password returns well-formed text that does not start with U+FEFF |
| Encryption.EncryptLength | utils/encryption.ts:52-58 | the blob is the base64 text of 28 + (ciphertext length) bytes |
| Encryption.FreshRandomnessDiffers | utils/encryption.ts:38-39 | two encryptions that drew different salts or IVs give different blobs |
| Encryption.NotBase64Fails | utils/encryption.ts:69 | a blob `atob` rejects fails to decrypt whatever the password |
| Encryption.GenerateRandomPassword | utils/encryption.ts:96-100 | the password is 44 characters long and ends in exactly one `=` |
| Encryption.PasswordCarriesRandomBytes | utils/encryption.ts:96-100 | the password decodes back to the random bytes it came from |
| UrlParams.ParsePair | utils/share.ts:66 | a piece's name never contains `=`; a piece without `&` parses to a serialisable pair |
| UrlParams.Parse | utils/share.ts:168 | every parsed pair is serialisable |
| UrlParams.ParseInit | utils/share.ts:66 | the `URLSearchParams` constructor skips one leading `?` and parses the rest; text without it parses as by `Parse` |
| UrlParams.ParseInitSerialize | utils/share.ts:120-122 | text written by `toString` reads back through the constructor when its first name does not start with `?` |
| UrlParams.Serialize | utils/share.ts:122 | the text is empty exactly when there are no pairs |
| UrlParams.Get | utils/share.ts:67 | `get` finds nothing exactly when no pair has the name |
| UrlParams.Delete | utils/share.ts:239 | `delete` keeps only pairs of other names, taken from the input |
| UrlParams.DeleteAppend | utils/share.ts:239 | `delete` works pair by pair: on a concatenation it is the concatenation of the deletions |
| UrlParams.DeleteSingleton | utils/share.ts:239 | a single pair is removed exactly when it carries the name, so with `DeleteAppend` the result is the input filtered, in order |
| UrlParams.GetAfterSet | utils/share.ts:118 | after `set`, `get` returns the new value, and the pairs of other names are as before |
| UrlParams.DeleteIdempotent | utils/share.ts:244 | deleting a name twice is deleting it once |
| UrlParams.GetAfterDelete | utils/share.ts:239 | after `delete` the name is gone and every other name reads as before |
| UrlParams.DeleteCount | utils/share.ts:239 | `delete` removes exactly the pairs with that name |
| UrlParams.ParseSerialize | utils/share.ts:120-122 | parsing the serialisation gives back every serialisable pair list, in order |
| UrlParams.ReadSingleParam | utils/share.ts:120-122 | a fragment written with one `set` is non-empty and reads back that value |
| UrlParams.ParseNormalForm | utils/share.ts:243-245 | re-serialising parsed text is a normal form |
| Share.ToBase64Url | utils/share.ts:33-38 | the token exists exactly when the input has no lone surrogate |
| Share.Base64UrlRoundTrip | utils/share.ts:33-44 | `fromBase64Url(toBase64Url(s)) == s` for every well-formed string |
| Share.Base64UrlAlphabet | utils/share.ts:33-38 | the token uses only letters, digits, `-` and `_`, and is non-empty for non-empty input |
| Share.Checksum | utils/share.ts:46-54 | the checksum has one to six base-36 digits |
| Share.ChecksumDenotesHash | utils/share.ts:46-54 | the checksum loses nothing: it reads back as the hash of its seed |
| Share.GetSnowflakeId | utils/share.ts:78-81 | the id is `SN-` and seven upper-case alphanumerics, the first of them always `0` |
| Share.IdEncodesHash | utils/share.ts:78-81 | the id reads back as the hash of `snowflake::` + signature |
| Share.SameIdIffSameHash | utils/share.ts:78-81 | two signatures share an id exactly when their seeds hash alike |
| Share.KeepAlnum | utils/share.ts:57 | only ASCII letters and digits remain, and alphanumeric text is unchanged |
| Share.BuildShareKey | utils/share.ts:56-58 | the key is a prefix of the alphanumerics of the random password, exactly min(32, n) characters where n is the number of alphanumerics |
| Share.ShortShareKey | utils/share.ts:56-58 | nothing bounds the key from below: 32 bytes of 0xFF give the key `8` |
| Share.ReadShareKey | utils/share.ts:60-72 | a key is read exactly when the fragment is non-empty and its first `k`, after the constructor skips a leading `?`, has 10 to 128 characters, and the key read is that value |
| Share.ReadWrittenKey | utils/share.ts:60-72 | a fragment holding only `k=<key>` yields the key exactly when its length is in [10, 128] |
| Share.LeadingQuestionSkipped | utils/share.ts:60-72 | a fragment `?k=<key>` yields the key when its length is allowed, because the constructor skips the `?`, and removing the share parameters drops that fragment |
| Share.PayloadObject | utils/share.ts:104-115 | a payload is written as a JSON object |
| Share.Classify | utils/share.ts:174-198 | an accepted value is truthy, its `v` is the version of the payload read from it, and every payload field is the property of that name; a truthy value with `v` 1 (or 2) is accepted exactly when `m` (or `ct`), `sig`, `id` and `c` are strings and `ts` is a number (the v1 checks are those of `parseLegacyPayload`, utils/share.ts:127-136) |
| Share.ClassifyPayloadObject | utils/share.ts:174-198 | the type checks and version dispatch read back every payload object written |
| Share.UnknownVersionRefused | utils/share.ts:175-186 | a non-numeric `v`, or a number other than 1 or 2, is refused |
| Share.SealedPayload | utils/share.ts:104-115 | the written payload passes both integrity checks and carries the ciphertext, signature and timestamp |
| Share.BuildShareUrl | utils/share.ts:83-125 | a blank message and a trimmed message over 500 units are the two validation errors, and no other failure happens to an invalid message; a link keeps the base address |
| Share.OnlyEncryptionFails | utils/share.ts:83-125 | with a faithful `JSON.stringify` and a finite timestamp, a valid trimmed message fails to share only when encryption fails |
| Share.LinkWritten | utils/share.ts:104-118 | the payload text of a finite timestamp always encodes, so a link is always written for it |
| Share.ParseLegacy | utils/share.ts:127-164 | a v1 payload is accepted exactly when its message is acceptable and both integrity checks pass, and then as written |
| Share.OpenSealed | utils/share.ts:200-231 | a v2 payload opens only when intact, with a key from the fragment that decrypts it to an acceptable message |
| Share.ParseShareUrl | utils/share.ts:166-235 | a parsed link always had an intact payload and an acceptable message; otherwise nothing is returned |
| Share.TamperedRefused | utils/share.ts:200-214 | a payload whose checksum or id is altered is refused, whichever version it claims |
| Share.SealedNeedsKey | utils/share.ts:216-221 | a v2 link without a readable key, or whose key fails to decrypt it, is refused |
| Share.LegacyReadsPlaintext | utils/share.ts:180-181 | a v1 link yields its plaintext as written exactly when it is acceptable and intact |
| Share.DecodeLink | utils/share.ts:117-118 | the token of a built link is found under `s` and read back as the payload |
| Share.TokenIsClean | utils/share.ts:117-118 | the token of non-empty text is non-empty and has no `&` |
| Share.KeyInFragment | utils/share.ts:120-122 | an alphanumeric key written to the fragment is read back when its length is allowed |
| Share.BuiltLink | utils/share.ts:89-124 | a built link came from a valid trimmed message, its encryption under the random key, and the sealed payload |
| Share.ShareRoundTrip | utils/share.ts:83-235 | parsing a built link gives the trimmed message, signature, timestamp and display id, when the cipher is sound, `JSON` faithful, the timestamp finite, the trimmed message free of lone surrogates and the random key at least 10 characters long |
| Share.SealedLinkOpens | utils/share.ts:166-235 | a link for an intact sealed payload opens to what its key decrypts, when that is acceptable |
| Share.ShortKeyLinkUnreadable | utils/share.ts:68 | a link built from 32 bytes of 0xFF never opens |
| Share.NoKeyNoMessage | utils/share.ts:216-219 | without a readable key only a v1 link can open |
| Share.BuildShareUrlChecked | utils/share.ts:97 | the corrected builder refuses exactly the keys the reader would refuse, and otherwise builds the same link |
| Share.CheckedShareRoundTrip | utils/share.ts:83-235 | every link the corrected builder returns opens to the trimmed message, with no assumption on the key |
| Share.RemoveShareParam | utils/share.ts:237-250 | every `s` leaves the query and every `k` the fragment as the constructor reads it; the address and the other parameters stay |
| Share.RemovedLinkCarriesNothing | utils/share.ts:237-250 | after removal the query holds no `s` and the fragment text no `k`, the link no longer parses, other parameters read as before, and the key is unreadable unless the new fragment starts with `?` |
| Share.RemovedKeyResurfaces | utils/share.ts:241-246 | with names kept unescaped, a fragment `??k=<key>` keeps its pair `?k` and is rewritten as `?k=<key>`, whose key the constructor then reads |
| Share.KeyOnlyFragmentDropped | utils/share.ts:245-246 | a fragment holding only `k` parameters is dropped altogether |
| Storage.StoredCiphertext | utils/storage.ts:129-131 | a ciphertext is kept exactly when the item holds a non-empty string under `encryptedMessage` |
| Storage.StoredMessage | utils/storage.ts:134 | the stored message is the trimmed string, or empty when `message` is not a string |
| Storage.NormalizeRecord | utils/storage.ts:123-161 | an item is dropped exactly when it is not an object or has neither message nor password; a kept record is canonical, with ciphertext, password flag and essence as stored |
| Storage.NormalizeKeepsFields | utils/storage.ts:134-149 | a string id is kept and a numeric one printed in decimal; a finite timestamp is kept and any other becomes `now` minus 1000 per index; the message is the trimmed stored one, else the placeholder |
| Storage.NormalizeToJs | utils/storage.ts:123-161 | every canonical record is read back exactly, whatever its index and the clock |
| Storage.KeepFirst | utils/storage.ts:174-182 | the kept records have distinct ids, lose no id, and come from the input |
| Storage.KeepFirstKeepsFirst | utils/storage.ts:179-182 | every kept record is the first in the input with its id |
| Storage.ParseRecords | utils/storage.ts:163-189 | the records read have distinct ids and are canonical; no array gives none |
| Storage.ParseRecordsLoop | utils/storage.ts:174-185 | the single pass with a set of seen ids computes the first-occurrence list of normalised items |
| Storage.ParseEncode | utils/storage.ts:163-189 | writing canonical records with distinct ids and reading them back gives the same list |
| Storage.ParseRecordsStable | utils/storage.ts:163-189 | reading is a normal form: writing what was read and reading again changes nothing |
| Storage.SortDesc | utils/storage.ts:204 | the sort is a permutation into newest-first order |
| Storage.SortStable | utils/storage.ts:204 | records sharing a timestamp keep their relative order |
| Storage.SortSorted | utils/storage.ts:204 | an already sorted list is left as it is |
| Storage.Limit | utils/storage.ts:202-206 | `limitRecords` keeps the first 50 of the sorted list, newest first, taken from the input |
| Storage.LimitIdempotent | utils/storage.ts:202-206 | limiting twice is limiting once |
| Storage.NewestFirst | utils/storage.ts:230 | a record at least as new as every other comes first after limiting |
| Storage.CreatePresets | utils/storage.ts:191-200 | one record per preset, id `preset_<index>`, no password, timestamps an hour apart |
| Storage.PresetsAscending | utils/storage.ts:192-197 | preset timestamps increase, and the last is one hour before `now` |
| Storage.PresetIdsDistinct | utils/storage.ts:194 | distinct preset indices give distinct ids |
| Storage.PresetsCanonical | utils/storage.ts:191-200 | the preset records are canonical with distinct ids, so they survive a write and a read |
| Storage.GetSnowflakes | utils/storage.ts:235-244 | stored records come back limited and unwritten; an empty store is seeded with all presets, which are returned |
| Storage.GetSnowflakeCount | utils/storage.ts:260-262 | the count is 51 for an empty store, which is seeded with the presets as `getSnowflakes` does, otherwise the number of stored records capped at 50 with the slot unchanged |
| Storage.NewRecord | utils/storage.ts:214-228 | the new record is canonical; behind a password it shows only the placeholder and keeps the ciphertext; otherwise it holds the trimmed message |
| Storage.SaveSnowflake | utils/storage.ts:208-233 | nothing is saved exactly when the message is blank and no password is usable; otherwise the new record goes in front and the list is limited |
| Storage.SaveKeepsNewest | utils/storage.ts:230 | at most 50 records are written, with the new one first when no current record is newer |
| Storage.SaveReadsBack | utils/storage.ts:230-231 | what a save writes reads back as the limited list, when the new id is not taken |
| Storage.RemoveId | utils/storage.ts:252 | the filter removes exactly the records with that id and keeps the others |
| Storage.RemoveIdAppend | utils/storage.ts:252 | the filter works record by record: on a concatenation it is the concatenation of the filtered parts |
| Storage.RemoveIdSingleton | utils/storage.ts:252 | a single record is removed exactly when it carries the id, so with `RemoveIdAppend` the result is the input filtered, in order |
| Storage.DeleteSnowflake | utils/storage.ts:246-254 | the empty id changes nothing; any other id writes the current records without it |
| Storage.DeleteReadsBack | utils/storage.ts:246-254 | after a delete the id is gone and every other current record reads back, in order |
| Storage.ClearSnowflakes | utils/storage.ts:256-266 | after clearing, no record can be read |
| Storage.ClearThenGet | utils/storage.ts:256-258 | after clearing, the next read seeds the presets again |
| Storage.ForceLoadPresets | utils/storage.ts:268-277 | when no current record is a preset, the presets are merged with the records and limited; otherwise only the read happens |
| Storage.ForceLoadOnStoredPresets | utils/storage.ts:269-273 | a store that already shows a preset is left unchanged |
| Storage.GetSnowflakesNotIdempotent | utils/storage.ts:235-244 | the first read of an empty store returns 51 records and the next returns 50 |
| Storage.GetSnowflakesCapped | utils/storage.ts:235-244 | the corrected read returns at most 50 records, newest first, and agrees with the source on a non-empty store |
| Storage.GetSnowflakesCappedIdempotent | utils/storage.ts:235-244 | with the corrected read, the read after seeding returns what the seeding read did |
| I18n.Descend | contexts/I18nContext.tsx:18-25 | the walk fails once the value to read from is not an object, and no segments leave the value unchanged |
| I18n.GetNestedValue | contexts/I18nContext.tsx:16-28 | a message is found exactly when the dotted path leads to a string, and it is that string |
| I18n.DescendAppend | contexts/I18nContext.tsx:20-25 | walking two paths in turn is walking their concatenation |
| I18n.SingleSegmentKey | contexts/I18nContext.tsx:16-28 | a key without a dot reads one property of the dictionary |
| I18n.StringHasNoChildren | contexts/I18nContext.tsx:21-22 | below a key naming a string, every longer key finds nothing |
| I18n.DescendNest | contexts/I18nContext.tsx:20-25 | a value is read back along the path it was nested under |
| I18n.NestedRoundTrip | contexts/I18nContext.tsx:16-28 | a dotted key joined from dot-free segments finds the string nested under them |
| I18n.WordRun | contexts/I18nContext.tsx:34 | `\w+` matches the longest run of word characters |
| I18n.Interpolate | contexts/I18nContext.tsx:30-38 | without parameters, or without `{`, the template comes back unchanged |
| I18n.SubstituteNoBrace | contexts/I18nContext.tsx:34-37 | text without `{` is copied unchanged |
| I18n.PlaceholderFilled | contexts/I18nContext.tsx:34-37 | a leading `{name}` is replaced by its value, or kept when it has none, and scanning resumes after it |
| I18n.PlainPrefix | contexts/I18nContext.tsx:34 | text without `{` ahead of the rest is copied and the rest interpolated |
| I18n.SubstituteEmpty | contexts/I18nContext.tsx:36 | an empty parameter object keeps every placeholder as written |
| I18n.InterpolateFills | contexts/I18nContext.tsx:30-38 | a template written as text and placeholders is filled piece by piece |
| I18n.NoRescan | contexts/I18nContext.tsx:34-37 | a value that looks like a placeholder is not expanded again |
| I18n.Toggle | contexts/I18nContext.tsx:69-71 | toggling always changes the locale |
| I18n.ToggleTwice | contexts/I18nContext.tsx:69-71 | toggling twice restores the locale |
| I18n.LocaleTag | contexts/I18nContext.tsx:73 | the tag is the locale name, a hyphen, and a two-letter region |
| I18n.TagsDistinct | contexts/I18nContext.tsx:73 | the two locales have different tags |
| I18n.DetectLocale | contexts/I18nContext.tsx:40-55 | no window means Chinese, and a stored `zh` or `en` decides |
| I18n.DetectReadsSetLocale | contexts/I18nContext.tsx:46-48 | the locale `setLocale` stored is the one detected next, whatever the browser language |
| I18n.DetectFromLanguage | contexts/I18nContext.tsx:54 | without a stored choice, Chinese is chosen exactly for a language starting with `zh` in either case |
| I18n.Message | contexts/I18nContext.tsx:80-82 | the message is the current locale's string, else the Chinese string, else the key |
| I18n.Translate | contexts/I18nContext.tsx:79-84 | without parameters `t` shows the message unchanged |
| I18n.EnglishFallsBack | contexts/I18nContext.tsx:82 | a key missing in English is translated as in Chinese |
| I18n.ChineseIgnoresEnglish | contexts/I18nContext.tsx:80-82 | in Chinese the English dictionary plays no part |
| I18n.MissingKeyEchoes | contexts/I18nContext.tsx:82-83 | a key found nowhere is shown as itself, interpolated, and unchanged when it has no `{` |
| I18n.TranslateNested | contexts/I18nContext.tsx:79-84 | a string stored under a dotted key in the current dictionary is what `t` shows, filled in |

## Left out

- **Image.** The SVG image itself is not modelled: angles, coordinates, stroke widths, the markup, and `size`. Only the counts of draws and lines are modelled. The reason is floating-point trigonometry.
- **Data URL.** The encoding steps of `generateSnowflakeDataURL` are left out: `encodeURIComponent` of the SVG, the base64 fallback and the empty-SVG fallback (utils/snowflakeGenerator.ts:141-157). They depend on the markup, which is not modelled. The seed text of that function is modelled (`Generator.SafeText`).
- Generator.Draw, Generator.GenerateParams: doubles are modelled as exact reals. `Math.floor(d * 5)` and `d * 0.3 + 0.85` are computed without rounding.
- **Cryptographic primitives.** `deriveKey` (PBKDF2-SHA-256, 100000 iterations), AES-GCM sealing and opening, and `crypto.getRandomValues` are abstract. Their effects enter as a `Cipher` value and as random-byte parameters. The asynchrony of Web Crypto is not modelled.
- **`secureDestroy`.** It is not modelled, because overwriting memory has no counterpart in a value model.
- The `console.error` logging in `encrypt`/`decrypt` is I/O and is left out.
- **Storage backends.** `getLocalStorage`, `readStorage`, `writeStorage`, `removeStorage` and the in-memory fallback map are one slot value. The try/catch around `localStorage` is not modelled; neither is the fallback when a write throws.
- **JSON text.** The text form of JSON is abstract. `JSON.parse` of the stored text is the slot value itself, and the share payload's JSON is a `Json` parameter assumed faithful on flat objects.
- **Record fields.** Records are not checked for field order or for extra fields in the stored JSON. JavaScript numbers are modelled as integers and the two infinities; fractional timestamps and exponent notation are not modelled.
- **Prototype properties.** Inherited object properties (such as `toString` on `{}`) are not modelled. Property lookup sees own properties only.
- **`URL` class.** It is abstract. A link is an address, a query text and a fragment text. Percent-encoding and `+`-for-space in `URLSearchParams` are not modelled. The values the core writes (base64url and alphanumerics) are unchanged by them.
- RemovedLinkCarriesNothing: the key is promised unreadable only when the rewritten fragment does not start with `?`. `toString` percent-encodes a `?` in a name as `%3F`, which this model does not, so here a fragment `??k=<key>` reads its key again after removal (Share.RemovedKeyResurfaces), while the source's would not.
- ShareRoundTrip: stated for trimmed messages without lone surrogates and for finite timestamps. `TextEncoder` replaces a lone surrogate by U+FFFD before encryption (utils/encryption.ts:35), so such a message does not come back unchanged; and `JSON.stringify` writes an infinite timestamp as `null`, which the `Json` abstraction does not describe.
- BuildShareUrl: the failure `MalformedPayloadText` (the payload text does not encode to base64url) is kept as an error of the model; with a well-formed `JSON.stringify` it never happens for a finite timestamp (Share.OnlyEncryptionFails).
- UrlParams.Set: carries no contract of its own; its meaning is stated by `UrlParams.GetAfterSet`.
- `createSnowflakeSignature` is not modelled: it formats `Date.now()` and `Math.random()` output, which this model treats as parameters.
- **Clock.** `Date.now()` is read once per operation. The source may read it more than once, for example in `saveSnowflake`'s id and timestamp, and in `normalizeRecord`.
- Storage.NormalizeKeepsFields: a legacy id depends on `now` and the item's index, and the model does not constrain it further.
- **Case mapping.** `toUpperCase`/`toLowerCase` are modelled on ASCII letters only. The core applies them to base-36 digits and to `navigator.language`.
- **Translations file.** i18n/translations.ts is not part of this model: the dictionaries are parameters.
- **React state.** The React provider, `useI18n`, the `document.documentElement.lang` effect and the storage write of `setLocale` (and its ignored failure) are state and I/O.

## Findings

| source | as written | input that shows it | evidently intended | confidence | as-written member | corrected member |
|---|---|---|---|---|---|---|
| utils/share.ts:56-58 | `buildShareKey` keeps only the letters and digits of a random base64 password, with no lower bound on their number, but `readShareKeyFromHash` refuses keys under 10 characters | 32 random bytes all 0xFF: the password is 42 `/` followed by `8=`, and the key is `8`, so the link built carries a key its own reader refuses | every link `buildShareUrl` returns can be opened, so a key under 10 characters is refused or redrawn | not executed | Share.ShortShareKey, Share.ShortKeyLinkUnreadable | Share.BuildShareUrlChecked, Share.CheckedShareRoundTrip |
| utils/storage.ts:241-243 | on an empty store `getSnowflakes` returns and writes all 51 presets without `limitRecords`, although every other path caps the list at 50 | an empty store: the first read returns 51 records, the next read of what it wrote returns 50 | the bootstrap read is capped like every other read, so reading twice gives the same list | not executed | Storage.GetSnowflakesNotIdempotent | Storage.GetSnowflakesCapped, Storage.GetSnowflakesCappedIdempotent |
