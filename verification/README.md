# Sleepy status server: the mutating routes, their gate and their helpers

This project is a Dafny model of the part of the Sleepy status server that
changes stored state, together with the helpers those routes depend on:

- the status route `GET /set?status=<n>` (`routes/set.js`);
- the device routes `GET /api/device/set`, `/add` and `/remove`
  (`routes/device.js`);
- the authentication gate in front of all of them (`utils/auth.js`):
  where the caller's secret is looked for, and the pass/reject decision;
- the failure envelope `{success: false, code, details, message}` and its
  table of reason phrases (`utils/APIUnsuccessful.js`);
- the identifier helpers (`utils/uuidKits.js`): `generateUUID`,
  `generateShortID`, `isValidUUID` and `generateTimeBasedUUID`;
- JavaScript's `parseInt(s, 10)`, which decides what `/set` accepts as a
  status. It follows the ECMAScript definition: leading white space, one
  optional sign, then the longest run of decimal digits.

Every handler is a pure function. It takes the query parameters and the
stored document, where `None` means the read or the JSON parse failed. It
also takes a flag saying whether the write succeeds. It returns an
`Outcome`: the document it wrote, if any, and the response it sends.
`Math.random` draws become input sequences (`Nibble`, `Byte`, `Pick`).
The clock becomes a parameter: a millisecond count for
`generateTimeBasedUUID`, and an opaque formatted string for `last_updated`.
A query parameter that is absent is `None`. JavaScript truthiness of a
present value is `Truthy`, which is false only for the empty string.

Modules:

- `Wrappers` (wrappers.dfy) holds `Option` and `Truthy`.
- `Envelope` (envelope.dfy) holds the reason-phrase table and `APIUnsuccessful`.
- `Uuid` (uuid.dfy) holds the identifier helpers.
- `JsParseInt` (parse_int.dfy) holds `parseInt(s, 10)` and the decimal numeral `String(n)`.
- `Auth` (auth.dfy) holds `extractSecret` and `authMiddleware`.
- `SetStatus` (set_status.dfy) holds the status route.
- `DeviceRoutes` (device.dfy) holds the three device routes.

Points of the code's behaviour that a reader might expect otherwise:

- `/api/device/set` stores `using` as the query text `"true"` or `"false"`
  (routes/device.js:84). `/add` stores the boolean `using === "true"`
  (routes/device.js:196).
- `/add` checks `show_name`, then `using`, then `app_name`
  (routes/device.js:146-177). It reads the store only after all three pass.
- The `id` test is JavaScript falsiness, so an empty `id` gets the same 400
  as a missing one (routes/device.js:32, routes/device.js:248).
- The body secret is consulted only when the method is `POST`
  (utils/auth.js:39).
- `/set` accepts `"12abc"` as 12, because `parseInt` stops at the first
  non-digit (routes/set.js:40).

## Model

| member | source | states |
|---|---|---|
| Envelope.ReasonPhrase | utils/APIUnsuccessful.js:14-57 | A code has a phrase exactly when it is one of the 39 listed codes. Every listed code is in 400..451 or 500..511, and every phrase is non-empty. |
| Envelope.APIUnsuccessful | utils/APIUnsuccessful.js:59-66 | The envelope is never a success and echoes the code and message. `details` is the table's phrase for the code, and it is absent exactly for codes outside the table. |
| Envelope.RouteCodesPhrases | utils/APIUnsuccessful.js:16-46 | The codes the routes use (400, 401, 404, 500) have their standard phrases. 200 and 419 have none. |
| Uuid.VariantNibble | utils/uuidKits.js:16 | `(r & 0x3) \| 0x8` always lies in 8..11 and keeps the two low bits of `r`. |
| Uuid.Fill | utils/uuidKits.js:12-19 | The replace callback keeps every non-placeholder character. Each `x` becomes a lower-case hex digit and each `y` becomes one of `8`, `9`, `a`, `b`. Which draw each placeholder takes is stated by `FillDraws`. |
| Uuid.FillDraws | utils/uuidKits.js:12-19 | The callback runs once per placeholder, left to right, so the placeholder at index `i` takes draw number "placeholders before `i`". An `x` becomes that draw's hex digit. A `y` becomes the digit of the draw masked with `(r & 0x3) \| 0x8`. |
| Uuid.FillDrawAt | utils/uuidKits.js:12-19 | The same, for one index. |
| Uuid.TemplateDrawCount | utils/uuidKits.js:12 | `DrawsBefore(n)` is the number of placeholders among the first `n` characters of the literal template. |
| Uuid.DrawPosition | utils/uuidKits.js:12 | Each of the 31 draws fills exactly one index of the template. Draw 15 fills index 19. No draw fills a hyphen or the `4`. |
| Uuid.TemplateDraws | utils/uuidKits.js:12-19 | In the filled template, index 19 is the masked draw 15, and every other filled index `i` is the digit of draw `DrawsBefore(i)`. |
| Uuid.GenerateUUID | utils/uuidKits.js:10-20 | The identifier has 36 characters, with hyphens at 8, 13, 18 and 23. The version digit `4` is at 14, and lower-case hex is everywhere else. Index 19 is the variant digit of draw 15, from `89ab`. Every other hex index `i` is the digit of draw `DrawsBefore(i)`, so draws are consumed left to right. |
| Uuid.GenerateUUIDSame | utils/uuidKits.js:10-20 | Two lists of draws give the same identifier if and only if they agree on every draw except 15, and agree on draw 15 up to its two low bits. |
| Uuid.IsValidUUID | utils/uuidKits.js:45-53 | The anchored, case-insensitive pattern accepts exactly the strings of the positional shape: 36 characters, hyphens at the four group boundaries, a version digit 1-5, a variant digit 8/9/a/b in either case, and hex elsewhere. A missing value or a non-string is rejected. |
| Uuid.PatternIffShape | utils/uuidKits.js:50-52 | The regular expression, read as a sequence of character-class terms, matches a string if and only if the string has the positional shape. |
| Uuid.GeneratedUUIDIsValid | utils/uuidKits.js:10-20 | Every identifier generateUUID can produce passes isValidUUID, whatever the random draws. |
| Uuid.AlphabetAt | utils/uuidKits.js:28-29 | The literal 62-character alphabet has, at each position, the character given independently by code points: digits, then lower-case letters, then capitals. |
| Uuid.AlphabetIsAlphanumerics | utils/uuidKits.js:28-29 | A character is in the alphabet if and only if it is an ASCII letter or digit, and no character appears twice. |
| Uuid.ShortIDLength | utils/uuidKits.js:27-32 | The length defaults to 8 when it is not given. The loop runs zero times when the length is not positive. |
| Uuid.GenerateShortID | utils/uuidKits.js:27-38 | The ID has exactly the effective length. Its `i`-th character is the alphabet entry of the `i`-th draw, so every character is an ASCII letter or digit. |
| Uuid.ToHexStringLength | utils/uuidKits.js:62 | `n.toString(16)` is a non-empty lower-case hex numeral with no superfluous leading digit: `16^(len-1) <= n < 16^len` unless it is the single digit. |
| Uuid.PaddedHexIsFixed | utils/uuidKits.js:62 | For a value that fits in `w` digits, padding its shortest numeral with zeros to width `w` gives the `w`-digit positional numeral. |
| Uuid.TimeHex | utils/uuidKits.js:62 | The padded time numeral has at least 16 characters, all lower-case hex digits. Below 16^16 it is exactly the 16-digit numeral of the timestamp. |
| Uuid.ByteHex | utils/uuidKits.js:70 | `b.toString(16).padStart(2, "0")` is two characters: the digit of the byte's high nibble, then the digit of its low nibble. |
| Uuid.RandomHex | utils/uuidKits.js:65-71 | The joined string has two characters per byte. Characters `2k` and `2k + 1` are the digits of the high and low nibble of the `k`-th byte. |
| Uuid.RandomHexIsLowerHex | utils/uuidKits.js:69-71 | Every character of the joined string is a lower-case hex digit. |
| Uuid.RandomHexDecodes | utils/uuidKits.js:65-71 | The joined string loses nothing: the pair at `2k`, read back as hex, is the `k`-th byte. |
| Uuid.FixedHexSplit | utils/uuidKits.js:62-75 | The first `a` of `a + b` padded digits are the numeral of the value with its `b` low digits dropped, and the rest are its `b` low digits. |
| Uuid.GenerateTimeBasedUUID | utils/uuidKits.js:59-84 | The identifier has the generateUUID shape: hyphens, version `4`, variant in `89ab`, lower-case hex. Its first twelve digits are the first twelve of the 16-digit padded time numeral. After the `4` come random digits 1-3. Index 19 is the mask of the high nibble of byte 2, which is random digit 4. Then come random digits 5-7, and the node group is random digits 8-19. |
| Uuid.AssembleGroupsRandom | utils/uuidKits.js:76-83 | In the template literal, the version group carries `randomHex[1..4]` and the variant group the masked `randomHex[4]` followed by `randomHex[5..8]`. The node group is `randomHex[8..20]`. |
| Uuid.TimeBasedUnusedBytes | utils/uuidKits.js:65-80 | The high nibble of byte 0 and bytes 10-15 are drawn but never change the identifier. Byte lists that agree on the rest give the same identifier. |
| Uuid.RandomHexMiddle | utils/uuidKits.js:69-71 | Digits 1-19 of the joined string are the low digit of byte 0 followed by the joined bytes 1-9. |
| Uuid.RandomHexAppend | utils/uuidKits.js:69-71 | Mapping and joining distributes over concatenation of the byte lists. |
| Uuid.AssembleGroupsSameDigits | utils/uuidKits.js:76-83 | The assembled identifier reads only digits 1-19 of the joined random string. |
| Uuid.TimeBasedUUIDIsValid | utils/uuidKits.js:59-84 | Every identifier generateTimeBasedUUID can produce passes isValidUUID. |
| Uuid.TimeBasedUUIDTimeValue | utils/uuidKits.js:62-75 | The twelve time digits are the numeral of `time / 65536`. |
| Uuid.TimeBasedUUIDCoarse | utils/uuidKits.js:74-75 | Two clock readings with the same quotient by 65536 give the same identifier for the same random bytes. |
| Uuid.TimeBasedUUIDCollision | utils/uuidKits.js:62-75 | Two readings whose quotient by 65536 is the same, and below 16^7, give the same identifier, whose first five digits are zero. |
| Uuid.TimeBasedUUIDCollisionExample | utils/uuidKits.js:74-75 | 1700000000000 and 1700000000001 give the same identifier, and that identifier starts with five zeros. |
| Uuid.FixedHexInjective | utils/uuidKits.js:62 | Distinct values that fit in `w` digits have distinct `w`-digit numerals. |
| Uuid.LowDigitsAreTimestamp | utils/uuidKits.js:62 | Below 16^12, the twelve low digits of the padded time numeral are the 12-digit numeral of the timestamp itself. |
| Uuid.GenerateTimeBasedUUIDLowDigits | utils/uuidKits.js:74-75 | The corrected generator puts the twelve low time digits in the first two groups. |
| Uuid.LowDigitsDistinguishTimes | utils/uuidKits.js:59-84 | With the corrected digits, distinct timestamps below 16^12 give distinct identifiers for the same random bytes, and the result still passes isValidUUID. |
| JsParseInt.TrimStart | routes/set.js:40 | The white space parseInt skips is a prefix made only of white space, and what remains does not start with white space. |
| JsParseInt.DigitPrefix | routes/set.js:40 | The digits read form the longest run of decimal digits at the front. |
| JsParseInt.ParseIntOfIntString | routes/set.js:40-48 | `parseInt(String(n) + t) == n` for every integer `n` and every `t` that does not start with a digit. |
| JsParseInt.ParseIntSkipsWhiteSpace | routes/set.js:40 | Leading white space never changes the result. |
| JsParseInt.ParseInt | routes/set.js:40-41 | The result is NaN exactly when no digit follows the leading white space and one optional sign. Its value on every other input is stated by `ParseIntValue`. |
| JsParseInt.ParseIntValue | routes/set.js:40 | For white space `w`, a sign that is empty, `+` or `-`, a non-empty digit run `z` (leading zeros allowed) and text `t` that does not start with a digit, `parseInt(w + sign + z + t)` is the decimal value of `z`, negated for `-`. |
| JsParseInt.ParseSignedDigits | routes/set.js:40 | After the white space: an optional sign, a digit run and non-digit text read as the run's value, negated only for `-`. |
| JsParseInt.ParseIntPlusSign | routes/set.js:40 | `"+5"` reads as 5. |
| JsParseInt.ParseIntLeadingZeros | routes/set.js:40 | `"007"` reads as 7. |
| JsParseInt.ParseIntNegativeZero | routes/set.js:40 | `"-0"` reads as 0. |
| JsParseInt.ParseIntTrailingText | routes/set.js:40 | `"12abc"` reads as 12. |
| JsParseInt.ParseIntSignAndSpace | routes/set.js:40 | `" \t-7"` reads as -7. |
| JsParseInt.ParseIntHexPrefix | routes/set.js:40 | With radix 10, `"0x1A"` reads as 0. |
| JsParseInt.ParseIntNaNExamples | routes/set.js:40-41 | `"abc"`, `"-"`, `"+x"` and `""` are NaN. |
| Auth.ExtractSecret | utils/auth.js:19-44 | The search finds nothing exactly when no channel offers a candidate. Otherwise the highest-precedence channel with a candidate decides. The order is: query parameter, `sleepy-secret` header, the remainder of an `Authorization` header starting with `Bearer `, and the body field of a POST. |
| Auth.AuthMiddleware | utils/auth.js:52-96 | An unconfigured secret gives 500. No extracted secret, or an empty one, gives 401 with the no-secret message. A different secret gives 401 with the incorrect-secret message. The request passes if and only if the secret is configured and equals the extracted one. |
| Auth.SecretInAnyChannelPasses | utils/auth.js:19-44 | The correct secret sent in any single channel is accepted. |
| Auth.UnconfiguredRejectsAll | utils/auth.js:53-63 | Without a configured secret every request gets the 500 configuration error. |
| Auth.HigherChannelShadowsLower | utils/auth.js:19-44 | A wrong secret in a higher-precedence channel is rejected even when a lower channel carries the right one. |
| Auth.EmptyBearerStopsSearch | utils/auth.js:31-36 | `Authorization: Bearer ` with nothing after it yields the empty secret, so the body is not read and the request is refused as carrying no secret. |
| Auth.LowerCaseBearerIgnored | utils/auth.js:33 | The prefix test is case-sensitive: `bearer x` offers nothing. |
| Auth.BodyOnlyForPost | utils/auth.js:39-41 | For a method other than POST, the body field has no effect. |
| SetStatus.HandleSet | routes/set.js:27-90 | Each error case is checked in order: missing or empty status gives 400, a non-number gives 400, a failed read gives 500, a failed write gives 500. A write happens exactly when all checks pass. It writes the stored document with only `status` and `last_updated` replaced, and answers `{success: true, code: "OK", set_to: n}`. |
| SetStatus.SetThenRead | routes/set.js:40-90 | Setting any integer written in decimal and reading back gives that integer and the new time, with every other field unchanged. The answer is 200 with `set_to` equal to that integer. |
| SetStatus.FailureChangesNothing | routes/set.js:30-83 | Every failure leaves the stored document as it was. |
| SetStatus.NonNumericRefused | routes/set.js:40-48 | `status=abc` is refused with 400, whatever the store holds. |
| SetStatus.TrailingTextAccepted | routes/set.js:40-48 | `status=12abc` is accepted and sets 12. |
| DeviceRoutes.FindIndex | routes/device.js:55-58 | The result is -1 exactly when no device has the id. Otherwise it is the first device with that id. |
| DeviceRoutes.HandleSet | routes/device.js:29-122 | The checks run in order: missing id gives 400, read failure 500, unknown id 404, non-boolean `using` 400, write failure 500. On success only the first matching device changes. Its id is kept. Each present parameter, even an empty one, overwrites its field, and `using` is kept as text. Every other stored field of the device is carried over unchanged. The response carries the updated device. |
| DeviceRoutes.HandleAdd | routes/device.js:143-224 | The checks run in order: missing show_name gives 400, then `using` not exactly `"true"`/`"false"` gives 400, then missing app_name gives 400, then read or write failure gives 500. On success the new device, with a generated id and a boolean `using`, is appended. The response carries it and its id, which passes isValidUUID. |
| DeviceRoutes.HandleRemove | routes/device.js:245-314 | The checks run in order: missing id gives 400, read failure 500, unknown id 404, write failure 500. On success exactly the first matching device is spliced out, leaving the rest in order (one shorter, the same multiset minus that device). The response carries the deleted device. |
| DeviceRoutes.SetKeepsIds | routes/device.js:73-101 | `/set` never changes the id column, so unique ids stay unique. |
| DeviceRoutes.SetIdempotent | routes/device.js:29-122 | Repeating a successful `/set` with the same parameters writes the same list again. |
| DeviceRoutes.AddKeepsUniqueIds | routes/device.js:190-201 | When the generated id is new to the list, `/add` keeps ids unique and grows the list by one. |
| DeviceRoutes.RemoveDeletesTheId | routes/device.js:270-292 | With unique ids, after `/remove` no device has the removed id and ids stay unique. |
| DeviceRoutes.RemoveKeepsLaterDuplicate | routes/device.js:272-292 | When ids are duplicated, only the first match is removed, so a later device with the same id stays. |
| DeviceRoutes.AddThenRemove | routes/device.js:143-314 | Adding a device, then removing it by the id `/add` returned, gives back the original list, provided the new id was not already in it. |

## Left out

- File I/O and JSON are not modelled. The read is an input that is `None` on any failure, and the write is a success flag. What the write serialises is the `written` value.
- The outer `try`/`catch` that answers 500 "An error occurred while processing your request" is not modelled. In routes/device.js it fires when the stored document is not an array, so that `findIndex` is missing (line 56), or when an element scanned before the match is `null`, so that `device.id` throws (line 57). In routes/set.js it fires when the stored document is `null` (line 62). The typed store (a list of `Device` records, and a record for the status document) cannot hold such values.
- A stored device is a record with a string `id`, `show_name` and `app_name`, a `using` that is text or a boolean, and every other field in `others`. The values in `others` are strings, where the store may hold any JSON value. They are only carried through, so their type does not change any outcome. A device stored without an `id` never matches (routes/device.js:57). The model represents it by an empty `id`, which never matches either, because an empty query id is refused first. A device missing `show_name`, `using` or `app_name` cannot be represented, although the spread copy at routes/device.js:73 would carry the gap through.
- Auth.ExtractSecret: the body secret is a string or absent. `express.json()` (index.js:41) lets `req.body.secret` be any JSON value. A truthy non-string is returned by utils/auth.js:39-40 and always fails the `!==` test at utils/auth.js:80, so the request is refused as carrying an incorrect secret. The model's field cannot hold such a value.
- Logging is not modelled. That includes `auth.js:85-86`, which writes both the supplied and the expected secret to the log on a mismatch.
- `last_updated` is the clock formatted in the zh-CN locale with slashes replaced. It is an opaque string parameter, so "later than before" is not stated.
- `Math.random` and `Date.now` are parameters.
- Express is not modelled: routing, header-name case folding, and query parameters given more than once (which arrive as arrays).
- `auth.js` builds its envelopes with `./apiResponse`, which is not part of this model. Its rejections are modelled as a status code and message only.
- `routes/query.js`, `routes/status.js`, `index.js`, `check-errors.js`, `utils/logger.js` and `utils/metaInfo.js` are outside the modelled core.
- Concurrent requests are not modelled. Two overlapping read-modify-write cycles can lose an update.
- JsParseInt.ParseInt: values are unbounded integers. Beyond 2^53 JavaScript rounds to the nearest double, and the model does not. JavaScript's `parseInt("-0")` is the double -0, which the model reads as the integer 0. Neither is NaN for the `isNaN` test at routes/set.js:41, and JSON writes both as `0`.
- Uuid.GenerateShortID: models an integer length or an absent one. A fractional length such as 2.5, which rounds the loop count up, and non-numeric lengths are not modelled.
- Uuid.GenerateTimeBasedUUID: the timestamp is a natural number. Clock readings before 1970 would make `toString(16)` emit a minus sign, and that is not modelled.
- Uuid.GenerateTimeBasedUUIDLowDigits: its own contract states only the length and the time digits. Shape and validity are stated by `LowDigitsDistinguishTimes`.

## Findings

| source | as written | input that shows it | evidently intended | confidence | as-written member | corrected member |
|---|---|---|---|---|---|---|
| utils/uuidKits.js:74-75 | The time groups are `timeHex.substr(0, 8)` and `timeHex.substr(8, 4)`, the twelve HIGH digits of the 16-digit padded timestamp. Present-day timestamps have only 11 significant hex digits, so the first five are always `0`, and the low four digits (65536 ms) are dropped. | Timestamps 1700000000000 and 1700000000001 with the same random bytes give the same identifier, which starts `00000`. | The twelve LOW digits, `timeHex.substr(4, 12)`, so that the identifier records the millisecond. | medium; not executed | Uuid.TimeBasedUUIDCollisionExample | Uuid.LowDigitsDistinguishTimes |
