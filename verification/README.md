# JSON Pointer engine (`SoftInvest\Json\Pointer`) in Dafny

This project models the PHP class `SoftInvest\Json\Pointer`. The class
wraps a decoded JSON document and reads (`get`) or overwrites (`set`) the
value that a JSON Pointer (RFC 6901) designates. The model follows the code
branch by branch, including the places where the code departs from
RFC 6901:

- The pointer is split on `/` before `urldecode` runs. So `%2F` stays
  inside its token, `+` becomes a space, and a `%` without two hex digits
  after it is kept.
- `str_replace(['~1','~0'], ['/','~'])` replaces every `~1` first, then
  every `~0`. So `~01` stands for `~1`.
- A token selects a list element only when it is a decimal numeral in
  bounds with no sign and no leading zero (`isset`/`array_key_exists` on a
  PHP list).
- On a list, `-` selects the last element, and the tokens after it are
  ignored.
  - On an empty list, `get` yields `false` (`end([])`).
  - On an empty list, `set` writes nothing and does not fail. RFC 6901
    says `-` names an element that does not exist. The model follows the
    code.
- A `null` list element ends the walk whatever tokens follow: `get`
  returns `null` and `set` overwrites it (the `array_key_exists … === null`
  branch). A `null` object member is not stepped through.
- Any other walk that cannot go on is a `NonexistentValue` error, carrying
  the pointer that was fed.

The modules:

- `JsonValue` holds the decoded document (`Json`), paths of concrete
  steps, `At` (the value on a path) and `Update` (the document after
  writing one path). `Update` is what PHP's by-reference writes in
  `traverset` amount to.
- `PointerSyntax` covers `validatePointer` and the token pipeline
  `explode` → `urldecode` → `array_slice(…, 1)` → `evaluatePointerParts`.
  It also has `urlencode` and RFC 6901 escaping, as the inverse direction
  (`Compose`).
- `Walker` has `traverse` as the function `Traverse` and `traverset` as
  the recursive method `Traverset`. The method uses the counting `foreach`
  of the `-` branch (`OverwriteLast`). Both are proved against `Locate`,
  the slot both walkers resolve. `RfcLocate` is a reference evaluator that
  follows RFC 6901 section 4 strictly, and it is compared with `Locate`.
- `JsonPointer` has `GetValue` and `SetValue` (what `get` and `set`
  compute) and the class `Pointer`:
  - fields `json` and `pointer`;
  - `Open` (the constructor's walkability check);
  - `Get`, `Set` and `GetPointer`.
  `Get` and `Set` record the pointer as soon as it is validated, so it is
  recorded even when the walk fails.
- `PointerCases` states the library's own test expectations on the model.
  It also covers `null` and `-` edge cases of the code.

## Model

| member | source | states |
|---|---|---|
| JsonValue.WithChild | src/Pointer.php:229-237 | replacing one child keeps every key of an object and the length of a list, and the replaced child reads back as the new value |
| JsonValue.Update | src/Pointer.php:227-269 | a write below the root keeps the root's keys (object) or length (list); a scalar root is unchanged |
| JsonValue.UpdateThenAt | src/Pointer.php:227-238 | after writing `v` at an existing path, reading that path gives `v` |
| JsonValue.UpdateElsewhere | src/Pointer.php:223-275 | a write leaves every path that is neither a prefix nor an extension of the written path unchanged |
| JsonValue.UpdateAlongPath | src/Pointer.php:232-241 | every container on the written path keeps its keys or length, and the container there becomes its old value with the rest of the path written |
| PointerSyntax.Message | src/Pointer.php:139-143 | the nonexistent-value message carries the fed pointer verbatim between a fixed 14-character opening and a fixed 32-character closing |
| PointerSyntax.MessageIdentifiesPointer | src/Pointer.php:139-143 | the nonexistent-value message identifies the fed pointer: two messages are equal only when their pointers are |
| PointerSyntax.ValidatePointer | src/Pointer.php:85-96 | accepts exactly a string whose first character is `/`; a non-string gives "Pointer is not a string", any other string (the empty one too) gives "Pointer starts with invalid character" |
| PointerSyntax.Split | src/Pointer.php:74-77 | `explode('/')` yields one more piece than there are separators, and no piece holds a separator |
| PointerSyntax.SplitJoin | src/Pointer.php:74-77 | splitting the `/`-joined pieces gives the pieces back |
| PointerSyntax.UrlDecode | src/Pointer.php:74-77 | `urldecode` never lengthens a string and copies one with no `%` and no `+` |
| PointerSyntax.UrlDecodeEncode | src/Pointer.php:74-77 | `urldecode` inverts `urlencode` on every byte string |
| PointerSyntax.UnescapeEscape | src/Pointer.php:159-169 | the `~1`-then-`~0` replacement order undoes RFC 6901 escaping for every key |
| PointerSyntax.FirstPassOfEscape | src/Pointer.php:161-166 | the `~1` pass over an escaped key restores its `/` and leaves its `~0` alone |
| PointerSyntax.SecondPassOfEscape | src/Pointer.php:161-166 | the `~0` pass then restores every `~` |
| PointerSyntax.Tokenize | src/Pointer.php:74-78 | a pointer yields one reference token per `/` |
| PointerSyntax.ComposeTokenize | src/Pointer.php:74-78 | escaping and percent-encoding any byte-string tokens gives a pointer that tokenizes back to exactly those tokens |
| PointerSyntax.SinglePiece | src/Pointer.php:74-77 | a piece with no `/` is one token, whatever it percent-decodes to |
| PointerSyntax.TokenizeJoin | src/Pointer.php:74-77 | a pointer built from `/`-free pieces tokenizes piece by piece |
| PointerSyntax.PlainToken | src/Pointer.php:74-78 | a piece with no `%`, `+` or `~` is its own token |
| PointerSyntax.PlainPointer | src/Pointer.php:74-78 | a pointer of such pieces has the pieces as its tokens |
| PointerSyntax.DecodeEscapedSlash | src/Pointer.php:159-169 | `~1` inside a piece decodes to `/` |
| PointerSyntax.DecodeEscapedTilde | src/Pointer.php:159-169 | `~0` inside a piece decodes to `~` |
| PointerSyntax.DecodeTildeOne | src/Pointer.php:161-166 | `~01` decodes to `~1`, never to `/` |
| PointerSyntax.DecodeEncodedSlash | src/Pointer.php:74-77 | `%2F` inside a piece decodes to `/` |
| PointerSyntax.DecodePlus | src/Pointer.php:74-77 | `+` inside a piece decodes to a space |
| PointerSyntax.DecodeStrayPercent | src/Pointer.php:74-77 | a `%` without two hex digits after it is kept |
| PointerSyntax.EncodedSlashStaysInToken | src/Pointer.php:74-77 | `/x%2Fy` is the single token `x/y`, because decoding follows splitting |
| PointerSyntax.EscapedKeyPointer | src/Pointer.php:74-78 | `/` followed by an escaped key with no `%` or `+` has that key as its only token |
| Walker.ArrayIndex | src/Pointer.php:110 | a token selects only an index below the list length |
| Walker.ArrayIndexIff | src/Pointer.php:110 | a token selects element `i` if and only if `i` is in bounds and the token is the decimal numeral of `i` |
| Walker.DecimalIsCanonical | src/Pointer.php:110 | the decimal numeral of every index is a canonical index string with that value |
| Walker.CanonicalIsDecimal | src/Pointer.php:110 | every canonical index string is the decimal numeral of its value |
| Walker.Locate | src/Pointer.php:106-144 | a located slot uses between one and all of the tokens and exists in the document |
| Walker.TraverseReadsLocation | src/Pointer.php:106-144 | `traverse` returns exactly the value at the located slot (`false` for `-` on an empty list) and fails exactly when no slot is located |
| Walker.OverwriteLast | src/Pointer.php:252-263 | the counting loop overwrites the last element and nothing else; an empty list is unchanged |
| Walker.Traverset | src/Pointer.php:223-275 | the written tree is the document with the located slot updated; for `-` on an empty list it is the unchanged document; with no slot it is a failure |
| Walker.LocateAfterUpdate | src/Pointer.php:223-275 | after a write through a fully used token list, the same tokens still locate the same slot |
| Walker.ReadAfterWrite | src/Pointer.php:223-275 | `traverse` after `traverset` with the same fully used tokens reads the written value |
| Walker.RfcAgreement | src/Pointer.php:106-144 | whenever RFC 6901 evaluation resolves the tokens, the engine locates the same slot |
| Walker.LocateIsRfcOfPrefix | src/Pointer.php:106-144 | without `-`, the engine's slot is the RFC 6901 slot of a prefix of the tokens, and a walk that stops before the last token stops at a `null` list element |
| Walker.EarlyStopIsElement | src/Pointer.php:110-137 | a walk that stops before the last token stops at a list element, and that element is `null` or was reached by the token `-`; a mapping member never ends it early, whatever its value |
| Walker.NullElementEndsWalk | src/Pointer.php:136-137 | once a prefix of the tokens leads, as RFC 6901 reads it, to a `null` list element, the walk ends there whatever tokens follow |
| JsonPointer.GetValue | src/Pointer.php:62-79 | the empty pointer yields the document; validation errors pass through; a nonexistent-value error carries the fed pointer |
| JsonPointer.SetValue | src/Pointer.php:179-197 | the empty pointer changes nothing; validation errors pass through; a nonexistent-value error carries the fed pointer |
| JsonPointer.ValidPointerHasTokens | src/Pointer.php:74-78 | a validated pointer has at least one token |
| JsonPointer.GetSetSameOutcome | src/Pointer.php:106-144 | `get` and `set` with the same pointer both succeed or both fail with the same error |
| JsonPointer.SetThenGet | src/Pointer.php:179-197 | a `set` through a fully used pointer is read back by `get` |
| JsonPointer.SetWritesOneSlot | src/Pointer.php:223-275 | a successful `set` updates one existing slot below the root or nothing; the root stays walkable with the same keys or length |
| JsonPointer.GetAgreesWithRfc | src/Pointer.php:62-79 | for a pointer composed from tokens that RFC 6901 resolves, `get` returns the value RFC 6901 designates |
| JsonPointer.Pointer.constructor | src/Pointer.php:31-42 | a walkable document is stored and no pointer is recorded yet |
| JsonPointer.Pointer.Open | src/Pointer.php:39-53 | construction succeeds if and only if the root is a list or an object; otherwise it fails with NonWalkableJson |
| JsonPointer.Pointer.Get | src/Pointer.php:62-79 | returns `GetValue` of the stored document and records a validated pointer, even when the walk then fails |
| JsonPointer.Pointer.Set | src/Pointer.php:179-197 | stores `SetValue`'s document on success and leaves the document unchanged on failure; records a validated pointer; the document stays walkable |
| PointerCases.GetEscapedKey | tests/Json/PointerTest.php:240-241 | a key written with `~1`/`~0` escapes is found by `get` |
| PointerCases.NestedNotEscaped | tests/Json/PointerTest.php:242 | `/a/b/c` walks the nested members to 12 although the document also has the key `a/b/c` |
| PointerCases.EscapedSlashes | tests/Json/PointerTest.php:240 | `a/b/c` is written `a~1b~1c` |
| PointerCases.EscapedTilde | tests/Json/PointerTest.php:241 | `m~n` is written `m~0n` |
| PointerCases.EscapedSlash | tests/Json/PointerTest.php:312 | `a/b` is written `a~1b` |
| PointerCases.SlashesInKey | tests/Json/PointerTest.php:240 | `/a~1b~1c` gives 1, the member with the key `a/b/c` |
| PointerCases.TildeInKey | tests/Json/PointerTest.php:241 | `/m~0n` gives 8, the member with the key `m~n` |
| PointerCases.RfcSlash | tests/Json/PointerTest.php:312 | `/a~1b` gives 1 |
| PointerCases.RfcTilde | tests/Json/PointerTest.php:318 | `/m~0n` gives 8 |
| PointerCases.RfcFoo | tests/Json/PointerTest.php:309 | `/foo` gives `["bar","baz"]` |
| PointerCases.RfcFooZero | tests/Json/PointerTest.php:310 | `/foo/0` gives `"bar"` |
| PointerCases.RfcRootKey | tests/Json/PointerTest.php:311 | `/` gives the member with the empty key |
| PointerCases.RfcCaret | tests/Json/PointerTest.php:314 | `/e^f` gives 3 |
| PointerCases.RfcBar | tests/Json/PointerTest.php:315 | `/g\|h` gives 4 |
| PointerCases.RfcQuote | tests/Json/PointerTest.php:316 | `/k"l` gives 6 |
| PointerCases.RfcSpace | tests/Json/PointerTest.php:317 | `/ ` gives 7 |
| PointerCases.DeepIndex | tests/Json/PointerTest.php:186-192 | `/categories/a/a2/1` gives `"a2b"` |
| PointerCases.DeepLast | tests/Json/PointerTest.php:285-291 | `/categories/a/a2/-` gives the last element `"a2b"` |
| PointerCases.DeepMissing | tests/Json/PointerTest.php:329 | `/categories/b` is a nonexistent value |
| PointerCases.FieldAfterIndexFirst | tests/Json/PointerTest.php:228 | `/foo/bar/baz/0/bar` steps into a mapping after a list index and gives `"baz"` |
| PointerCases.FieldAfterIndexSecond | tests/Json/PointerTest.php:229 | `/foo/bar/baz/1/bar` gives `"qux"` |
| PointerCases.GetLast | tests/Json/PointerTest.php:292-298 | `/a2/-` gives `"a2c"` |
| PointerCases.SetLast | src/Pointer.php:252-263 | `set('/a2/-', "w")` overwrites the last element only |
| PointerCases.GetLastOfEmpty | src/Pointer.php:132-133 | `-` on an empty list reads `false` |
| PointerCases.SetLastOfEmpty | src/Pointer.php:252-262 | `-` on an empty list writes nothing and does not fail |
| PointerCases.StoredNull | tests/Json/PointerTest.php:175-181 | a stored `null` is returned as a value |
| PointerCases.MissingUnderObject | tests/Json/PointerTest.php:330 | `/a/b/d` under `{"c":null}` is a nonexistent value |
| PointerCases.GetThroughNullElement | src/Pointer.php:136-137 | `get` returns a `null` list element although tokens follow it |
| PointerCases.SetThroughNullElement | src/Pointer.php:266-268 | `set` overwrites a `null` list element although tokens follow it |
| PointerCases.NullValueIsNotWalked | src/Pointer.php:117-123 | a `null` object member is not stepped through |
| PointerCases.IndexInRange | tests/Json/PointerTest.php:140-146 | `/3` gives the fourth element |
| PointerCases.EmptyObjectStaysObject | tests/Json/PointerTest.php:87-95 | `/foo` gives the member as a mapping, and its empty member `{}` stays a mapping |
| PointerCases.WideIndex | tests/Json/PointerTest.php:151-157 | `/3` gives the fourth element `"第二个"` whole |
| PointerCases.IndexOutOfRange | tests/Json/PointerTest.php:328 | `/6` on five elements is a nonexistent value |
| PointerCases.BelowScalar | tests/Json/PointerTest.php:331 | `/foo/boo` below a string is a nonexistent value |
| PointerCases.LeadingZeroIsNotAnIndex | src/Pointer.php:110 | `/01` does not select element 1 |
| PointerCases.InvalidPointers | tests/Json/PointerTest.php:271-277 | `*`, `#` and a non-string are rejected with their messages, by `set` too |
| PointerCases.StatusOne | tests/Json/PointerTest.php:129-135 | `/status/1` gives `"started"` |
| PointerCases.EngineRecordsFedPointer | tests/Json/PointerTest.php:116-124 | the engine refuses a scalar or null root, answers `/status/1`, and `getPointer` then returns the fed pointer |

## Left out

- JSON text is not modelled. The constructor's `json_decode`, its
  InvalidJson exception (src/Pointer.php:33-37), `toArray` and `getJSON`
  (src/Pointer.php:202-213) are left out. The model starts from the decoded
  document (`Pointer.Open`).
- `get('')` re-encodes the whole document with `json_encode` and returns
  the text. `GetValue` returns the document itself, because encoding is
  not modelled.
- The `_empty_` branches (src/Pointer.php:124-131, 243-251) are left out.
  In the source they fire on every PHP version when an object has a member
  literally named `_empty_` and the token is `""` or `"0"` (both `empty`)
  without being a key itself. So on `{"_empty_":1}`, `get('/')` and
  `get('/0')` return 1 and `set('/', v)` overwrites that member. The model
  treats `_empty_` as an ordinary key and reports `NonexistentValue` in
  these cases.
- Object keys are matched by exact string equality. The loose comparison
  of `in_array` (src/Pointer.php:117, 235) is left out. Under it a token
  such as `01` or `1.0` matches a key `1`. `get` then reads the undefined
  property `01` and returns `null` (src/Pointer.php:119). `set` assigns
  `$json->{'01'}` (src/Pointer.php:237) and so adds a new key.
- SetWritesOneSlot: states that `set` creates no key. That holds for the
  model's exact key matching; the source's loose match above lets `set`
  add a key, which the model does not capture.
- The `count($json) < $pointerPart` branches (src/Pointer.php:134, 264)
  are not modelled separately. They only skip the null-element branch for
  tokens that cannot name an existing element, so the outcome is the same.
- JSON numbers are integers (`Num(int)`). Floating-point values are left
  out.
- PHP objects are handles. The model's document is a tree of values, so
  three effects of sharing are not modelled. A `stdClass` that `get`
  returns is the engine's own object, and the caller's later writes to it
  change the engine's document. A `stdClass` given to `set` stays the
  caller's handle, so the caller's later writes reach the stored value.
  A value written by `set` may share an object with another part of the
  document.
- `set` takes any PHP value (`mixed $valueToSet`, src/Pointer.php:218-223).
  The model's value is a `Json`. A PHP associative array given to `set`,
  which a later walk would step through by the `is_array` rules, is not
  modelled.
- Exceptions are `Result`/`Option` values. Their messages are kept
  (`PointerSyntax.Message`).
- Characters stand for bytes in tokens. Multi-byte text is not decoded,
  as PHP strings are not. Element text is handed back whole either way,
  which `PointerCases.WideIndex` states for `"第二个"`.
- `JsonPointer.Pointer.GetPointer` has no contract of its own. The
  recorded pointer is stated by the `ensures` of `Pointer.Get` and
  `Pointer.Set`.
- `PointerCases` states the test cases with `%` in the pointer (`/c%d`
  and `/test%2Ffoo.txt/size`) through general lemmas, not on the literal
  pointers. These lemmas are `DecodeStrayPercent` and
  `EncodedSlashStaysInToken`.
