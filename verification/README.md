# storeosaurus in Dafny

A model of the core of storeosaurus, a Deno document store that keeps one JSON
document per file. The model has three parts:

- **`StringEncrypter`** is the keyed byte obfuscation. The seed is the sum of the
  token bytes modulo 1,000,000. Byte `i` is shifted by `token[i mod len] * seed`,
  modulo 256. Decoding shifts back by the same amount. JavaScript's `%` keeps the
  sign of the dividend, so decoding can produce a negative value. The model writes
  that value through an explicit `ToUint8`, the conversion a `Uint8Array` applies
  when it stores a number. It then proves that this pair of operations is floor
  modulo (Dafny's `%`). It also proves the round trip in both directions.
- **`Storeosaurus`** is the envelope store (`storeosaurus.ts`). It resolves its
  path from its options (explicit path, else the lower-cased name plus
  `.store.json`, else `store.json`). Every operation loads first. A missing file
  adopts `default || {}`. A valid envelope adopts its `data`. An empty file leaves
  the working copy alone. Anything else throws, and also leaves it alone. `write` persists
  `{isStoreFile: true, type: 'v1', version: 1, data}`.
- **`StoreOSaurus`** is the earlier store (`store-o-saurus.ts`). It stores the raw
  document, keeps the name's case, and leaves the working copy alone when the file
  is missing. Its `assure` fills in missing top-level keys. `FillMissing` is the
  reference definition of that merge. `AssureKeys` is the `forEach` loop, proved
  equal to it.

Supporting modules:

- `Json`: JSON values, truthiness, member access, and JSON text abstracted to
  "empty", "the text of value v" or "does not parse".
- `Disk`: the file system as a map from path to entry. A missing path reads as
  NotFound. An `Unreadable` entry stands for any other read failure.
- `Engine`: the record an operation returns (new store state, file system, error)
  and the way a callback acts on the working copy. JavaScript hands the callback a
  reference, so it can change an object or an array in place. It cannot replace
  the store's value or change a primitive.
- `CrossInstance`: several store instances on one file system, run one operation
  after another.

Callbacks are modelled as pure functions `JVal -> JVal`: the value the callback
leaves behind. Every operation is a function, so encoding is deterministic by
construction.

Several tests run the `get`/`set` API of `mod.ts`, which is not part of this model.
Their scenarios are stated here with `write` and a callback. These are the
path-name test, the two-instance test, the interleaved counter and the default
test in `tests/store_test.ts`.

## Model

| member | source | states |
|---|---|---|
| `StringEncrypter.Sum` | string-encrypter.ts:11 | the `reduce` sum of the token bytes is at most 255 per byte and at least the first byte |
| `StringEncrypter.SumFromFirst` | string-encrypter.ts:11 | the sum is the `reduce` without an initial value: it starts from the first byte and adds the rest from left to right |
| `StringEncrypter.Seed` | string-encrypter.ts:11 | the seed lies in 0..999999 and is congruent to the byte sum modulo 1000000 (so it is the sum modulo 1000000), equal to the sum when the sum is below 1000000; encode and decode share this one derivation (line 23) |
| `StringEncrypter.JsRemainder` | string-encrypter.ts:14 | JavaScript `%` by a positive divisor: the dividend is the divisor times the truncated quotient plus the remainder, which lies strictly between -n and n and has the sign of the dividend |
| `StringEncrypter.ToUint8` | string-encrypter.ts:25-27 | the Uint8Array conversion yields a byte congruent to the number modulo 256, and keeps a number that already is a byte |
| `StringEncrypter.Stored` | string-encrypter.ts:13-15 | the stored result of a `map` callback `x % 256` is `x` modulo 256 for a non-negative `x` (negative `x`: `StoredIsFloorModulo`) |
| `StringEncrypter.Offset` | string-encrypter.ts:14 | the shift `tokenArr[index % tokenArr.length] * tokenSum` is zero exactly when the seed or that token byte is zero, and otherwise at least the seed |
| `StringEncrypter.StoredIsFloorModulo` | string-encrypter.ts:25-27 | truncating `%` followed by the Uint8Array's ToUint8 equals floor modulo 256, also for the negative values decoding produces |
| `StringEncrypter.EncodeBytes` | string-encrypter.ts:13-15 | encoding keeps the length, and every output is a byte |
| `StringEncrypter.DecodeBytes` | string-encrypter.ts:25-27 | decoding keeps the length, and every output is a byte |
| `StringEncrypter.EncodeByteAt` | string-encrypter.ts:13-15 | output byte i is `(plain[i] + token[i mod len] * seed) mod 256` |
| `StringEncrypter.DecodeByteAt` | string-encrypter.ts:25-27 | output byte i is `(cipher[i] - token[i mod len] * seed)` floor-mod 256 |
| `StringEncrypter.ZeroShiftLeavesByte` | string-encrypter.ts:14 | where the token byte `token[i mod len]` is 0, or the seed is 0, the encoded byte equals the plain byte: it is not obfuscated |
| `StringEncrypter.EncodeIsLocal` | string-encrypter.ts:13-15 | output byte i depends only on input byte i and the token: equal input bytes at i give equal output bytes at i |
| `StringEncrypter.DecodeEncode` | string-encrypter.ts:8-30 | for every non-empty token, decoding an encoding gives back the original bytes |
| `StringEncrypter.EncodeDecode` | string-encrypter.ts:8-30 | for every non-empty token, encoding a decoding gives back the cipher bytes, so the transform is a bijection |
| `StringEncrypter.Encode` | string-encrypter.ts:8-18 | fails exactly when the token is empty (`reduce` without an initial value); otherwise keeps the length and the result decodes back to the input |
| `StringEncrypter.Decode` | string-encrypter.ts:21-30 | fails exactly when the token is empty; otherwise keeps the length and the result encodes back to the input |
| `Json.Get` | storeosaurus.ts:35 | for the member names the store reads (`isStoreFile`, `type`, `data`): access throws on `null`, is defined exactly for an object's own keys, and yields that member's value |
| `Json.Truthy` | storeosaurus.ts:33-44 | JavaScript truthiness as used by `if (file)`, `document.isStoreFile` and the fallback to `{}` for a falsy default: falsy exactly for `null`, `false`, `0` and `""` |
| `Json.Stringify` | storeosaurus.ts:52 | serialized text is never empty and parses back to the same value |
| `Json.Parse` | storeosaurus.ts:34 | parsing succeeds exactly on the text of a JSON value |
| `Disk.ReadTextFile` | storeosaurus.ts:32 | a read is NotFound exactly for a missing path, fails exactly on an unreadable entry, and otherwise returns the stored text |
| `Disk.WriteTextFile` | storeosaurus.ts:52 | a write makes the path read back the written text, adds at most that path, and leaves every other entry as it was |
| `Engine.InPlace` | storeosaurus.ts:14 | a callback keeps the kind of the working copy, cannot change a primitive, and its changes to an object or array take effect |
| `Storeosaurus.Open` | storeosaurus.ts:3-10 | opening keeps the options and starts from `{}`, without touching the disk |
| `Storeosaurus.LowerCase` | storeosaurus.ts:65 | lower-casing keeps the length, leaves no upper-case ASCII letter, maps each upper-case letter to its lower-case letter and keeps every other character |
| `Storeosaurus.Given` | storeosaurus.ts:61 | an optional name or path is truthy exactly when it is present and its string is truthy under the shared `Json.Truthy` |
| `Storeosaurus.StoreFilePath` | storeosaurus.ts:60-66 | with no truthy name and no truthy path the file is `store.json`; a non-empty path wins; otherwise the file is the lower-cased name plus `.store.json`; the path is never empty |
| `Storeosaurus.StoreFileNames` | tests/store_test.ts:67-91 | the tests' cases: `store.json`, `counter.store.json`, a custom path, and a custom path that wins over the name `books` |
| `Storeosaurus.DefaultData` | storeosaurus.ts:44 | the value adopted for a missing file is always truthy: the default when that is truthy, else `{}` |
| `Storeosaurus.Envelope` | storeosaurus.ts:51-57 | the written document is an envelope the load accepts, its payload is exactly the working copy (absent when that is `undefined`), its `isStoreFile` is literally `true`, its version is 1, and it has no key beyond `isStoreFile`, `type`, `version` and (when defined) `data` |
| `Storeosaurus.IsEnvelope` | storeosaurus.ts:35 | a document is an envelope exactly when its member `isStoreFile` is truthy and its member `type` is the string `'v1'` |
| `Storeosaurus.Payload` | storeosaurus.ts:36 | `document.data` is defined exactly when the document is an object with a `data` key, and is then that member |
| `Storeosaurus.Adopt` | storeosaurus.ts:34-40 | a parsed document is adopted exactly when it is an object with a truthy `isStoreFile` and `type` equal to `'v1'`, and the store takes its `data`; `null` throws a TypeError, anything else is 'Invalid file format' |
| `Storeosaurus.Load` | storeosaurus.ts:30-49 | missing file: adopt the default or `{}`; empty file: unchanged; envelope: adopt its data; non-envelope, unparsable text or a failed read: the matching error; options never change |
| `Storeosaurus.WriteToDisk` | storeosaurus.ts:51-58 | persisting stores the envelope of the working copy at the store's path, and loading that file gives back the same store |
| `Storeosaurus.Apply` | storeosaurus.ts:14 | a callback on an `undefined` working copy leaves it `undefined`, a defined one stays defined, and its changes act in place |
| `Storeosaurus.Read` | storeosaurus.ts:12-18 | read never changes the file system; it fails exactly when the load fails and then leaves the store as it was; otherwise the working copy is the loaded data after the callback |
| `Storeosaurus.Write` | storeosaurus.ts:21-28 | write fails exactly when the load fails and then changes nothing; otherwise the file at the store's path is exactly the envelope of the new working copy, and every other entry is unchanged |
| `StoreOSaurus.Open` | store-o-saurus.ts:3-10 | the name defaults to `default`; the working copy starts as `{}` |
| `StoreOSaurus.FileName` | store-o-saurus.ts:62-64 | the path is the name exactly as given, case unchanged, followed by `.store.json` |
| `StoreOSaurus.FileNames` | store-o-saurus.ts:5-7 | an unnamed store uses `default.store.json`, and `Counter` keeps its capital letter |
| `StoreOSaurus.Load` | store-o-saurus.ts:43-56 | missing or empty file: the working copy is unchanged, with no default; otherwise the store adopts the parsed document exactly; unparsable text and failed reads throw |
| `StoreOSaurus.MarkDataDirty` | store-o-saurus.ts:58-60 | persisting stores the raw working copy with no envelope, and a later load by a store of that name adopts exactly that data, whatever its working copy held |
| `StoreOSaurus.Read` | store-o-saurus.ts:12-18 | read never touches the file system; a failed load leaves the store as it was |
| `StoreOSaurus.Write` | store-o-saurus.ts:21-28 | write persists the raw new working copy at the store's path and nothing else; a failed load changes nothing |
| `StoreOSaurus.FillMissing` | store-o-saurus.ts:33-39 | the merged keys are the current keys plus the keys of `d`; present keys keep their values; missing keys take `d`'s value |
| `StoreOSaurus.AssureKeys` | store-o-saurus.ts:33-39 | the `forEach` that assigns each key of `d` whose current value is undefined computes exactly `FillMissing` |
| `StoreOSaurus.FillMissingIdempotent` | store-o-saurus.ts:33-39 | filling twice with the same keys equals filling once |
| `StoreOSaurus.Merge` | store-o-saurus.ts:33-39 | with no keys nothing happens; an object working copy gets `FillMissing`; a non-object working copy with keys to fill throws a TypeError |
| `StoreOSaurus.Assure` | store-o-saurus.ts:30-41 | succeeds exactly when the load and the merge succeed; a failed load changes nothing; a failed merge keeps the loaded data and writes nothing; on success every key of `d` is present, and the merged document is persisted raw at the store's path and nowhere else |
| `StoreOSaurus.AssureIdempotent` | store-o-saurus.ts:30-41 | a second `assure` with the same keys after a successful one changes neither the store nor the file system |
| `CrossInstance.WriteThenLoad` | storeosaurus.ts:21-57 | after a write, a load by any store with the same path adopts exactly the written data |
| `CrossInstance.SequentialConsistency` | tests/store_test.ts:22-37 | store B writes after store A's write on the same file; B's callback sees A's data, and A then reads B's result |
| `CrossInstance.OpenOnMissingFile` | tests/store_test.ts:94-116 | reading a fresh store whose file is missing yields the truthy default, and `{}` with no options |
| `CrossInstance.LegacyWriteThenLoad` | store-o-saurus.ts:43-60 | the earlier store: after a write, a load by any store with the same name adopts the raw written data |
| `CrossInstance.LegacyMissingFileKeepsData` | store-o-saurus.ts:49-51 | the earlier store: with the file missing, a read works on the working copy it already had |
| `CrossInstance.RoundAdvances` | tests/store_test.ts:53-57 | one increment by either store followed by a read by either store raises the stored count by one, and the reader sees the new count |
| `CrossInstance.CounterCounts` | tests/store_test.ts:40-64 | under every interleaving of n increments by two stores that share a default of `{count: 0}`, the file holds `{count: n}` and both stores read n |

## Left out

- Lazy reads and writes, `sync`, `reload`, schema `version` with `migrate`, the `get`/`set` API and the wrong-passphrase error are only reached through `mod.ts`, and `mod.ts` is not part of this model.
- The `encrypt` option is declared in `StoreOptions` but no operation of `storeosaurus.ts` reads it. The model carries it and ignores it too.
- `TextEncoder`/`TextDecoder`: the cipher works on bytes. A text round trip would also need UTF-8 encoding then decoding to return the string. That fails for strings with lone surrogates.
- StringEncrypter.Seed: JavaScript sums in doubles, exact only below 2^53. The model's sum is exact for every token. The two differ only for tokens of more than 3.5 * 10^13 bytes.
- Paths are compared as strings. `./store.json` and `store.json` name one file on disk but are two entries in `Disk`, so the promise that a write leaves "every other entry" unchanged holds per path string, not per file.
- Deno I/O is the map in `Disk`, and everything is run in sequence without `async`. Writes always succeed. A write only happens after a load of the same path succeeded, but a write failure after that (a full disk, say) is not modelled.
- Callbacks that throw are not modelled. The exception would propagate, the working copy would stay as the callback left it, and nothing would be persisted.
- Aliasing is not modelled. The v1 store adopts `options.default` by reference, so a callback that changes the working copy also changes the default object.
- JSON numbers are integers. Floating point, `NaN` (falsy) and `-0` are not modelled. JSON text is abstracted, so two texts of the same value are the same `Text`.
- Lower-casing is ASCII only. Unicode case mapping is not modelled.
- StoreOSaurus.Merge: it reports a TypeError for every non-object working copy when there are keys to fill. JavaScript would instead set properties on an array: index keys become elements, and other keys are dropped by `JSON.stringify`. On a string, it would skip keys naming existing characters or `length`. On a number, boolean or string it would not throw when every key of `d` names a member the value inherits (`assure({toFixed: 1})` on `5`): those keys are skipped.
- StoreOSaurus.FillMissing: a key counts as present only when it is an own key. JavaScript's `=== undefined` check also sees names inherited from `Object.prototype` (`toString`, `constructor`, ...), so `assure` never fills keys with those names.
- StoreOSaurus.Assure: its argument is modelled as an object (a map). `Object.keys` on a `null` argument would throw, and on other primitives it would yield index keys or none.
- Concurrency: the random interleavings of the tests become sequences of operations over one shared file system. There is no parallel execution to model.
- The example HTTP servers and the test cleanup helper are glue around the store and are not modelled.
