# Character tokenizer vocabulary store, modelled in Dafny

This project models the `Tokenizer` class of `tokenizer.js`. The class is a
character-level vocabulary: an append-only bijection between tokens and dense
integer ids. Its state is two mirrored maps, `vocab` (token to id) and
`reverseVocab` (id to token), plus the counter `nextId`. The four reserved tokens
`<PAD>`, `<UNK>`, `<CLS>` and `<SEP>` hold ids 0 to 3. The source walks text
with `Array.from`, one code point at a time. In the model, text is `seq<char>`
and a character token is the one-element string `[c]`. A Dafny `char` is a
Unicode scalar value, so the model covers text without unpaired surrogates
(see "Left out").

Files:

- `vocabulary.dfy`, module `Vocabulary`: the value-level model.
  - `Vocab` is a snapshot of the three fields.
  - `WellFormed` is the store invariant: the maps are exact inverses, ids are dense in `[0, nextId)`, and `nextId` is the entry count.
  - `Reserved` says the reserved tokens sit at 0..3.
  - The operations are pure functions: `Seeded` (the constructor's loop), `Insert` and `AddIfAbsent` (one growth step), `Grow` (buildVocab), `EncodeSpec` (encode), `TokenOf` and `Decode` (decode), `Save` (the document save writes) and `Restore` (load after parsing).
  - The lemmas about these functions sit beside them.
- `tokenizer.dfy`, module `Tokenizers`: class `Tokenizer` with the source's fields.
  - Its constructor and its methods `BuildVocab`, `Encode` and `Load` update the fields in loops.
  - `BuildVocab` and `Encode` are proved to leave `Model()` equal to the matching function of the old state. `Load` is proved to leave it equal to `Restore` of the parsed document, whatever the old state was.
  - `Decode` is a function: decode only reads `reverseVocab`.
- `scenario.dfy`, module `Scenario`: the sequence the command-line block runs. It trains a new tokenizer on a corpus and saves it. Then it loads the saved document into a new tokenizer to encode a text without growth, and into another to decode the ids. Code points absent from the corpus encode to 1, and text drawn from the corpus decodes back to itself.

Two details of `load` that a reader might not expect:

- The stored `nextId` is replaced by the entry count when it is absent and also when it is `0`, because load uses `||` (tokenizer.js:70).
- After a load, `nextId` equals the entry count only if the loaded document says so. The model does not promise it. `Vocabulary.RestoreWellFormed` states when it holds.

## Model

| member | source | states |
|---|---|---|
| Vocabulary.Seeded | tokenizer.js:10-14 | after seeding `k` reserved tokens the counter is `k` |
| Vocabulary.SeededSpec | tokenizer.js:10-14 | after seeding `k` reserved tokens, the j-th of `<PAD>`, `<UNK>`, `<CLS>`, `<SEP>` has id j and no other token is a key |
| Vocabulary.SeededWellFormed | tokenizer.js:10-14 | every stage of the seeding loop leaves the maps exact inverses, the ids dense and `nextId` equal to the entry count |
| Vocabulary.FreshStore | tokenizer.js:4-15 | after seeding, `vocab` is exactly `{<PAD>:0, <UNK>:1, <CLS>:2, <SEP>:3}`, `reverseVocab` is its inverse, `nextId` is 4, and the store is well formed with the reserved entries in place |
| Tokenizers.Tokenizer.constructor | tokenizer.js:4-15 | the constructed object holds exactly the four reserved tokens at 0..3 in both maps, `nextId == 4`, and satisfies `Valid()` |
| Vocabulary.Insert | tokenizer.js:21-23 | one growth step (also tokenizer.js:37-40): the token gets id `nextId` in `vocab`, `reverseVocab[nextId]` is the token, the counter advances by one, every other `vocab` entry is kept, and a fresh token adds exactly one entry |
| Vocabulary.InsertFrame | tokenizer.js:21-23 | a growth step adds exactly the token to the keys of `vocab` and exactly `nextId` to the keys of `reverseVocab`, and keeps every other `reverseVocab` entry |
| Vocabulary.InsertWellFormed | tokenizer.js:21-23 | one growth step on an unseen token keeps the maps exact inverses, the ids dense, `nextId` equal to the entry count, and the reserved entries unchanged |
| Vocabulary.AddIfAbsent | tokenizer.js:20-24 | one pass of the buildVocab loop: afterwards the code point is a key; the store is unchanged exactly when it already was; its id is the old one if known, else the old `nextId` |
| Vocabulary.Grow | tokenizer.js:19-25 | buildVocab never lowers the counter and never removes a key |
| Vocabulary.NewChars | tokenizer.js:19-20 | the code points that buildVocab will add: pairwise distinct, a code point is among them exactly when it occurs in the text and is not yet a key, and they are ordered by the index of their first occurrence in the text |
| Vocabulary.GrowSpec | tokenizer.js:17-27 | buildVocab gives the k-th new code point (first appearance order) the id `old nextId + k`, advances `nextId` by the number of new code points, leaves every existing entry unchanged, and adds nothing else |
| Vocabulary.GrowOnlyText | tokenizer.js:19-25 | a code point that does not occur in the text is a key after buildVocab exactly when it was one before |
| Vocabulary.GrowConcat | tokenizer.js:17-27 | buildVocab over `a + b` leaves the same store as buildVocab over `a` followed by buildVocab over `b` |
| Vocabulary.GrowCovers | tokenizer.js:19-25 | after buildVocab every code point of the text is a key of `vocab` |
| Vocabulary.GrowKnown | tokenizer.js:19-25 | buildVocab over text whose code points are all known leaves the store unchanged (repeats are no-ops) |
| Vocabulary.GrowIdempotent | tokenizer.js:19-26 | a second buildVocab with the same text adds nothing, so the store and the returned size are the same |
| Vocabulary.GrowWellFormed | tokenizer.js:19-25 | buildVocab preserves the store invariant and the reserved entries |
| Tokenizers.Tokenizer.BuildVocab | tokenizer.js:17-27 | the new state is `Grow(old state, text)`, the return value is the new `nextId`, and a valid store stays valid |
| Vocabulary.EncodeSpec | tokenizer.js:29-45 | encode returns exactly one id per code point; without `addNew` the store is unchanged; existing entries are never changed |
| Vocabulary.EncodeAt | tokenizer.js:33-44 | at each position: with `addNew` the code point ends up known and its id is the one in the final store; without it a known code point gives `vocab[ch]` and an unknown one the id stored for `<UNK>` |
| Vocabulary.EncodeUnknownIsUnk | tokenizer.js:32-42 | without `addNew`, an unknown code point in a store with the reserved tokens encodes to 1 |
| Vocabulary.EncodeGrows | tokenizer.js:36-40 | encode with `addNew` leaves exactly the store that buildVocab on the same text leaves, so fresh ids are contiguous and in first-appearance order, as stated by `GrowSpec` |
| Vocabulary.EncodeAgain | tokenizer.js:36-40 | after encoding with `addNew`, every code point of the text is known, and encoding the same text again without `addNew` returns the same ids |
| Tokenizers.Tokenizer.Encode | tokenizer.js:29-45 | the returned ids and the new state are those of `EncodeSpec` on the old state, and a valid store stays valid |
| Vocabulary.Decode | tokenizer.js:48-56 | when every id maps to a one-code-point token, the result has one code point per id and the i-th is the token of the i-th id (an id outside `reverseVocab` stands for `<UNK>`); the class's `Decode` returns this function of its current `reverseVocab` |
| Vocabulary.DecodeAppend | tokenizer.js:50-55 | decode is a concatenation in order: decoding `a + b` gives decode of `a` followed by decode of `b` |
| Vocabulary.DecodeUnknownId | tokenizer.js:52-53 | an id missing from `reverseVocab` decodes to the literal `<UNK>` at its position, and decoding never fails |
| Vocabulary.DecodeEncode | tokenizer.js:31-55 | when `reverseVocab` mirrors `vocab`, decode of encode (without `addNew`) gives the text back, with `<UNK>` in place of each unknown code point |
| Vocabulary.RoundTrip | tokenizer.js:31-55 | decode(encode(s, false)) == s when `reverseVocab` mirrors `vocab` and every code point of `s` is already in `vocab` |
| Vocabulary.Save | tokenizer.js:59-62 | the document save writes from a well-formed store has injective ids, and load rebuilds exactly that store from it, `reverseVocab` and `nextId` included |
| Vocabulary.Invert | tokenizer.js:71-74 | the map rebuilt from an injective `vocab` is its exact inverse in both directions |
| Vocabulary.Restore | tokenizer.js:69-74 | load takes the parsed `vocab` (empty when absent) and the stored `nextId` (the entry count when absent or 0), and rebuilds `reverseVocab` as the exact inverse |
| Tokenizers.Tokenizer.Load | tokenizer.js:69-74 | after load, the state is `Restore` of the parsed document |
| Vocabulary.SaveRestore | tokenizer.js:59-74 | restoring the document save writes reproduces a well-formed store exactly, `reverseVocab` and `nextId` included |
| Vocabulary.RestoreWellFormed | tokenizer.js:69-74 | a loaded document gives a well-formed store when its ids are exactly `0..n-1` for its `n` entries and its `nextId` is absent, 0 or `n` |
| Scenario.TrainedEncodeDecode | tokenizer.js:83-111 | against a store trained on a corpus, encoding without growth maps each code point absent from the corpus to 1, and text drawn from the corpus decodes back to itself |
| Scenario.TrainEncodeDecode | tokenizer.js:83-111 | train, save, load and encode, load and decode: the size is at least 4, there is one id per code point, absent code points give 1, and text drawn from the corpus comes back unchanged |

## Left out

- Save and the file half of load (tokenizer.js:58-68): file I/O, `JSON.stringify` and `JSON.parse`, including the escaping of quote, backslash and control characters, belong to the runtime. `Save` models only the document object (tokenizer.js:59-62), and `Payload` is the document after parsing.
- The command-line block (tokenizer.js:78-116): argument handling, the file paths, `split(',')`, `Number(x)` and printing. `Scenario.TrainEncodeDecode` models only the sequence of calls, on values, with growth off during encode. The command line sets growth from `b === 'true' || c === 'addNew'` (tokenizer.js:95), where `b` is the text itself. So `encode <vocab.json> true` encodes the text "true" with growth on, and the scenario does not cover that input.
- The `typeof text !== 'string'` and `Array.isArray` guards (tokenizer.js:18, 30, 49): in Dafny the parameters are typed, so these guards cannot fire.
- The `Number(i)` coercion in decode (tokenizer.js:52): ids are `int`. A non-numeric or non-integer value would miss the map and become `<UNK>`, as any missing id does.
- JavaScript object-key details: `reverseVocab` uses string keys, and `in` sees the prototype chain. The model uses Dafny maps. The inherited property names are all longer than one character, so they never clash with a code point.
- Unpaired surrogates: `Array.from` yields a lone surrogate as an element of its own, but a Dafny `char` is a Unicode scalar value and cannot hold one. Text containing unpaired surrogates is not modelled.
- JavaScript numbers are doubles, exact only up to 2^53. Ids are unbounded integers, and growth has no size limit, as in the source.
- Tokenizers.Tokenizer.Encode: requires `addNew`, or `<UNK>` in `vocab`, or every code point of the text known. It excludes only the case where the source pushes `undefined` into the output (no growth, no `<UNK>` entry, and an unknown code point). That case is not modelled.
- Vocabulary.EncodeSpec: has the same precondition as `Encode`, for the same reason. `EncodeAt` carries it too.
- Tokenizers.Tokenizer.Load: requires the loaded ids to be injective. With duplicate ids, the rebuilt `reverseVocab` depends on the `Object.entries` order (the last entry wins), and that order is not modelled.
- Vocabulary.Restore: has the same injectivity precondition as `Load`. Only an absent or `0` `nextId` falls back to the entry count. Other falsy JSON values (`null`, `false`, `""`) are not modelled.
