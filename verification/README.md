# objectid in Dafny

A model of the Go package `objectid`, which makes MongoDB-style ObjectIDs.
An ObjectID is twelve bytes:

- a four-byte big-endian timestamp in seconds;
- a five-byte machine/process discriminator, drawn once from a random source;
- the low 24 bits of a process-wide 32-bit counter, advanced once per
  identifier.

The model also covers the 24-digit lower-case hex text form and the adapters
that marshal an identifier to and from text and JSON.

Modules, one per file:

- `Binary` (`binary.dfy`): Go's fixed-width integers, `uint32(x)` truncation,
  and the big-endian layouts of `encoding/binary` together with
  `putBigEndianUint24`. Each layout is checked against one reference reading,
  `BigEndian`.
- `Errors` (`errors.dfy`): the errors the package can return. It also holds
  `GoResult`, the Go `(value, error)` pair. The value is kept even when there
  is an error, because `NewMachineProcessID` returns a partly filled array
  alongside its error.
- `Hex` (`hex.dfy`): `hex.EncodeToString` and `hex.DecodeString` with Go's
  error order. Decoding reads digit pairs and reports the first byte that is
  not a hex digit. An odd-length input fails with `ErrLength` only when every
  byte in it is a digit.
- `Seeds` (`seeds.dfy`): the counter and the discriminator.
  - The random source is the finite byte string it can deliver.
  - `io.ReadFull` on that source fills the buffer as far as the source goes.
    It reports `io.EOF` when nothing was read and `io.ErrUnexpectedEOF` when
    some bytes were read.
  - `Counter.Next` is increment-then-return with wrap-around at 2^32.
- `ObjectId` (`objectid.dfy`): the identifier, its fields, `NewEpochs`,
  `String` and `Decode`.
  - The package variables `counter` and `machineProcessID` are an explicit
    `Generator` value.
  - `NewEpochs` takes the current `Generator` and returns the new identifier
    with the next `Generator`.
- `Adapters` (`adapters.dfy`): `MarshalText`, `UnmarshalText`, `MarshalJSON`
  and `UnmarshalJSON`.
  - An unmarshal method takes the receiver's current value and returns its
    value afterwards, so "the receiver is untouched on error" can be stated.
  - `strings.Trim(data, "\"")` removes every leading and trailing quote, not
    only one pair.
- `Generation` (`generation.dfy`): what a run of `NewEpochs` calls produces.
  Up to 2^24 consecutive identifiers are pairwise distinct. The bound is
  tight: the identifier made 2^24 calls later in the same second repeats.

Strings are Go byte strings (`seq<byte>`). Lengths count bytes.

## Model

| member | source | states |
|---|---|---|
| `Binary.TruncateToUint32` | objectid.go:70 | `uint32(epochs)` is congruent to epochs modulo 2^32. It equals epochs when epochs already fits in 32 bits. |
| `Binary.Uint32` | objectid.go:83 | `binary.BigEndian.Uint32` gives the big-endian value of its four bytes. |
| `Binary.PutUint32` | objectid.go:70 | `binary.BigEndian.PutUint32` writes four bytes that `Uint32` reads back as the same value. |
| `Binary.PutUint32OfUint32` | objectid.go:83 | The converse round trip: every four-byte string is what `PutUint32` writes for the value it reads as. |
| `Binary.PutUint32Injective` | objectid.go:70 | Distinct timestamps get distinct four-byte encodings. |
| `Binary.PutBigEndianUint24` | objectid.go:177-182 | `putBigEndianUint24` writes three bytes whose big-endian value is v modulo 2^24. The top eight bits of v are dropped. |
| `Seeds.ReadFull` | objectid.go:153 | `io.ReadFull` succeeds exactly when the source holds enough bytes, and then returns the first n. On a short source the buffer holds what there was, then zeros. The error is EOF exactly when nothing was read. |
| `Seeds.NewSecureCounter` | objectid.go:150-159 | Succeeds exactly when the source has four bytes. The counter is the big-endian value of those bytes. Otherwise the counter is 0 and the read error comes back wrapped. |
| `Seeds.SeedEveryCounter` | objectid.go:150-159 | Every uint32 is a possible seed: a source that starts with its four big-endian bytes yields exactly that counter. |
| `Seeds.Next` | objectid.go:161-162 | `atomic.AddUint32(c, 1)` returns the new value, which is also the new state: c + 1, or 0 after 2^32 - 1. |
| `Seeds.NextInjective` | objectid.go:161-162 | Two different counter states never return the same next value. |
| `Seeds.NewMachineProcessID` | objectid.go:167-175 | Succeeds exactly when the source has five bytes, and returns them. On a short source it returns the partly filled array with the wrapped read error. |
| `ObjectId.SetCounter` | objectid.go:31-32 | Replaces the counter and leaves the discriminator alone. |
| `ObjectId.SetMachineAndProcessId` | objectid.go:34-35 | Replaces the discriminator and leaves the counter alone. |
| `ObjectId.Timestamp` | objectid.go:81-85 | The first four bytes are exactly the big-endian encoding of the returned seconds. |
| `ObjectId.Count` | objectid.go:87-92 | The counter field is below 2^24. The last three bytes are what `putBigEndianUint24` writes for it. |
| `ObjectId.IsZero` | objectid.go:94-95 | True exactly when all twelve bytes are zero. |
| `ObjectId.NewEpochs` | objectid.go:67-74 | The new identifier has three fields. Its timestamp is `uint32(epochs)`. Bytes 4 to 8 are the current discriminator. Its counter field is the counter's next value modulo 2^24. The counter advances by one step; the discriminator stays. |
| `ObjectId.CountOfPut` | objectid.go:72 | `Count` inverts `putBigEndianUint24` up to the bits it drops. |
| `ObjectId.String` | objectid.go:76-79 | 24 characters, all lower-case hex digits. |
| `ObjectId.Decode` | objectid.go:131-145 | Succeeds exactly when the input has 24 bytes that are all hex digits. Every failure returns `Nil`. The wrong length fails with the length error. A 24-byte input fails with the first byte that is not a hex digit. |
| `ObjectId.DecodeOfString` | objectid_test.go:48-59 | Decoding the text form of any identifier, `Nil` included, gives it back without error. |
| `ObjectId.StringOfDecode` | objectid.go:131-145 | A decoded identifier's text form is the input folded to lower case. So upper- and lower-case spellings decode to the same identifier. |
| `ObjectId.StringInjective` | objectid.go:76-79 | Different identifiers have different text forms. |
| `Hex.FirstNonHexDigit` | objectid.go:137 | The position before which every byte is a hex digit and at which the byte is not one. |
| `Hex.EncodeToString` | objectid.go:78 | Two lower-case digits per byte. |
| `Hex.DecodeString` | objectid.go:137 | No error exactly for even-length all-digit input. `ErrLength` exactly for odd-length all-digit input. Otherwise `InvalidByteError` names the first non-digit byte. A success yields half as many bytes as the input. |
| `Hex.DecodeSpells` | objectid.go:137 | On success the i-th decoded byte is the value of the digits at 2i and 2i + 1, high nibble first. |
| `Hex.EncodeSpells` | objectid.go:78 | The digits the encoder writes at 2i and 2i + 1 spell the i-th byte, high nibble first. |
| `Hex.DecodeEncode` | objectid.go:137 | Decoding what the encoder wrote gives the bytes back. |
| `Hex.EncodeDecode` | objectid.go:137 | Encoding what the decoder accepted gives the input back in lower case. |
| `Adapters.MarshalText` | objectid.go:97-101 | Never fails. The result is 24 lower-case hex digits that decode back to the identifier, which makes it exactly the text form `id.String()`. |
| `Adapters.UnmarshalText` | objectid.go:103-112 | Succeeds exactly when `Decode` does, with `Decode`'s error. On success the receiver's text form is the input in lower case. On failure the receiver keeps its value. |
| `Adapters.UnmarshalTextOfMarshalText` | objectid_test.go:105-116 | Whatever the receiver held, unmarshalling the marshalled text of an identifier sets it to that identifier. |
| `Adapters.MarshalJSON` | objectid.go:114-117 | Never fails. The result is the text form between two double quotes, 26 bytes. |
| `Adapters.TrimLeftQuotes` | objectid.go:122 | Removes exactly the leading run of quotes. |
| `Adapters.TrimRightQuotes` | objectid.go:122 | Removes exactly the trailing run of quotes. |
| `Adapters.TrimQuotes` | objectid.go:122 | `strings.Trim(data, "\"")` keeps the contiguous middle of the data. Everything before and after it is a quote, and the middle neither starts nor ends with one. |
| `Adapters.TrimQuotesOfQuotes` | objectid.go:122 | Data made only of quotes trims to the empty string. |
| `Adapters.TrimQuotesAround` | objectid.go:122 | Any number of quotes on either side of a string that neither starts nor ends with a quote are stripped. Nothing else is touched. |
| `Adapters.UnmarshalJSON` | objectid.go:119-129 | Decodes the trimmed data. Success and error are exactly those of `Decode` on the trimmed data. On failure the receiver keeps its value. |
| `Adapters.UnmarshalJSONOfMarshalJSON` | objectid.go:114-129 | JSON round trip: unmarshalling the marshalled JSON of an identifier sets any receiver to it. |
| `Adapters.UnmarshalJSONLenient` | objectid.go:122 | The bare text form, or one wrapped in any number of quotes on either side, unmarshals just the same. |
| `Adapters.UnmarshalJSONExample` | objectid_test.go:157-174 | The JSON string `"640c5fe5d243553cda8dde1b"` unmarshals to the identifier whose text form is those 24 digits. |
| `Adapters.ExampleTimestamp` | objectid_test.go:162-173 | The identifier spelled `640c5fe5d243553cda8dde1b` carries the timestamp 0x640c5fe5. |
| `Adapters.UnmarshalJSONNull` | objectid.go:119-129 | The JSON literal `null` is not a no-op: it fails with the length error, and the receiver keeps its value. |
| `Generation.Generate` | objectid.go:67-74 | A run of calls returns one identifier per epochs value and leaves the counter that many steps on. The i-th identifier carries the i-th timestamp, the discriminator and the counter field (seed + 1 + i) mod 2^24. |
| `Generation.AdvanceNext` | objectid.go:161-162 | One `Next` followed by k steps is k + 1 steps. |
| `Generation.FieldsDetermineId` | objectid.go:56 | An identifier is determined by its timestamp, discriminator and counter field. |
| `Generation.SuccessiveIds` | objectid_test.go:20-46 | Two identifiers made one after the other with the same epochs have the same timestamp. Their counter fields are one apart modulo 2^24, so they differ. |
| `Generation.CountCheckFailsAtWrap` | objectid_test.go:43-45 | The uint32 check `id1.Count() != id2.Count()-1` fires when the 24-bit counter field wraps. |
| `Generation.GeneratedDistinct` | objectid.go:67-74 | Any two of up to 2^24 identifiers made in sequence differ, whatever epochs they are given. |
| `Generation.GeneratedWrapCollision` | objectid.go:177-182 | The bound is tight: identifiers 2^24 calls apart with the same epochs are equal. |

## Left out

- `New` is left out because it reads the wall clock. `NewEpochs` takes the epochs as a parameter instead.
- `init` is left out: it runs `sync.Once` and panics on error. `crypto/rand.Reader` is a parameter: the finite byte string it delivers.
- Atomicity of `atomic.AddUint32` under concurrent callers is left out. The model is sequential, and `Generate` threads the state through one call after another.
- `ObjectId.Timestamp` returns the uint32 seconds, not a `time.Time`. `time.Unix(...).UTC()` only reinterprets them.
- `Adapters.MarshalJSON`: general JSON string escaping is left out. The text form is only hex digits, which `json.Marshal` writes unescaped between quotes.
- Error messages are left out. The model keeps the error's kind and its wrapped cause, not the formatted text.
- `Scan` and `Value` are called by the tests but not defined in `objectid.go`. They are not part of this model.
- `Hex.EncodeToString` and `Hex.DecodeString` do not say in their own contracts which byte each digit pair spells. The lemmas `Hex.EncodeSpells` and `Hex.DecodeSpells` state it: high nibble first, digits 2i and 2i + 1 for byte i.

## Findings

| source | as written | input that shows it | evidently intended | confidence | as-written member | corrected member |
|---|---|---|---|---|---|---|
| objectid_test.go:43-45 | Compares `id1.Count()` with `id2.Count()-1` in uint32 arithmetic. | A counter whose low 24 bits are 0xfffffe: `id1.Count()` is 0xffffff and `id2.Count()` is 0, so `id2.Count()-1` is 0xffffffff and the test reports an error. | The counter fields are one apart modulo 2^24: `id2.Count() == (id1.Count()+1) % 2^24`. | not executed | `Generation.CountCheckFailsAtWrap` | `Generation.SuccessiveIds` |
