# Token issuance with unpadded base32

This project models `internal/tokens/tokens.go` of the go-course API server.
That file holds the `ScopeAuth` scope constant, the `Token` record with its
JSON field tags, and `GenerateToken`. `GenerateToken` stamps a user id, an
expiry and a scope on a new token. It then draws 32 random bytes and encodes
them as the plaintext secret, using base32 with the alphabet of section 6 of
RFC 4648 and no padding. Finally it stores the SHA-256 digest of the
plaintext's bytes as the token's hash.

The model has four modules:

- `Wrappers`: `Option` and `Result`. `Result` stands for Go's `(value, error)`
  return pair.
- `ByteCodes`: the fact that a byte holds each integer from 0 to 255 exactly,
  which is used for the ASCII bytes of a plaintext.
- `Base32`: two encoders, and a decoder that is their partner.
  - `Encode` works the way Go's encoder does. It loads each 5-byte block into
    two 32-bit words and cuts out eight 5-bit indexes by shifting and masking.
    The final partial block is encoded as if zero-filled, then cut to the
    symbols that carry input bits.
  - `EncodeBits` follows the bit-stream description of section 6 of RFC 4648.
  - `EncodeMatchesBitStream` proves the two encoders agree on every input.
  - The canonical decoder `Decode` (section 3.5 of RFC 4648) inverts the
    encoder in both directions. This is how injectivity is stated.
  - The example encodings of section 10 of RFC 4648 (padding removed) are
    proved as lemmas.
- `Tokens`: the `ScopeAuth` constant, the `Token` record, and `GenerateToken`
  as a pure function. Its effects are explicit parameters:
  - `now` is the clock reading, in nanoseconds.
  - `draw` is the outcome of reading the random source: 32 bytes or an error.
  - `sum256` is SHA-256, a function that returns 32-byte digests.

  The JSON projection is modelled as the list of fields with their tags.
  `Members` keeps the fields whose tag is not `-`, under the tag's name.

## Model

| member | source | states |
|---|---|---|
| Tokens.GenerateToken | internal/tokens/tokens.go:22-43 | The result is an error exactly when the random read fails, and then it is that read's error. On success: the user id and scope are copied unchanged and the expiry is `now + ttl`. The plaintext is 52 characters, all from the base32 alphabet, with no `=`, and decodes back to the drawn bytes. The hash is the digest of the plaintext's ASCII bytes and is 32 bytes long. |
| Tokens.Plaintext | internal/tokens/tokens.go:33-39 | The encoding of 32 random bytes has 52 symbols, no padding character, and decodes to exactly those bytes. |
| Tokens.PlaintextIdentifiesEntropy | internal/tokens/tokens.go:33-41 | Two issued tokens have the same plaintext if and only if they came from the same random bytes, whatever the user, lifetime, scope and clock. Tokens with the same plaintext have the same hash. |
| Tokens.SecretDependsOnEntropyOnly | internal/tokens/tokens.go:27-41 | The plaintext and the hash depend only on the random bytes, not on the user id, ttl, scope or clock. |
| Tokens.ZeroEntropyPlaintext | internal/tokens/tokens.go:33-39 | Thirty-two zero bytes give the plaintext of 52 `A`s. |
| Tokens.HashIdentifiesPlaintext | internal/tokens/tokens.go:40-41 | For tokens whose hash is the digest of their plaintext, the hashes are equal if and only if the plaintexts are equal, unless the digest collides on those two inputs. |
| Tokens.AsciiBytes | internal/tokens/tokens.go:40 | An ASCII string has one byte per character. |
| Tokens.AsciiBytesCodes | internal/tokens/tokens.go:40 | Each byte of an ASCII string is its character's code. |
| Tokens.AsciiRoundTrip | internal/tokens/tokens.go:40 | Converting an ASCII string to bytes loses nothing: the string is read back from its bytes. |
| Tokens.AsciiBytesInjective | internal/tokens/tokens.go:40 | Distinct ASCII plaintexts give distinct inputs to the digest. |
| Tokens.Fields | internal/tokens/tokens.go:14-20 | A token has five fields, and exactly Hash, UserID and Scope carry the tag `-`. |
| Tokens.Members | internal/tokens/tokens.go:14-20 | Every serialised member comes from a field not tagged `-`, keyed by its tag. Every such field is serialised. |
| Tokens.Serialize | internal/tokens/tokens.go:14-20 | A client receives exactly two members: the plaintext under `token`, then the expiry under `expiry`. |
| Tokens.MembersOfFields | internal/tokens/tokens.go:14-20 | Of the five tagged fields, only the plaintext and the expiry become JSON members, in declaration order. |
| Tokens.SerializedViewHidesSecrets | internal/tokens/tokens.go:14-20 | Two tokens serialise alike if and only if their plaintexts and expiries agree, so the hash, user id and scope never reach the client. |
| Tokens.IssuedTokenView | internal/tokens/tokens.go:14-39 | A freshly issued token serialises to the encoding of its random bytes and the expiry `now + ttl`. |
| Base32.Encode | internal/tokens/tokens.go:39 | The encoding of n bytes has ceil(8n/5) symbols, all from the alphabet and none of them `=`. |
| Base32.EncodedLen | internal/tokens/tokens.go:39 | The unpadded length r for n bytes is the least r with 5r >= 8n: the number of 5-bit groups that cover 8n bits. |
| Base32.Symbol | internal/tokens/tokens.go:39 | The alphabet lookup yields a letter `A`–`Z` or a digit `2`–`7`. |
| Base32.EncodeBlock | internal/tokens/tokens.go:39 | A 5-byte block yields eight symbols of the alphabet. |
| Base32.EncodeMatchesBitStream | internal/tokens/tokens.go:39 | The block encoder equals the bit-stream encoding of section 6 of RFC 4648 on every byte string. |
| Base32.EncodeBits | internal/tokens/tokens.go:39 | The bit-stream encoding has one alphabet symbol per 5-bit group, counting a final partial group. |
| Base32.SymbolValue | internal/tokens/tokens.go:39 | A character has a value if and only if it is one of the 32 symbols, and the symbol for that value is the character. |
| Base32.SymbolValueOfSymbol | internal/tokens/tokens.go:39 | Every 5-bit value is read back from its symbol. |
| Base32.InAlphabetIff | internal/tokens/tokens.go:39 | The characters of the alphabet are exactly `A`–`Z` and `2`–`7`. |
| Base32.Decode | internal/tokens/tokens.go:39 | A string is rejected for its length exactly when it would leave a whole symbol's worth of trailing bits. An accepted string is all symbols, with the encoded length of its result. A rejected symbol's offset points at a character outside the alphabet. |
| Base32.SymbolsOfEncodeBits | internal/tokens/tokens.go:39 | The symbols of a bit stream read back as the stream followed by its zero fill. |
| Base32.DecodeEncode | internal/tokens/tokens.go:39 | Decoding the encoding of any byte string returns that byte string. |
| Base32.EncodeDecode | internal/tokens/tokens.go:39 | Every string the decoder accepts is the encoding of what it decodes to. |
| Base32.EncodeInjective | internal/tokens/tokens.go:39 | Byte strings with equal encodings are equal. |
| Base32.EncodeZeroBytes | internal/tokens/tokens.go:39 | n zero bytes encode as ceil(8n/5) `A`s. |
| Base32.VectorFoobar | internal/tokens/tokens.go:39 | "foobar" encodes as MZXW6YTBOI, as section 10 of RFC 4648 gives it without padding. |

## Left out

- `crypto/rand.Read` is not modelled. Its outcome, 32 bytes or an error, is the `draw` parameter. A short read without an error cannot happen for this call, so it is not a case of `RandRead`.
- SHA-256 (FIPS 180-4) is not reimplemented. It is the parameter `sum256`, a total function to 32-byte digests. Its determinism comes from its being a function.
- `time.Now` is the parameter `now`, an integer count of nanoseconds.
- `Time.Add`: overflow, monotonic-clock stripping and the wall/monotonic split are not modelled; instants are unbounded integers.
- JSON encoding produces more than the model keeps. The time is written as an RFC 3339 string and the output is quoted and escaped; neither is modelled. The projection stops at the ordered (key, value) members.
- `[]byte(s)` is modelled only for ASCII strings, where it is the character codes. A plaintext is always ASCII.
- The ttl is not checked for positivity, because the code does not check it either. A negative or zero ttl gives an expiry at or before `now`.
- `GenerateToken` returns `*Token`, a pointer. The model returns the record itself, since nothing else holds the pointer.
- `Encode` follows the block algorithm of Go's `encoding/base32`, and `EncodeMatchesBitStream` ties it to RFC 4648. Padding, custom alphabets and streaming encoders are not modelled.
- `internal/routes/routes.go` only attaches the `Authenticate` and `RequireUser` middleware to routes. The middleware, the token store and `main.go`'s start-up code are not modelled.
