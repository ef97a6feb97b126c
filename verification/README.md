# Pumpkin login trust primitives in Dafny

This project models two pieces of the Pumpkin Minecraft server's login handshake.

1. **Velocity modern forwarding.** The server sends a login plugin request on the
   `velocity:player_info` channel. The request carries one byte, the highest
   forwarding version it supports (4). The proxy answers with a payload. The first
   32 bytes are an HMAC-SHA256 tag over the rest, keyed with the shared secret.
   The rest holds, in order: the forwarding version (VarInt), the client's IP
   literal, the profile UUID, the name, and the property list. Each property has a
   name, a value and an optional signature. Decoding happens in stages. Each stage
   has its own `VelocityError`, and the first stage that fails decides the result.
   The signature check comes before any parsing. The socket address's port is the
   server's own port. It never comes from the payload.
2. **The `BikeShedKeyStore`.** This is an immutable RSA key store. It builds the
   encryption request from the stored DER public key. It decrypts the client's
   shared secret with PKCS#1 v1.5. It also computes the legacy session digest. That
   digest is SHA-1 over the shared secret followed by the DER, read as a signed
   big-endian integer and written in signed, unpadded, lowercase base 16
   (`auth_digest`).

The cryptographic primitives are opaque. So are the byte-buffer readers and the IP
parser. Each one is a function value passed into the model: `Velocity.Primitives`,
the `ByteBuffer.Wire` record, and parameters of the key-store functions. Statements
that need something from them say so as a precondition. `ByteBuffer.Lawful` says
each reader inverts its writer on the values the wire format can carry. A string
fits when its UTF-8 form is within 32767 bytes (`StringFits`, taking four bytes per
character). A list count fits when it is a non-negative `i32` (`CountFits`). Each
law is stated on its own as well (`VarIntLaw`, `StringLaw`, `UuidLaw`, `BoolLaw`,
`CountLaw`), so a property needs only the readers it uses. `BikeShedKeyStore.Pkcs1Correct`
says decryption inverts encryption. The conversion behind `auth_digest` is modelled exactly in
`BigIntHex`. That module covers two's complement to integer, integer to signed hex,
and a reader that takes the hex string back.

Modules: `Wrappers` (Option, Result), `Numeric` (fixed-width integers and the `as u8`
cast), `ByteBuffer` (abstract readers, `get_option`, `get_list`), `Velocity` (the
decoder), `ForwardingRoundTrip` (the proxy's encoding and what the decoder recovers
from it), `BigIntHex`, `BikeShedKeyStore`.

The version gate compares `version as u8` with 4 (velocity.rs lines 119-120). That is
the low eight bits of the VarInt read, not the VarInt itself. So a VarInt of 260, 516
or -252 passes the gate as version 4 (`Version260DecodesAsVersion4`), and the model
keeps that truncation.

## Model

| member | source | states |
|---|---|---|
| Numeric.AsU8 | pumpkin/src/proxy/velocity.rs:119 | the version is the low eight bits of the i32 read: it differs from the read value by a multiple of 256 and is unchanged for 0..255 |
| Numeric.AsU8Wraps | pumpkin/src/proxy/velocity.rs:116-125 | 260, 516 and -252 truncate to 4, -1 to 255, 5 stays 5 |
| ByteBuffer.GetOption | pumpkin/src/proxy/velocity.rs:83 | a failed presence-flag read fails the option; a clear flag gives `None` without reading the value; a set flag succeeds iff the value reads, giving that value and the bytes after it |
| ByteBuffer.GetOptionRoundTrip | pumpkin/src/proxy/velocity.rs:83 | the tagged option reads back exactly what was written, absent and present never confused, the following bytes untouched |
| ByteBuffer.GetN | pumpkin/src/proxy/velocity.rs:79-91 | a successful read of n elements yields exactly n elements |
| ByteBuffer.GetNFailsAtElement | pumpkin/src/proxy/velocity.rs:79-91 | if any one of the n elements fails to read, the whole read fails, with no partial list |
| ByteBuffer.GetNSucceeds | pumpkin/src/proxy/velocity.rs:79-91 | if each of the n elements reads in turn, the whole read succeeds |
| ByteBuffer.GetNElements | pumpkin/src/proxy/velocity.rs:79-91 | element k of a successful read is the value read at the k-th position, and the bytes left are those after the last element |
| ByteBuffer.GetNRoundTrip | pumpkin/src/proxy/velocity.rs:79-91 | n written elements read back as the same elements in the same order |
| ByteBuffer.GetList | pumpkin/src/proxy/velocity.rs:79-91 | a failed count read fails the list; a successful list has exactly the declared count of elements |
| ByteBuffer.GetListFailsAtElement | pumpkin/src/proxy/velocity.rs:79-91 | a list with a counted element that fails to read fails as a whole |
| ByteBuffer.GetListElements | pumpkin/src/proxy/velocity.rs:79-91 | a list reads iff its count and every counted element read, and element k is the value read at the k-th position after the count |
| ByteBuffer.GetListRoundTrip | pumpkin/src/proxy/velocity.rs:79-91 | a written list whose count and elements fit the wire format reads back whole, with its length and order |
| Velocity.VelocityLogin | pumpkin/src/proxy/velocity.rs:47-60 | the challenge goes on channel `velocity:player_info` with the single payload byte 4 and the caller's transaction id |
| Velocity.ChallengeVersionPassesGate | pumpkin/src/proxy/velocity.rs:119-125 | the version offered in the challenge is one the gate accepts |
| Velocity.CheckIntegrity | pumpkin/src/proxy/velocity.rs:62-69 | true iff the signature equals HMAC-SHA256 keyed with the secret's UTF-8 bytes over the message; an accepted signature is 32 bytes |
| Velocity.GenuineSignatureVerifies | pumpkin/src/proxy/velocity.rs:62-69 | the HMAC of a message under the secret always passes the check for that message and secret |
| Velocity.AlteredSignatureRejected | pumpkin/src/proxy/velocity.rs:62-69 | any byte string other than that HMAC fails the check |
| Velocity.ReadProperty | pumpkin/src/proxy/velocity.rs:80-90 | a property reads iff its name, its value and its optional signature read in that order; it is then those three, and the bytes after the signature |
| Velocity.ReadGameProfile | pumpkin/src/proxy/velocity.rs:71-98 | `FailedReadProfileUUID` iff the UUID does not read; `FailedReadProfileName` iff the UUID reads and the name does not; `FailedReadProfileProperties` iff both read and the property list does not; a success carries the UUID, name and properties read, and no profile actions |
| Velocity.PropertyFailureFailsProfile | pumpkin/src/proxy/velocity.rs:79-91 | a property anywhere in the list that fails to read, in its name, value or signature, fails the profile with `FailedReadProfileProperties` |
| Velocity.DecodeVerified | pumpkin/src/proxy/velocity.rs:112-136 | each error holds exactly when every earlier stage succeeded and its own stage failed: version read, gate on the low eight bits (reporting the truncated value and 4), address read, address parse, then the profile; success pairs the profile with the parsed IP and the caller's port |
| Velocity.DecodeVerifiedSucceeds | pumpkin/src/proxy/velocity.rs:116-136 | when the version passes the gate, the address reads and parses, and the profile reads, decoding succeeds with that profile at the parsed IP and the given port |
| Velocity.ReceiveVelocityPluginResponse | pumpkin/src/proxy/velocity.rs:100-139 | `NoData` iff there is no payload; `FailedVerifyIntegrity` iff the first 32 bytes are not the HMAC of the rest; otherwise the result is the staged decode of the rest; success implies a genuine signature, the caller's port and no profile actions |
| ForwardingRoundTrip.Sign | pumpkin/src/proxy/velocity.rs:107-109 | a signed payload splits at 32 into exactly the HMAC tag and the message |
| ForwardingRoundTrip.ReadPropertyRoundTrip | pumpkin/src/proxy/velocity.rs:80-90 | an encoded property whose strings fit reads back unchanged, including whether it has a signature |
| ForwardingRoundTrip.PropertyCodecInverts | pumpkin/src/proxy/velocity.rs:80-90 | the property reader inverts the property writer for every property whose strings fit, whatever bytes follow |
| ForwardingRoundTrip.ReadGameProfileRoundTrip | pumpkin/src/proxy/velocity.rs:71-98 | an encoded profile that fits the wire format reads back with the same id, name and properties in order |
| ForwardingRoundTrip.HeaderReadsBack | pumpkin/src/proxy/velocity.rs:116-128 | an encoded accepted version passes the gate, and the address literal after it reads back, leaving the encoded profile |
| ForwardingRoundTrip.DecodeVerifiedRoundTrip | pumpkin/src/proxy/velocity.rs:112-136 | a verified payload with an accepted version and a parsable address decodes to exactly the encoded profile at the parsed IP and the given port |
| ForwardingRoundTrip.ForwardingRoundTrip | pumpkin/src/proxy/velocity.rs:100-139 | a correctly signed payload with an accepted version, a parsable address and a profile within the wire format's limits decodes to exactly the encoded profile at the parsed IP and the server's port, whatever trailing bytes follow |
| ForwardingRoundTrip.ForeignSignatureRejected | pumpkin/src/proxy/velocity.rs:107-111 | a payload signed under a key whose HMAC differs is refused with `FailedVerifyIntegrity` |
| ForwardingRoundTrip.IntegrityFailureIgnoresPayload | pumpkin/src/proxy/velocity.rs:107-111 | after a failed integrity check the result is the same whatever the readers and the IP parser are, so no parsing is attempted |
| ForwardingRoundTrip.UnsupportedVersionRegardlessOfRest | pumpkin/src/proxy/velocity.rs:116-125 | a version whose low eight bits exceed 4 gives `UnsupportedForwardVersion(truncated, 4)` whatever follows it |
| ForwardingRoundTrip.VersionFiveRejected | pumpkin/src/proxy/velocity.rs:116-125 | version 5 gives `UnsupportedForwardVersion(5, 4)` whatever follows it |
| ForwardingRoundTrip.Version260DecodesAsVersion4 | pumpkin/src/proxy/velocity.rs:116-125 | a VarInt of 260 is decoded exactly as version 4 and is not refused |
| ForwardingRoundTrip.AliceFromLoopback | pumpkin/src/proxy/velocity.rs:100-139 | a signed version-4 payload for "Alice" with no properties from 127.0.0.1 decodes to that profile at 127.0.0.1 and the server's port |
| BigIntHex.UnsignedBE | pumpkin/src/server/bikeshed_key_store.rs:73 | the unsigned big-endian value of n bytes is below 256^n |
| BigIntHex.SignedBESign | pumpkin/src/server/bikeshed_key_store.rs:73 | the two's-complement value is negative iff the input is non-empty and its first byte is at least 0x80 |
| BigIntHex.SignedBEMagnitude | pumpkin/src/server/bikeshed_key_store.rs:73 | the two's-complement value of n bytes lies strictly between -256^n and 256^n |
| BigIntHex.SignedBEInjective | pumpkin/src/server/bikeshed_key_store.rs:73 | equal-length byte strings with equal two's-complement values are equal |
| BigIntHex.UnsignedBEZero | pumpkin/src/server/bikeshed_key_store.rs:73 | the unsigned value is zero iff every byte is zero |
| BigIntHex.ToHex | pumpkin/src/server/bikeshed_key_store.rs:73 | the base-16 form is non-empty lowercase hex that starts with `0` only for zero, which is exactly `"0"` |
| BigIntHex.ToHexReadsBack | pumpkin/src/server/bikeshed_key_store.rs:73 | reading the base-16 digits back gives the number |
| BigIntHex.ToHexLength | pumpkin/src/server/bikeshed_key_store.rs:73 | a number below 16^k has at most k digits |
| BigIntHex.ToStrRadix16ReadsBack | pumpkin/src/server/bikeshed_key_store.rs:73 | reading the signed base-16 form back gives the integer, sign included |
| BigIntHex.UnpaddedIsToHex | pumpkin/src/server/bikeshed_key_store.rs:73 | a hex digit string with no leading zero is the base-16 form of its own value |
| BigIntHex.CanonicalIsToStrRadix16 | pumpkin/src/server/bikeshed_key_store.rs:73 | every unpadded signed hex string without `-0` is the `to_str_radix(16)` form of the value it reads as, so each value has one such spelling |
| BigIntHex.ToStrRadix16Canonical | pumpkin/src/server/bikeshed_key_store.rs:73 | `to_str_radix(16)` output has an optional `-`, then hex digits with no leading zero, and zero only as `0` |
| BigIntHex.ToBytesBE | pumpkin/src/server/bikeshed_key_store.rs:20-23 | the key numbers become their shortest unsigned big-endian bytes, which read back as the number |
| BikeShedKeyStore.AuthDigest | pumpkin/src/server/bikeshed_key_store.rs:72-74 | the digest reads back as signed base 16 to the big-endian two's-complement value of the bytes; after the optional `-` come only `0-9a-f` digits, with no leading zero except in `"0"`; it starts with `-` iff the first byte is at least 0x80 |
| BikeShedKeyStore.AuthDigestOnlyCanonical | pumpkin/src/server/bikeshed_key_store.rs:72-74 | any unpadded signed hex string without `-0` that reads as the bytes' signed value is exactly the digest |
| BikeShedKeyStore.AuthDigestZero | pumpkin/src/server/bikeshed_key_store.rs:72-74 | the digest is `"0"` iff the input is empty or all zero |
| BikeShedKeyStore.AuthDigestDigitBound | pumpkin/src/server/bikeshed_key_store.rs:72-74 | at most two digits per input byte, with no zero padding |
| BikeShedKeyStore.AuthDigestInjective | pumpkin/src/server/bikeshed_key_store.rs:72-74 | equal-length inputs with the same digest are the same bytes |
| BikeShedKeyStore.AuthDigestNegativeExamples | pumpkin/src/server/bikeshed_key_store.rs:72-74 | bytes 83 62 give `-7c9e` and ff ff give `-1`: a signed value, not the hex dump of the bytes |
| BikeShedKeyStore.AuthDigestUnpaddedExamples | pumpkin/src/server/bikeshed_key_store.rs:72-74 | bytes 00 0f give `f` with no padding, and no bytes give `0` |
| BikeShedKeyStore.NewKeyStore | pumpkin/src/server/bikeshed_key_store.rs:15-30 | the store keeps the key and stores the DER of its modulus and public exponent, computed once |
| BikeShedKeyStore.DerDependsOnPublicKey | pumpkin/src/server/bikeshed_key_store.rs:20-24 | keys that share modulus and public exponent give the same stored DER |
| BikeShedKeyStore.EncryptionRequest | pumpkin/src/server/bikeshed_key_store.rs:40-52 | the packet's public key is exactly the stored DER; the server id, token and authenticate flag pass through unchanged |
| BikeShedKeyStore.RequestsShareOneKey | pumpkin/src/server/bikeshed_key_store.rs:40-52 | every request built from one store presents the same key bytes |
| BikeShedKeyStore.Decrypt | pumpkin/src/server/bikeshed_key_store.rs:54-60 | `FailedDecrypt` iff PKCS#1 v1.5 decryption with the stored key fails, otherwise that plaintext unchanged |
| BikeShedKeyStore.DecryptRecoversSecret | pumpkin/src/server/bikeshed_key_store.rs:54-60 | given `Pkcs1Correct`, that the library's decryption inverts its encryption for the stored key, a secret of at most 117 bytes encrypted under the stored public key decrypts back to itself |
| BikeShedKeyStore.GetDigest | pumpkin/src/server/bikeshed_key_store.rs:62-69 | the digest reads back to the signed value of SHA-1 over the secret followed by the stored DER; it is unpadded lowercase hex, never `-0`, with a `-` iff the hash's first byte is at least 0x80, in at most 40 digits |
| BikeShedKeyStore.GetDigestUnique | pumpkin/src/server/bikeshed_key_store.rs:62-69 | any other unpadded signed hex string without `-0` that reads as that hash value is the digest itself, so the contract fixes the digest exactly |
| BikeShedKeyStore.GetDigestSeparatesHashes | pumpkin/src/server/bikeshed_key_store.rs:62-69 | secrets whose SHA-1 inputs hash differently get different digests |

## Left out

- HMAC-SHA256 (RFC 2104 over FIPS 180-4) is a function value. Its constant-time comparison in `verify_slice` is about timing, which cannot be stated here.
- The UTF-8 encoding of the configured secret (`secret.as_bytes()`) is a function value.
- SHA-1 is a function value returning 20 bytes.
- RSA key generation is left out. The store is built from a given key, because the 1024-bit generation with `thread_rng` is random.
- PKCS#1 v1.5 decryption (section 7.2.2 of RFC 8017) and its encryption counterpart are function values.
- The DER encoding by `rsa_der` (RSAPublicKey, appendix A.1.1 of RFC 8017) is a function value.
- The unused `_public_key` field of the store is not modelled.
- The `ByteBuffer` readers are function values: VarInt, length-prefixed string, 16-byte UUID, boolean flag and list count. `pumpkin_protocol` is not part of this model.
- `get_option` is modelled as a presence flag followed by the value when the flag is set. `get_list` is modelled as a count followed by that many elements.
- ByteBuffer.GetList: the list count is read as a natural number. In the wire format it is a VarInt, and how `get_list` treats a negative count is outside this model.
- ByteBuffer.Lawful: the readers are promised to invert the writers only within the wire format's limits. Those limits are strings of at most 32767 UTF-8 bytes, counted as four bytes per character, and counts below 2^31. Round trips for longer strings or larger lists are not claimed. The exact UTF-8 length of a string is not modelled.
- The IP-literal grammar of `str::parse::<IpAddr>` is a partial function value.
- Velocity.ReceiveVelocityPluginResponse: a payload shorter than 32 bytes makes `split_at(32)` panic. Here that is a precondition, not an error value.
- The asynchronous `send_packet` is left out.
- The random transaction id of `velocity_login` is a parameter. It is never compared with the reply's id, and neither is it here.
- `dbg!` and `log` output is left out.
- `VelocityConfig` is reduced to its secret.
- `EncryptionError` is reduced to `FailedDecrypt`, the only variant these operations produce.
- `ProfileAction` is defined elsewhere. Here only its absence from forwarded profiles matters.
- Immutability of the store and concurrent read-only sharing hold by construction: the store is an immutable value and every operation is a pure function of it.
- BikeShedKeyStore.GetDigestSeparatesHashes: a changed input byte changes the digest only when it changes the SHA-1 output, because SHA-1 is opaque.
