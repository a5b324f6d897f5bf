# identidock-rs: identifier derivation and cache-aside image lookup

This project models the two pieces of logic in the identidock service (an axum
web service that shows an "identicon" image for a name).

- **Identifier derivation** (`cook_response`, `calculate_hash`). The name is
  salted with the constant `"UNIQUE_SAL"`, name first. The UTF-8 bytes of the
  salted name are hashed with SHA-256. The 32-byte digest is written as
  lowercase hexadecimal, the base16 alphabet of section 8 of RFC 4648 in its
  lowercase form. The page for the name links its image as
  `/monster/<identifier>`.
- **Cache-aside image lookup** (`get_identicon`). This handler serves
  `/monster/:name`. It reads the path segment from Redis. A successful,
  non-empty read is a hit and is served. Anything else is a miss: the handler
  asks the generator service (`dnmonster`) for the same segment, stores the
  answer under the same key, ignores a failed store, and serves the answer.

Files:

- `wrappers.dfy`: `Option` and the `byte` type.
- `utf8.dfy`: the UTF-8 encoding of a string, with a strict decoder as its
  partner. Both round trips are proved, so the encoding is injective. Encoding
  distributes over concatenation.
- `base16.dfy`: lowercase hex encoding, with a decoder for the lowercase
  alphabet as its partner. Both round trips and the pair-per-byte layout are
  proved.
- `identity.dfy`: the salt, the salted name, the hash step, the page's image
  link, and the `/monster/:name` route.
- `identicon.dfy`: the Redis store as a class with a `map` field, the handler
  as a method on it, and a pure function `Resolve` that specifies one request.
  Lemmas about `Resolve` relate several requests to each other.

SHA-256 comes from a foreign crate. It is a parameter of type
`seq<byte> -> Digest`, where a `Digest` is exactly 32 bytes. Redis and the
generator are external services. Their outcomes are inputs of the handler: the
connection checkout fails or not, the read fails or not, and the write is
acknowledged, rejected, or applied with an error reply. The generator is a
function from the request URL to an answer.

Behaviour of the code that the model keeps:

- A failed connection checkout (`pool.get().await.unwrap()`) aborts the
  request. There is no fallback.
- `reqwest::get` does not check the HTTP status. So the body of an error page
  is served and stored like an image.
- A failed generator request or body read is a panic through `unwrap`, not a
  typed error. The model calls this outcome `Aborted`.
- The result of the cache write is discarded. The reply is the same whatever
  the write gave back.
- `get_identicon` does not derive anything from a name. It receives the path
  segment and uses it verbatim as the cache key and in the generator URL. The
  name and the key are linked only because the page puts the derived
  identifier into the image URL.
- A Redis GET of a missing key reads as an empty byte vector. So a missing key
  and a stored empty value behave the same way.

## Model

| member | source | states |
|---|---|---|
| Identity.SaltedName | src/main.rs:69 | the hashed string is the name followed by the salt: its prefix is the name and its suffix is `"UNIQUE_SAL"` |
| Identity.SaltEncoding | src/main.rs:21 | the salt's UTF-8 bytes are the ten ASCII codes of `UNIQUE_SAL` |
| Identity.SaltedBytes | src/main.rs:69-70 | the bytes given to SHA-256 are the name's UTF-8 bytes followed by the salt's bytes, never the other way round |
| Identity.CalculateHash | src/main.rs:119-124 | the identifier has 64 characters, all in `0-9a-f`, and it decodes back to exactly the SHA-256 digest of the input |
| Identity.Derive | src/main.rs:69-70 | a name's identifier is 64 lowercase hex digits that decode to SHA-256 of the name's UTF-8 bytes followed by the salt's bytes |
| Identity.DeriveDigits | src/main.rs:119-124 | character pair i of the identifier is the high nibble then the low nibble of digest byte i |
| Identity.DeriveSameIffSameDigest | src/main.rs:69-70 | two names have the same identifier if and only if SHA-256 gives their salted bytes the same digest |
| Identity.SaltedInputInjective | src/main.rs:69 | two names give the same hashed bytes if and only if they are the same name |
| Identity.DeriveInjective | src/main.rs:69-70 | if SHA-256 does not collide on the salted bytes of two names, the names have the same identifier if and only if they are the same name |
| Identity.DefaultNameInput | src/main.rs:57 | the default page hashes exactly the bytes of `Joe BloggsUNIQUE_SAL` |
| Identity.CookResponse | src/main.rs:68-82 | the page echoes the name in the form, and its image link is `/monster/` followed by 64 characters that decode to the name's digest |
| Identity.MatchMonsterRoute | src/main.rs:42 | the route `/monster/:name` accepts a path if and only if it is the prefix and one non-empty segment with no slash, and it yields that segment |
| Identity.ImageLinkCarriesIdentifier | src/main.rs:78-79 | following the page's image link hands the image handler exactly the derived identifier |
| Base16.Encode | src/main.rs:123 | the encoding has two characters per byte, all lowercase hex digits |
| Base16.Decode | src/main.rs:123 | a string that decodes has two characters per decoded byte |
| Base16.EncodeAt | src/main.rs:123 | character 2i is the digit of the high nibble of byte i, and character 2i+1 is the digit of its low nibble |
| Base16.DecodeEncode | src/main.rs:123 | decoding an encoding gives back the bytes |
| Base16.EncodeDecode | src/main.rs:123 | every string that decodes is the encoding of what it decodes to |
| Base16.EncodeInjective | src/main.rs:123 | two byte strings have the same encoding if and only if they are equal |
| Utf8.EncodeScalar | src/main.rs:121 | one character takes the 1 to 4 bytes that its code point's range calls for |
| Utf8.Encode | src/main.rs:121 | a string takes between one and four bytes per character |
| Utf8.DecodeScalarEncodeScalar | src/main.rs:121 | the encoding of a character, followed by anything, decodes back to that character and its byte length |
| Utf8.EncodeScalarDecodeScalar | src/main.rs:121 | a decoded character encodes back to exactly the bytes it was read from |
| Utf8.DecodeEncode | src/main.rs:121 | decoding the bytes of a string gives back the string |
| Utf8.EncodeDecode | src/main.rs:121 | every byte string that decodes is the encoding of what it decodes to |
| Utf8.EncodeInjective | src/main.rs:121 | two strings have the same UTF-8 bytes if and only if they are equal |
| Utf8.EncodeConcat | src/main.rs:69-70 | the bytes of a concatenation are the bytes of the parts, in order |
| Utf8.EncodeAscii | src/main.rs:21 | an ASCII string takes one byte per character, equal to its code |
| Identicon.GeneratorUrl | src/main.rs:99-102 | the generator request is the fixed service prefix, then the path segment verbatim, then `?size=80` |
| Identicon.RedisCache.GetIdenticon | src/main.rs:91-110 | a failed checkout aborts with no traffic. A hit serves the cached bytes with no generator call and an unchanged cache. A miss sends one request for the segment verbatim. An answer of any status is served whatever the write gave back. It is stored under the same key if the write took effect, and the cache is unchanged if the write was rejected. A failed generator aborts with the cache unchanged |
| Identicon.WriteResultDiscarded | src/main.rs:106-108 | the reply and the generator request are the same for every outcome of the cache write |
| Identicon.OnlyOwnKeyChanges | src/main.rs:106-107 | a request never deletes an entry and never changes a key other than its own path segment |
| Identicon.EmptyValueIsMiss | src/main.rs:92-97 | a stored empty value gives the same reply and generator request as a missing key, and the same cache apart from that key |
| Identicon.ReadErrorIsMiss | src/main.rs:92-97 | a failed read gives the same reply and generator request as a successful read of a missing key, and the same cache apart from that key |
| Identicon.NextRequestHits | src/main.rs:92-108 | after a served request whose write took effect, the next request with a healthy cache serves the same bytes with no generator call and no cache change. It misses again exactly when those bytes are empty |
| Identicon.PageLinkResolves | src/main.rs:78-107 | for the page of a name, the cache key is the derived identifier, the generator is asked for the same `/monster/` path that the page links, and no other cache entry changes |

## Left out

- `main` (src/main.rs:25-53): tracing setup, building the Redis pool, the router and binding the socket. This is process startup and I/O.
- The `default` and `handler` extractors (src/main.rs:55-66), including the `unwrap` on a missing `name` form field. This is framework glue.
- The HTML template text of `cook_response`. The page is modelled only as its two filled-in values: the form value and the image link.
- Identity.MatchMonsterRoute: does not model axum's percent-decoding of the path segment or its other routing details. A hex identifier contains no `%` and no `/`, so neither matters for the links that the page produces.
- SHA-256 internals. The hash is a parameter that always gives 32 bytes. No function of that type is free of collisions, so `Identity.DeriveInjective` assumes only that the hash does not collide on the two salted inputs it compares.
- Redis (`bb8`, the async `get` and `set` commands) and the `reqwest` HTTP call. Only their success or failure is modelled, as inputs. A failed read is modelled without its cause. A failed write is either rejected or applied with its reply lost, and the code discards it either way.
- Identicon.RedisCache.GetIdenticon: an error reply from Redis does not say whether the write was applied. The model takes that as an input (`WriteRejected` or `WriteAppliedUnacked`), so the map afterwards is known only once the input is chosen.
- The HTTP response and its `image/png` content type (src/main.rs:112-116).
- Concurrency. The model handles one request at a time. Concurrent misses on the same key, which may each call the generator and each write the key, are not modelled.
- Logging through `tracing`.
