# Coincall WebSocket URL signer, modelled in Dafny

The program builds the signed WebSocket URL for Coincall's options stream.
It takes an API key, an API secret and an optional session uuid. It reads the
clock and renders the time in decimal milliseconds. It signs the canonical
message `GET/users/self/verify?uuid=<api key>&ts=<timestamp>` with
HMAC-SHA256 under the secret and writes the tag in upper-case hex. Then it
fills one of two URL templates: the one with a `uuid=` parameter when a
session uuid is given, the one without it otherwise.

All of it lives in `generate_wss_url` (src/main.rs:9-42), a pure
compute-and-return. The model is therefore made of functions and lemmas:

- `Types`: octets (`byte`) and the `Option` / `Result` wrappers.
- `Decimal`: `to_string` of the millisecond count (`ToDecimal`), with a
  reader (`Value`) as its inverse.
- `Base16`: `hex::encode` (`EncodeLower`), ASCII `to_uppercase`
  (`ToUpperAscii`), the Base16 encoding of section 8 of RFC 4648 (`Encode`)
  as the reference, and its decoder (`Decode`).
- `Utf8`: `str::as_bytes`, the UTF-8 encoding of text (`Encode`), with a
  decoder (`Decode`) as its inverse.
- `WssUrl`: the timestamp, the canonical message and a parser for it, the
  signature, the two URL templates and `GenerateWssUrl` itself.

Inputs the model takes as parameters instead of reading them:

- The clock: `nowNanos` is the wall-clock time in nanoseconds relative to
  the Unix epoch, negative before it. `duration_since(UNIX_EPOCH)` fails
  exactly when it is negative. `as_millis` is `nowNanos / 1_000_000`, which
  truncates because the value is not negative there.
- HMAC-SHA256: `hmac` is any function from key bytes and message bytes to a
  32-byte tag (type `HmacSha256`). Any key length is accepted and the
  function never fails, which matches the `expect` on `new_from_slice`.

The secret is text (`api_secret: &str`), as the code declares it, and the
MAC key is its UTF-8 bytes. It is not an arbitrary byte string.

## Model

| member | source | states |
|---|---|---|
| `Decimal.ToDecimal` | src/main.rs:15-18 | the timestamp text is non-empty, ASCII digits only, and has no leading zero except for the value 0 |
| `Decimal.ValueOfToDecimal` | src/main.rs:17-18 | reading the rendered milliseconds back gives the millisecond count |
| `Decimal.ToDecimalOfValue` | src/main.rs:17-18 | every canonical digit string is the rendering of the number it denotes, so the renderings are exactly the canonical digit strings |
| `Decimal.ToDecimalInjective` | src/main.rs:17-18 | two millisecond counts have the same rendering if and only if they are equal |
| `Base16.EncodeLower` | src/main.rs:27 | `hex::encode` gives two characters per byte, each in `0-9a-f` |
| `Base16.ToUpperAscii` | src/main.rs:27 | upper-casing keeps the length and maps each character on its own: `a-z` to `A-Z`, everything else unchanged |
| `Base16.Encode` | src/main.rs:27 | Base16 of RFC 4648 section 8: byte i becomes characters 2i and 2i+1 (high nibble, then low nibble), all in `0-9A-F` |
| `Base16.Decode` | src/main.rs:27 | reference decoder (not in the program), partner of the encoding: a successful decode yields half as many bytes as there are characters |
| `Base16.UpperOfEncodeLower` | src/main.rs:27 | upper-casing the output of `hex::encode` gives exactly the RFC 4648 Base16 encoding |
| `Base16.DecodeEncode` | src/main.rs:27 | decoding the signature pairwise recovers the bytes |
| `Base16.EncodeDecode` | src/main.rs:27 | every string the decoder accepts is the encoding of what it decodes to |
| `Base16.EncodeInjective` | src/main.rs:27 | two byte strings have the same encoding if and only if they are equal |
| `Utf8.EncodeChar` | src/main.rs:25-26 | each character takes 1 to 4 bytes; it takes one byte, its own code, exactly when it is ASCII |
| `Utf8.Encode` | src/main.rs:25-26 | the bytes of a text number between 1 and 4 per character |
| `Utf8.DecodeEncodeChar` | src/main.rs:25-26 | the decoder reads back the character encoded at the head of any byte string, and the number of bytes it took |
| `Utf8.DecodeEncode` | src/main.rs:25-26 | decoding the bytes of a text gives the text back |
| `Utf8.EncodeInjective` | src/main.rs:25-26 | two texts have the same bytes if and only if they are equal |
| `Utf8.EncodeAppend` | src/main.rs:25-26 | the bytes of a concatenation are the concatenated bytes |
| `Utf8.EncodeAscii` | src/main.rs:25-26 | an ASCII text is encoded one byte per character, each byte the character's code |
| `WssUrl.Timestamp` | src/main.rs:15-18 | fails exactly when the clock is before the epoch, and the error carries the gap; otherwise gives canonical digits whose value is the whole milliseconds since the epoch |
| `WssUrl.CanonicalMessage` | src/main.rs:20-22 | the signed text is verb, path, `?`, and the query `uuid=<api key>&ts=<timestamp>`; its `uuid` field holds the API key |
| `WssUrl.ParseCanonicalMessage` | src/main.rs:20-22 | the API key and a canonical timestamp can be read back from the canonical message |
| `WssUrl.ParseCanonicalSound` | src/main.rs:20-22 | whatever the parser accepts is the canonical message of the key and timestamp it returns |
| `WssUrl.CanonicalMessageInjective` | src/main.rs:20-22 | two canonical messages are equal if and only if their API keys and their timestamps are equal |
| `WssUrl.SignedBytes` | src/main.rs:22-26 | the MAC reads the ASCII bytes of `GET/users/self/verify?uuid=`, then the key's UTF-8 bytes, then the ASCII `&ts=`, then one ASCII byte per timestamp digit |
| `WssUrl.Sign` | src/main.rs:24-27 | the signature has 64 characters, all in `0-9A-F`, and decodes to the HMAC of the message's bytes under the secret's bytes |
| `WssUrl.SignInjective` | src/main.rs:24-27 | two signatures are equal if and only if the two MAC tags are equal |
| `WssUrl.QueryParams` | src/main.rs:29-39 | the URL's parameters start with `code=10` and end with `ts`, `sign` and `apiKey`, in that order, carrying the timestamp, the signature and the key; with a session uuid, `uuid` is second and there are five; without one there are four and none is named `uuid` |
| `WssUrl.Url` | src/main.rs:29-39 | each `format!` template is the endpoint, `?`, and the `&`-joined `name=value` query of those parameters |
| `WssUrl.UrlSessionInsertion` | src/main.rs:29-39 | the URL with a session uuid is the URL without one, with `uuid=<uuid>&` inserted right after `code=10&` |
| `WssUrl.UuidAfterCode` | src/main.rs:30-33 | both templates start with `wss://ws.coincall.com/options?code=10&`, and with a session uuid `uuid=` follows it immediately |
| `WssUrl.NoUuidWithoutSession` | src/main.rs:34-39 | without a session uuid, nothing before the API key is a `u`, so `uuid=` can appear only inside the key's own text |
| `WssUrl.UrlEndsWithApiKey` | src/main.rs:29-39 | the URL ends with `&apiKey=` followed by the API key verbatim, with no escaping |
| `WssUrl.GenerateWssUrl` | src/main.rs:9-42 | the only failure is a clock before the epoch, and the error says by how much |
| `WssUrl.GenerateWssUrlLayout` | src/main.rs:9-42 | when the clock is at or after the epoch, the URL is the matching template. It is filled with the one decimal timestamp that is also in the signed message, and with the signature of that message |
| `WssUrl.SessionUuidNotSigned` | src/main.rs:29-39 | the session uuid changes only the inserted `uuid=<uuid>&`: timestamp, signature and key are those of the URL without it |
| `WssUrl.GoldenVector` | src/main.rs:9-42 | key `ABC`, secret `secret`, clock at 1700000000000 ms, no session uuid: the message is `GET/users/self/verify?uuid=ABC&ts=1700000000000` and the URL is `wss://ws.coincall.com/options?code=10&ts=1700000000000&sign=<its signature>&apiKey=ABC` |

## Left out

- `get_command_line_args` (src/main.rs:44-74): argument parsing, help and version text of the `clap` library, which is user interface over foreign code.
- `main` (src/main.rs:76-83): printing the URL to standard output or the error to standard error is I/O.
- `SystemTime::now()` (src/main.rs:15): the clock read is I/O. The reading is the parameter `nowNanos`. The `u128` range of `as_millis` is not modelled, because no clock reading comes near it.
- HMAC-SHA256 internals (the `hmac` and `sha2` crates): foreign cryptographic code. The model fixes only the tag length of 32 bytes. It does not model avalanche or collision resistance, so "changing the secret changes the signature" is not stated. For the same reason the concrete 64-character signature of the worked example (`WssUrl.GoldenVector`) is not fixed. It stays the term `Sign(hmac, "secret", ...)` over the abstract MAC, because HMAC-SHA256 is not computed.
- Base16.ToUpperAscii: does not model the full Unicode case mapping of `to_uppercase`. Only ASCII letters are mapped, which is all that hex digits need.
- WssUrl.NoUuidWithoutSession: no escaping is applied, so a key that contains `uuid=` still shows that text. The lemma states the absence of `uuid=` for everything before the key only.
