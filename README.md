# binary-gen-web: hex codec and buffer state, in Dafny

binary-gen-web is a small egui/eframe web app. The user types a hex string into a text field (`label`). Each frame, the app decodes that text into a byte buffer (`binary`), or warns "Invalid input.". A "Random Generate" button fills a buffer of `digit` random bytes and writes it back into the text field as uppercase hex. All of this logic lives inside `BinaryGeneratorWeb::update` in `src/app.rs`. This project models it in three parts.

- `wrappers.dfy` – module `Wrappers`: the `Option` type that stands in for Rust's `Option`.
- `hex_codec.dfy` – module `HexCodec`. It holds:
  - the decoder, as statements: `DecodeText` is the `for` loop with its mutable accumulator and pending two-character buffer;
  - the pure specification `Decode` that the loop is proved equal to;
  - a model of `u8::from_str_radix(_, 16)`, which the loop calls on every pair;
  - the `{:02X}` encoder `Encode`;
  - lemmas tying these together: any bad character poisons the result, a trailing odd digit is dropped, case does not matter, byte `k` comes from characters `2k` and `2k+1`, and encode/decode round-trip.
- `app.dfy` – module `App`. Class `BinaryGenerator` holds the fields `label` (named `labelText` here, because `label` is a Dafny keyword), `binary` and `digit`, with one method per state change `update` makes:
  - editing the text;
  - refreshing `binary` from the decode;
  - random generation;
  - the length slider;
  - a whole frame, in the source's order.

  The predicate `Synced()` says that whenever the label decodes, `binary` is that decode. It holds at the end of every frame: `RefreshBinary`, `RandomGenerate` and `Update` ensure it. A generated label decodes back to the generated buffer, and the failure message does not decode. The default state (label `"0FFF"`, no buffer) and a freshly edited label need not satisfy it.

Bytes are the newtype `byte` (0..255). Text is `string`, i.e. `seq<char>`.

The entropy source (`getrandom`) is a parameter of `RandomGenerate`: `None` when it fails, otherwise the bytes it wrote into the `digit`-byte buffer. The text the user types and the slider position are parameters of `EditLabel`, `SetDigit` and `Update`.

Two behaviours of the code shape the model:
- `src/app.rs:232-240` has no zero-length check, and `getrandom` succeeds on an empty buffer. With `digit` 0 the label would become `""` and the buffer `Some([])`. Only the slider (`src/app.rs:247`) keeps `digit` in 1..=255. So `RandomGenerate` has no precondition on `digit`, and the class instead keeps `Valid()` (1 <= `digit` <= 255), which the constructor and `SetDigit` establish and nothing else changes.
- On invalid input the code keeps the previous buffer (`src/app.rs:213-217`), and so does the model.

## Model

| member | source | states |
|---|---|---|
| `HexCodec.ToAsciiLower` | src/app.rs:195 | lowercasing changes only `A-Z`, never yields `A-Z`, turns exactly the hex digits of either case into `0-9a-f`, and keeps each digit's value |
| `HexCodec.HexDigitValue` | src/app.rs:202 | `to_digit(16)` as `from_str_radix` uses it: every hex digit of either case has a value below 16 |
| `HexCodec.HexDigitValueUpToCase` | src/app.rs:202 | two hex digits have the same value exactly when they are the same digit up to ASCII case |
| `HexCodec.ToAsciiLowercase` | src/app.rs:195 | `to_ascii_lowercase` on the whole text keeps its length, leaves no `A-Z`, and puts a character in `0-9a-f` exactly where the original was a hex digit of either case |
| `HexCodec.AccumulateDigitsRejectsNonHex` | src/app.rs:202 | the digit loop of `from_str_radix` fails whenever any character of its input is not a hex digit |
| `HexCodec.FromStrRadixRejectsNonHex` | src/app.rs:202 | `from_str_radix(_, 16)` fails on any non-hex character other than a single leading `+` |
| `HexCodec.FromStrRadixEdgeCases` | src/app.rs:202 | `""`, `"+"`, `"-"`, `"-a"`, `"++"` and the overflowing `"100"` fail; `"0ff"` gives 255 and `"+F"` gives 15 |
| `HexCodec.FromStrRadixOfHexPair` | src/app.rs:202-207 | `from_str_radix(_, 16)` on two hex digits always succeeds and yields `16*hi + lo`, so the `Err` arm is dead once both characters passed the class check |
| `HexCodec.SignIsRejectedOnlyByClassCheck` | src/app.rs:196-202 | `from_str_radix` alone accepts `"+a"` as 10, and the decoder still rejects `"+a"`: the class check at line 196 is what rules signs out |
| `HexCodec.Decode` | src/app.rs:199-211 | a successful decode has exactly `floor(|text|/2)` bytes: pairs become bytes and a final odd character is dropped |
| `HexCodec.DecodeText` | src/app.rs:192-211 | the loop (lowercase, poison on a bad character, push a byte at every odd index, reset the pending buffer) computes exactly `Decode(text)` |
| `HexCodec.DecodeConcat` | src/app.rs:199-211 | decoding splits at every even position: the decode of `p + q` is both decodes joined, and `None` if either is |
| `HexCodec.DecodeNoneIff` | src/app.rs:195-198 | the decode is `None` if and only if some character, at any position including an unpaired last one, is not a hex digit |
| `HexCodec.DecodeAt` | src/app.rs:199-204 | byte `k` of a valid decode is `16*value(text[2k]) + value(text[2k+1])`, in left-to-right order |
| `HexCodec.DecodeIgnoresCase` | src/app.rs:195 | two texts that agree after ASCII lowercasing decode to the same result |
| `HexCodec.DecodeOfLowercase` | src/app.rs:195 | lowercasing the text first, as the loop does, does not change the decode |
| `HexCodec.DecodeSnoc` | src/app.rs:196-200 | one more character after an even-length prefix is checked and never paired: the decode stays the same when it is a hex digit and becomes `None` when it is not |
| `HexCodec.DecodePair` | src/app.rs:200-204 | a two-character text decodes to its single pair value, or to `None` if either character is not hex |
| `HexCodec.UpperHexDigit` | src/app.rs:238 | the digit written for a nibble is in `0-9A-F` and reads back as that nibble |
| `HexCodec.ByteToHex` | src/app.rs:238 | `{:02X}` gives exactly two uppercase digits that read back, high nibble first, as the byte |
| `HexCodec.Encode` | src/app.rs:238 | the encoding of `b` has exactly `2*|b|` characters, all in `0-9A-F` |
| `HexCodec.EncodeAt` | src/app.rs:238 | characters `2k` and `2k+1` of the encoding are the two digits of byte `k` |
| `HexCodec.DecodeEncode` | src/app.rs:238 | round trip: for every byte sequence `b`, decoding the encoding of `b` gives `Some(b)` |
| `HexCodec.UpperHexDigitOfValue` | src/app.rs:238 | re-encoding a hex digit's value gives the same digit up to case |
| `HexCodec.PairValueNibbles` | src/app.rs:202 | the high and low nibbles of a parsed pair are the values of its two characters |
| `HexCodec.EncodeDecode` | src/app.rs:238 | re-encoding a valid decode reproduces the text up to case (canonical uppercase), minus a dropped odd last character |
| `HexCodec.CodecExamples` | src/app.rs:33 | `""` gives `[]`; both `"0FFF"` (the default label) and `"0fff"` give `[0x0F, 0xFF]`; `"0G"` gives `None`; `"ABC"` gives `[0xAB]`; `[0x0F, 0xFF]` encodes to `"0FFF"` |
| `App.FailureMessageIsInvalid` | src/app.rs:236 | the message "failed to generate random numbers." does not decode, so it never replaces the buffer |
| `App.ClampDigit` | src/app.rs:247 | the slider's value lies in 1..=255, equals the request when the request is in range, and is the nearer bound otherwise |
| `App.BinaryGenerator.constructor` | src/app.rs:29-40 | the default state: label `"0FFF"`, `digit` 8, no buffer, slider invariant holds |
| `App.BinaryGenerator.EditLabel` | src/app.rs:141 | the text field takes the typed text; nothing else changes |
| `App.BinaryGenerator.RefreshBinary` | src/app.rs:213-217 | "Invalid input." is shown exactly when the label does not decode; a valid decode replaces `binary`, an invalid one leaves it and everything else unchanged; afterwards `binary` agrees with the label |
| `App.BinaryGenerator.RandomGenerate` | src/app.rs:232-240 | on success the label becomes the hex of the new bytes and `binary` those bytes, between 1 and 255 of them while the slider invariant holds; on failure the label becomes the failure message and `binary` is kept; either way the label's decode, if any, is `binary` |
| `App.BinaryGenerator.SetDigit` | src/app.rs:247 | `digit` becomes the request clamped to 1..=255, so the slider invariant holds |
| `App.BinaryGenerator.Update` | src/app.rs:141-247 | one frame in the source's order (edit, decode, optional generate, slider): the resulting label, buffer, length and warning flag, with the label and buffer in agreement afterwards |

## Left out

- Window, panel and menu layout, the dark/light buttons, the heading, hyperlinks and the "Powered by" footer (src/app.rs:112-137, 243-287): presentation with no state of the core.
- Zoom and font-size scaling (`zoom_level`, `default_text_styles`) and the `value` slider (src/app.rs:82-110, 250-254): floating-point presentation.
- Font loading and serde persistence of the label (src/app.rs:45-78): I/O through a foreign framework. The model starts from `Default`.
- Clipboard export via `wasm_bindgen_futures::spawn_local` and `web_sys` (src/app.rs:142-189): asynchronous browser I/O behind foreign calls.
- Showing the buffer with `{:?}` in a scroll area (src/app.rs:218-225): display only; it reads `binary` and changes nothing.
- `getrandom` itself (src/app.rs:235): the model takes its outcome as a parameter. It assumes only that a success fills the whole `digit`-byte buffer, and makes no claim about the distribution of the bytes.
- `digit` is a `u32` in the source, modelled as `nat`. The slider keeps it far below 2^32, so the width never matters.
