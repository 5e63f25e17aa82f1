# ISO-2022-JP header encoding for a Ruby mail library, in Dafny

`mail-iso-2022-jp` patches the header-field classes of the Ruby `mail` gem so
that a field built with the charset `iso-2022-jp` is encoded the way Japanese
mail has traditionally been sent:

- the text has every WAVE DASH (U+301C) replaced by a FULLWIDTH TILDE (U+FF5E);
- it is converted to ISO-2022-JP bytes;
- it is written as RFC 2047 "B" encoded words, `=?ISO-2022-JP?B?<base64>?=`
  (section 4.1 of RFC 2047, charset as in RFC 1468).

Structured fields (From, Sender, To, Cc, Reply-To, Resent-From, Resent-Sender,
Resent-To, Resent-Cc) encode only the whitespace-separated tokens that contain
an ESC byte, i.e. a JIS mode switch. They rejoin the tokens with single spaces.
The Subject field encodes its whole value as one encoded word. Under that
charset the patched `do_decode` and `encode` return the value as stored. Any
other charset goes to the host library untouched.

The model is a set of pure functions over byte strings (`seq<bv8>`) and code
points (`string`), in five modules:

- `basics.dfy`: the byte type, `Option`, LF.
- `base64.dfy`: Base64 of section 4 of RFC 4648.
  - A padded encoder.
  - A strict decoder as its independent partner.
  - Ruby's `Base64.encode64`, i.e. `pack("m")`: 45 input bytes per line, each line ended by LF (section 6.8 of RFC 2045).
- `tokens.dfy`: Ruby's awk-style `split(' ')` and `join(" ")`.
- `bvalue.dfy`: `encode64`, both `b_value_encode`s, and a parser for the encoded words they write.
- `field_encoding.dfy`: wave-dash substitution, the charset test, and the `initialize`, `do_decode` and `encode` hooks.

What the code does that is easy to miss:

- `split(' ')` in Ruby splits on runs of any ASCII whitespace (space, \t, \n,
  \v, \f, \r), drops leading and trailing whitespace and never yields an empty
  token. It does not split on the single byte 0x20. The structured encoder
  therefore collapses whitespace runs to one space. ASCII-only text comes back
  unchanged only when it is already spaced that way (`BValue.BValueIdentity`).
- Every value is encoded, the empty one included. `nil` becomes `""` through
  `to_s`, and the Subject field turns `""` into `=?ISO-2022-JP?B??=`. No
  non-empty test guards the encoder.
- A failure of the host's conversion propagates unchanged; the model writes
  it as `None`.

## Model

| member | source | states |
|---|---|---|
| `Base64.Encode` | lib/mail-iso-2022-jp/patches.rb:76 | the Base64 of n bytes has 4·⌈n/3⌉ characters; all are letters of `A-Z a-z 0-9 + /`, except one or two closing `=` |
| `Base64.DecodeEncode` | lib/mail-iso-2022-jp/patches.rb:76 | decoding the Base64 of any byte string gives that byte string back |
| `Base64.EncodeDecode` | lib/mail-iso-2022-jp/patches.rb:76 | every string the strict decoder accepts is the Base64 of what it decodes to; with `DecodeEncode`, encoding is a bijection onto the accepted strings |
| `Base64.EncodeAppend` | lib/mail-iso-2022-jp/patches.rb:76 | a prefix made of whole 3-byte groups is encoded independently of what follows |
| `Base64.RubyEncode64` | lib/mail-iso-2022-jp/patches.rb:76 | `Base64.encode64` is empty exactly for empty input, otherwise ends in LF, and is as long as the one-line encoding plus one LF per started 45-byte line |
| `Base64.RubyEncode64FirstLine` | lib/mail-iso-2022-jp/patches.rb:76 | for more than 45 input bytes, the first line is the 60-letter encoding of the first 45 bytes and an LF, followed by the encoding of the rest |
| `Base64.EncodeHiragana` | lib/mail-iso-2022-jp/patches.rb:76 | worked example: the hiragana "a" in ISO-2022-JP, `ESC $ B $ " ESC ( B`, encodes to `GyRCJCIbKEI=` |
| `BValue.RemoveAll` | lib/mail-iso-2022-jp/patches.rb:76 | `gsub("\n", "")` leaves no LF in its result, and a string that had none comes back unchanged |
| `BValue.StrippedRubyEncode64` | lib/mail-iso-2022-jp/patches.rb:76 | `encode64` output with its line feeds removed is exactly the one-line padded Base64 of RFC 4648 |
| `BValue.Encode64` | lib/mail-iso-2022-jp/patches.rb:75-77 | the encoded word is `=?ISO-2022-JP?B?` + the one-line Base64 of the whole input + `?=` |
| `BValue.PayloadShape` | lib/mail-iso-2022-jp/patches.rb:76 | the payload has no LF, is in the Base64 alphabet with `=` only in its last two places, has length a multiple of 4, and decodes to the token |
| `BValue.ParseEncode64` | lib/mail-iso-2022-jp/patches.rb:75-77 | every encoded word written parses back to the bytes it was written from |
| `BValue.Encode64OfParse` | lib/mail-iso-2022-jp/patches.rb:75-77 | every word that parses is exactly the word written for what it parses to |
| `BValue.EncodedWordIsToken` | lib/mail-iso-2022-jp/patches.rb:75-77 | an encoded word is non-empty and contains no whitespace byte |
| `BValue.HasEsc` | lib/mail-iso-2022-jp/patches.rb:51 | `s =~ /\e/` holds exactly when some position of the token holds the ESC byte 0x1B |
| `BValue.EncodeToken` | lib/mail-iso-2022-jp/patches.rb:51-55 | a token with ESC becomes a whitespace-free token that parses back to it; a token without ESC is kept as it is |
| `BValue.BValueEncode` | lib/mail-iso-2022-jp/patches.rb:49-57 | splitting the output gives the input's tokens each passed through `EncodeToken`, and the output is canonically spaced (single spaces, none at either end) |
| `BValue.BValueTokens` | lib/mail-iso-2022-jp/patches.rb:49-57 | the structured encoder keeps token count and order; output token i is `=?ISO-2022-JP?B?` + Base64(input token i) + `?=` when that token has an ESC byte, and the input token byte for byte otherwise |
| `BValue.BValueEmpty` | lib/mail-iso-2022-jp/patches.rb:49-57 | the structured encoder returns the empty string exactly for empty or all-whitespace input |
| `BValue.BValueIdentity` | lib/mail-iso-2022-jp/patches.rb:49-57 | input without ESC, with no whitespace at either end and single spaces between tokens, comes out unchanged |
| `BValue.DecodeBValueEncode` | lib/mail-iso-2022-jp/patches.rb:49-57 | reading the structured encoder's output back (split, replace every token that parses as an encoded word by its bytes, join) gives the input with whitespace runs collapsed, provided every input token without ESC does not itself parse as an encoded word |
| `BValue.SubjectBValueEncode` | lib/mail-iso-2022-jp/patches.rb:82-84 | the Subject variant always yields exactly one whitespace-free token, and it parses back to the entire input |
| `BValue.SubjectEmpty` | lib/mail-iso-2022-jp/patches.rb:82-84 | the Subject variant turns the empty value into `=?ISO-2022-JP?B??=` |
| `BValue.SubjectHiragana` | lib/mail-iso-2022-jp/patches.rb:82-84 | worked example: the hiragana "a" as Subject is `=?ISO-2022-JP?B?GyRCJCIbKEI=?=` |
| `Tokens.Split` | lib/mail-iso-2022-jp/patches.rb:50 | `split(' ')` yields only non-empty tokens without whitespace, and yields none exactly when the input is all whitespace |
| `Tokens.SplitAtWhitespace` | lib/mail-iso-2022-jp/patches.rb:50 | any whitespace byte cuts the string: the tokens of `a + [w] + b` are those of `a` followed by those of `b`, so runs, tabs and line breaks separate as one space does |
| `Tokens.Join` | lib/mail-iso-2022-jp/patches.rb:56 | `join(" ")` adds no byte but spaces, and keeps every byte of every token |
| `Tokens.SplitJoin` | lib/mail-iso-2022-jp/patches.rb:50-56 | splitting a space-joined list of tokens gives back the same list (count and order) |
| `Tokens.JoinIsCanonical` | lib/mail-iso-2022-jp/patches.rb:56 | `join(" ")` of tokens has no whitespace at either end and only single spaces inside; it is empty exactly for the empty list |
| `Tokens.JoinSplit` | lib/mail-iso-2022-jp/patches.rb:50-56 | split-then-join returns a canonically spaced string unchanged |
| `Tokens.JoinSplitIdentity` | lib/mail-iso-2022-jp/patches.rb:50-56 | split-then-join is the identity exactly on canonically spaced strings, and it does not change the tokens of any string |
| `Tokens.SplitKeepsAbsent` | lib/mail-iso-2022-jp/patches.rb:50-51 | a byte absent from the input (ESC, say) is absent from every token |
| `FieldEncoding.SubstituteWaveDash` | lib/mail-iso-2022-jp/patches.rb:37 | the result has the same length, no WAVE DASH, a FULLWIDTH TILDE wherever the input had a WAVE DASH, and every other code point unchanged |
| `FieldEncoding.SubstituteWaveDashIdempotent` | lib/mail-iso-2022-jp/patches.rb:37 | text without WAVE DASH is left alone, so substituting twice equals substituting once |
| `FieldEncoding.ToS` | lib/mail-iso-2022-jp/patches.rb:37 | `to_s` is empty exactly for `nil` and `""`, and keeps a String as it is |
| `FieldEncoding.IsIso2022Jp` | lib/mail-iso-2022-jp/patches.rb:17 | `charset.to_s.downcase == 'iso-2022-jp'` holds exactly for the 11-character spellings of `iso-2022-jp` with letters in either case; the same test guards `do_decode` (line 29) and `encode` (line 61) |
| `FieldEncoding.CharsetExamples` | lib/mail-iso-2022-jp/patches.rb:17 | `ISO-2022-JP` and `Iso-2022-Jp` engage the hooks; `utf-8`, a trailing space and `nil` do not |
| `FieldEncoding.BValueEncodeFor` | lib/mail-iso-2022-jp/patches.rb:82-84 | the Subject class writes one whitespace-free encoded word that parses back to the whole value; the structured classes write the token-wise encoding, canonically spaced |
| `FieldEncoding.EncodeWithIso2022Jp` | lib/mail-iso-2022-jp/patches.rb:36-47 | fails exactly when converting the wave-dash-substituted text fails; a Subject gives one encoded word that parses back to the converted bytes; a structured field gives the converted bytes' tokens, each encoded per token, canonically spaced |
| `FieldEncoding.EncodeEach` | lib/mail-iso-2022-jp/patches.rb:18-19 | an Array is encoded element by element with the same length and order, and fails if any element fails |
| `FieldEncoding.Initialize` | lib/mail-iso-2022-jp/patches.rb:16-25 | the host initializer receives the charset unchanged; under another charset it also receives the value unchanged; under ISO-2022-JP it receives the encoded value or the element-wise encoded Array |
| `FieldEncoding.DoDecode` | lib/mail-iso-2022-jp/patches.rb:28-34 | under ISO-2022-JP decoding returns the stored value; otherwise it is the host's decoding |
| `FieldEncoding.Encode` | lib/mail-iso-2022-jp/patches.rb:60-66 | under ISO-2022-JP `encode` returns its argument; otherwise it is the host's `encode` |
| `FieldEncoding.IdentityUnderIso2022Jp` | lib/mail-iso-2022-jp/patches.rb:28-34 | under every case spelling of `iso-2022-jp`, decoding and `encode` are the identity whatever the host would do |
| `FieldEncoding.Utf8PassesThrough` | lib/mail-iso-2022-jp/patches.rb:16-25 | with the default charset `utf-8` the value reaches the host unchanged |
| `FieldEncoding.EncodeSeesSubstitutedText` | lib/mail-iso-2022-jp/patches.rb:36-37 | a WAVE DASH is encoded as a FULLWIDTH TILDE would be, and `nil` as the empty string |
| `FieldEncoding.PlainTextUnchanged` | lib/mail-iso-2022-jp/patches.rb:36-57 | if the converted bytes have no ESC and canonical spacing, a structured field gets them unchanged and a Subject gets them as one encoded word |

## Left out

- The `alias_method` wiring in `self.included` (patches.rb:9-14) and the class reopenings (patches.rb:80-121). They are Ruby metaprogramming over classes the host owns. The choice they make is modelled as `FieldKind`: `Structured` or `Subject`.
- The Unicode to ISO-2022-JP conversion, `Mail.encoding_to_charset` (patches.rb:39). It is the host's JIS code tables. It is a `Transcoder` parameter, and `None` stands for it raising.
- The pre-1.9 branch with `NKF.nkf` (patches.rb:43-45) and every `force_encoding` (patches.rb:38, 40, 42, 70). The branch is for an obsolete Ruby. `force_encoding` only retags a string and leaves its bytes alone.
- `encode_crlf` (patches.rb:68-73) and every call to `super` or to a `*_without_iso_2022_jp_encoding` method. Their behaviour lives in the host library. The host's initializer is represented by the `HostCall` it receives; its decoder and `encode` are function parameters.
- Header line folding and the generic codec for other charsets. Both belong to the host library.
- The definitions of `WAVE_DASH` and `FULLWIDTH_TILDE` are not part of this model. They are taken as U+301C and U+FF5E.
- `FieldEncoding.IsIso2022Jp` models `downcase` as ASCII-only. Newer Rubies' Unicode `downcase` turns only two non-ASCII characters into something that starts with an ASCII letter: KELVIN SIGN becomes `k`, which `iso-2022-jp` does not contain, and U+0130 becomes `i` followed by U+0307, which stays in the result. So the comparison comes out the same.
- Values are modelled as valid Unicode text (`string`). The errors that `gsub` at patches.rb:37 raises on a String with bytes invalid in its encoding (`ArgumentError`) or with an encoding incompatible with the UTF-8 pattern (`Encoding::CompatibilityError`) are not modelled.
- `FieldEncoding.ToS` knows only `nil` and String. The `to_s` of other objects, nested Arrays included, is not modelled.
- `FieldEncoding.DoDecode` takes the host's decoder as a function of the stored value. In Ruby it reads the field object itself.
- `Base64.Decode` (the strict decoder of RFC 4648) and `BValue.DecodeHeader` do not appear in the patch. They are the reference partners against which the encoders are proved.
