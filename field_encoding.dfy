/**
  The hooks that `FieldWithIso2022JpEncoding` puts around a header field of the
  host mail library: encoding on construction (`initialize`), decoding, and the
  field's `encode`. They engage only when the field's charset is ISO-2022-JP;
  every other charset is handed to the host untouched.
*/
module FieldEncoding {
  import opened Basics
  import opened Tokens
  import opened BValue

  /** `WAVE_DASH`, U+301C. */
  const WaveDash: char := '〜'

  /** `FULLWIDTH_TILDE`, U+FF5E. */
  const FullwidthTilde: char := '～'

  /** The only charset the hooks act on, compared after downcasing. */
  const Iso2022Jp: string := "iso-2022-jp"

  /** A Ruby object as far as the hooks look at it: `nil` or a String. */
  datatype Scalar = Nil | Str(text: string)

  /** `to_s`: `nil` becomes the empty string, a String stays itself. */
  function ToS(v: Scalar): (s: string)
    ensures s == [] <==> v == Nil || v == Str([])
    ensures v.Str? ==> s == v.text
  {
    match v
    case Nil => ""
    case Str(t) => t
  }

  /** The value a field is constructed with: one object, or an Array of them. */
  datatype FieldValue = One(item: Scalar) | Many(items: seq<Scalar>)

  /** Which `b_value_encode` the field class has: the structured fields (From,
      Sender, To, Cc, Reply-To and the Resent- ones) keep the module's, the
      Subject field overrides it. */
  datatype FieldKind = Structured | Subject

  /** What reaches the host's own initializer in place of the value. */
  datatype Stored = AsGiven(value: FieldValue) | Encoded(bytes: seq<byte>) | EncodedList(list: seq<seq<byte>>)

  /** The arguments of the call to `initialize_without_iso_2022_jp_encoding`. */
  datatype HostCall = HostCall(value: Stored, charset: Scalar)

  /** The host's Unicode to ISO-2022-JP conversion (`Mail.encoding_to_charset`),
      given the text and the charset; `None` when it raises. */
  type Transcoder = (string, Scalar) -> Option<seq<byte>>

  /** `gsub(/#{WAVE_DASH}/, FULLWIDTH_TILDE)`. */
  function SubstituteWaveDash(s: string): (r: string)
    ensures |r| == |s|
    ensures WaveDash !in r
    ensures forall i :: 0 <= i < |s| && s[i] != WaveDash ==> r[i] == s[i]
    ensures forall i :: 0 <= i < |s| && s[i] == WaveDash ==> r[i] == FullwidthTilde
    decreases |s|
  {
    if |s| == 0 then []
    else [if s[0] == WaveDash then FullwidthTilde else s[0]] + SubstituteWaveDash(s[1..])
  }

  /** Text without a wave dash is left alone, so substituting twice is substituting once. */
  lemma SubstituteWaveDashIdempotent(s: string)
    ensures WaveDash !in s ==> SubstituteWaveDash(s) == s
    ensures SubstituteWaveDash(SubstituteWaveDash(s)) == SubstituteWaveDash(s)
  {
  }

  /** ASCII `downcase` of one character. */
  function Downcase(c: char): char {
    if 'A' <= c <= 'Z' then (c as int + 32) as char else c
  }

  /** ASCII `upcase` of one character. */
  function Upcase(c: char): char {
    if 'a' <= c <= 'z' then (c as int - 32) as char else c
  }

  lemma DowncaseMatches(c: char, t: char)
    requires !('A' <= t <= 'Z')
    ensures Downcase(c) == t <==> c == t || c == Upcase(t)
  {
  }

  /** `charset.to_s.downcase == 'iso-2022-jp'`. It accepts exactly the spellings
      of `iso-2022-jp` in which any letter may be upper or lower case. */
  predicate IsIso2022Jp(charset: Scalar)
    ensures IsIso2022Jp(charset) <==>
      var s := ToS(charset);
      |s| == |Iso2022Jp| && forall i :: 0 <= i < |s| ==> s[i] == Iso2022Jp[i] || s[i] == Upcase(Iso2022Jp[i])
  {
    var s := ToS(charset);
    |s| == |Iso2022Jp| && forall i :: 0 <= i < |s| ==> Downcase(s[i]) == Iso2022Jp[i]
  }

  lemma CharsetExamples()
    ensures IsIso2022Jp(Str("ISO-2022-JP"))
    ensures IsIso2022Jp(Str("Iso-2022-Jp"))
    ensures !IsIso2022Jp(Str("utf-8"))
    ensures !IsIso2022Jp(Str("iso-2022-jp "))
    ensures !IsIso2022Jp(Nil)
  {
  }

  /** The `b_value_encode` of the field's class: one encoded word of the whole
      value for a Subject, the token-wise encoding for a structured field. */
  function BValueEncodeFor(kind: FieldKind, s: seq<byte>): (r: seq<byte>)
    ensures kind == Subject ==> Split(r) == [r] && ParseWord(r) == Some(s)
    ensures kind == Structured ==> Split(r) == EncodeTokens(Split(s)) && IsCanonical(r)
  {
    match kind
    case Structured => BValueEncode(s)
    case Subject => SubjectBValueEncode(s)
  }

  /** `encode_with_iso_2022_jp`: substitute the wave dash, convert to
      ISO-2022-JP bytes, B-encode. A failing conversion fails the whole call. */
  function EncodeWithIso2022Jp(kind: FieldKind, value: Scalar, charset: Scalar, transcode: Transcoder): (r: Option<seq<byte>>)
    ensures r.None? <==> transcode(SubstituteWaveDash(ToS(value)), charset).None?
    ensures r.Some? && kind == Subject ==>
      Split(r.value) == [r.value] && ParseWord(r.value) == transcode(SubstituteWaveDash(ToS(value)), charset)
    ensures r.Some? && kind == Structured ==>
      Split(r.value) == EncodeTokens(Split(transcode(SubstituteWaveDash(ToS(value)), charset).value))
      && IsCanonical(r.value)
  {
    match transcode(SubstituteWaveDash(ToS(value)), charset)
    case None => None
    case Some(bytes) => Some(BValueEncodeFor(kind, bytes))
  }

  /** `value.map { |e| encode_with_iso_2022_jp(e, charset) }`: every element in
      order, and the first failure fails the whole map. */
  function EncodeEach(kind: FieldKind, items: seq<Scalar>, charset: Scalar, transcode: Transcoder): (r: Option<seq<seq<byte>>>)
    ensures r.Some? <==> forall i :: 0 <= i < |items| ==> EncodeWithIso2022Jp(kind, items[i], charset, transcode).Some?
    ensures r.Some? ==> |r.value| == |items|
    ensures r.Some? ==> forall i :: 0 <= i < |items| ==> Some(r.value[i]) == EncodeWithIso2022Jp(kind, items[i], charset, transcode)
    decreases |items|
  {
    if |items| == 0 then Some([])
    else
      match EncodeWithIso2022Jp(kind, items[0], charset, transcode)
      case None => None
      case Some(w) =>
        match EncodeEach(kind, items[1..], charset, transcode)
        case None => None
        case Some(ws) => Some([w] + ws)
  }

  /** `initialize_with_iso_2022_jp_encoding`: the call it makes to the host's
      initializer, or `None` when the conversion raised first. */
  function Initialize(kind: FieldKind, value: FieldValue, charset: Scalar, transcode: Transcoder): (r: Option<HostCall>)
    ensures r.Some? ==> r.value.charset == charset
    ensures !IsIso2022Jp(charset) ==> r == Some(HostCall(AsGiven(value), charset))
    ensures IsIso2022Jp(charset) && value.One? ==>
      (r.Some? <==> EncodeWithIso2022Jp(kind, value.item, charset, transcode).Some?) &&
      (r.Some? ==> r.value.value.Encoded? && Some(r.value.value.bytes) == EncodeWithIso2022Jp(kind, value.item, charset, transcode))
    ensures IsIso2022Jp(charset) && value.Many? ==>
      (r.Some? <==> forall i :: 0 <= i < |value.items| ==> EncodeWithIso2022Jp(kind, value.items[i], charset, transcode).Some?) &&
      (r.Some? ==> r.value.value.EncodedList? && |r.value.value.list| == |value.items| &&
                   forall i :: 0 <= i < |value.items| ==>
                     Some(r.value.value.list[i]) == EncodeWithIso2022Jp(kind, value.items[i], charset, transcode))
  {
    if IsIso2022Jp(charset) then
      match value
      case Many(items) =>
        (match EncodeEach(kind, items, charset, transcode)
         case None => None
         case Some(ws) => Some(HostCall(EncodedList(ws), charset)))
      case One(item) =>
        (match EncodeWithIso2022Jp(kind, item, charset, transcode)
         case None => None
         case Some(w) => Some(HostCall(Encoded(w), charset)))
    else Some(HostCall(AsGiven(value), charset))
  }

  /** `do_decode_with_iso_2022_jp_encoding`: the stored value as it is under
      ISO-2022-JP, the host's decoding otherwise. */
  function DoDecode<V>(charset: Scalar, value: V, hostDecode: V -> V): (r: V)
    ensures IsIso2022Jp(charset) ==> r == value
    ensures !IsIso2022Jp(charset) ==> r == hostDecode(value)
  {
    if IsIso2022Jp(charset) then value else hostDecode(value)
  }

  /** The field's `encode`: its argument as it is under ISO-2022-JP, the host's
      `encode` otherwise. */
  function Encode<V>(charset: Scalar, value: V, hostEncode: V -> V): (r: V)
    ensures IsIso2022Jp(charset) ==> r == value
    ensures !IsIso2022Jp(charset) ==> r == hostEncode(value)
  {
    if IsIso2022Jp(charset) then value else hostEncode(value)
  }

  /** Under any spelling of ISO-2022-JP, decoding and `encode` give back what
      they were given, whatever the host would have done. */
  lemma IdentityUnderIso2022Jp<V>(charset: Scalar, value: V, hostDecode: V -> V, hostEncode: V -> V)
    requires var s := ToS(charset);
      |s| == |Iso2022Jp| && forall i :: 0 <= i < |s| ==> s[i] == Iso2022Jp[i] || s[i] == Upcase(Iso2022Jp[i])
    ensures DoDecode(charset, value, hostDecode) == value
    ensures Encode(charset, value, hostEncode) == value
  {
  }

  /** A value that arrives with the default charset, `utf-8`, reaches the host unchanged. */
  lemma Utf8PassesThrough(kind: FieldKind, value: FieldValue, transcode: Transcoder)
    ensures Initialize(kind, value, Str("utf-8"), transcode) == Some(HostCall(AsGiven(value), Str("utf-8")))
  {
  }

  /** A wave dash and a fullwidth tilde are encoded alike, and a `nil` value is
      encoded as the empty string. */
  lemma EncodeSeesSubstitutedText(kind: FieldKind, s: string, charset: Scalar, transcode: Transcoder)
    ensures EncodeWithIso2022Jp(kind, Str(s), charset, transcode)
         == EncodeWithIso2022Jp(kind, Str(SubstituteWaveDash(s)), charset, transcode)
    ensures EncodeWithIso2022Jp(kind, Nil, charset, transcode) == EncodeWithIso2022Jp(kind, Str(""), charset, transcode)
  {
    SubstituteWaveDashIdempotent(s);
  }

  /** Text whose conversion holds no JIS mode switch and is already spaced
      canonically leaves a structured field unchanged; the Subject field wraps
      it in one encoded word all the same. */
  lemma PlainTextUnchanged(s: string, charset: Scalar, transcode: Transcoder, bytes: seq<byte>)
    requires transcode(SubstituteWaveDash(s), charset) == Some(bytes)
    requires !HasEsc(bytes) && IsCanonical(bytes)
    ensures EncodeWithIso2022Jp(Structured, Str(s), charset, transcode) == Some(bytes)
    ensures EncodeWithIso2022Jp(Subject, Str(s), charset, transcode) == Some(Encode64(bytes))
  {
    BValueIdentity(bytes);
  }
}
