/**
  The RFC 2047 "B" encoding of header values in the ISO-2022-JP charset
  (section 4.1 of RFC 2047, charset as registered by RFC 1468): the structured
  field encoder `b_value_encode`, the Subject field's variant, and the
  encoded-word writer `encode64`, together with a parser for the words they write.
*/
module BValue {
  import opened Basics
  import Base64
  import opened Tokens

  /** The escape byte that starts every ISO-2022-JP mode switch. */
  const Esc: byte := 0x1B

  /** `s =~ /\e/`: the token switches JIS mode somewhere, so it is not plain ASCII. */
  predicate HasEsc(t: seq<byte>)
    ensures HasEsc(t) <==> exists i :: 0 <= i < |t| && t[i] == Esc
  {
    Esc in t
  }

  /** `=?ISO-2022-JP?B?` */
  const WordPrefix: seq<byte> := [0x3D, 0x3F, 0x49, 0x53, 0x4F, 0x2D, 0x32, 0x30, 0x32, 0x32, 0x2D, 0x4A, 0x50, 0x3F, 0x42, 0x3F]

  /** `?=` */
  const WordSuffix: seq<byte> := [0x3F, 0x3D]

  /** `gsub(x, "")` for a one-byte pattern: every `x` removed, a string
      without `x` left as it is. */
  function RemoveAll(s: seq<byte>, x: byte): (r: seq<byte>)
    ensures x !in r
    ensures x !in s ==> r == s
    decreases |s|
  {
    if |s| == 0 then []
    else if s[0] == x then RemoveAll(s[1..], x)
    else [s[0]] + RemoveAll(s[1..], x)
  }

  /** Removal works piecewise, so it keeps the order of what it keeps. */
  lemma {:induction false} RemoveAllAppend(a: seq<byte>, b: seq<byte>, x: byte)
    ensures RemoveAll(a + b, x) == RemoveAll(a, x) + RemoveAll(b, x)
    decreases |a|
  {
    if |a| == 0 {
      assert a + b == b;
    } else {
      assert (a + b)[1..] == a[1..] + b;
      RemoveAllAppend(a[1..], b, x);
    }
  }

  /** Removing the line feed that ends a line leaves the line. */
  lemma StripLine(line: seq<byte>)
    requires LF !in line
    ensures RemoveAll(line + [LF], LF) == line
  {
    RemoveAllAppend(line, [LF], LF);
  }

  lemma EncodingHasNoLineFeed(s: seq<byte>)
    ensures LF !in Base64.Encode(s)
  {
  }

  /** Removing the line feeds from Ruby's `Base64.encode64` leaves the
      one-line padded encoding of RFC 4648. */
  lemma {:induction false} StrippedRubyEncode64(s: seq<byte>)
    ensures RemoveAll(Base64.RubyEncode64(s), LF) == Base64.Encode(s)
    decreases |s|
  {
    if 0 < |s| <= Base64.LineBytes {
      EncodingHasNoLineFeed(s);
      StripLine(Base64.Encode(s));
    } else if |s| > Base64.LineBytes {
      var head, tail := s[..Base64.LineBytes], s[Base64.LineBytes..];
      var line := Base64.Encode(head);
      assert Base64.RubyEncode64(s) == (line + [LF]) + Base64.RubyEncode64(tail);
      RemoveAllAppend(line + [LF], Base64.RubyEncode64(tail), LF);
      EncodingHasNoLineFeed(head);
      StripLine(line);
      StrippedRubyEncode64(tail);
      Base64.EncodeAppend(head, tail);
      assert head + tail == s;
    }
  }

  /** `encode64`: one encoded word holding the whole of `s`, its payload on a
      single line. */
  function Encode64(s: seq<byte>): (w: seq<byte>)
    ensures w == WordPrefix + Base64.Encode(s) + WordSuffix
  {
    StrippedRubyEncode64(s);
    WordPrefix + RemoveAll(Base64.RubyEncode64(s), LF) + WordSuffix
  }

  /** What `b_value_encode` does to one token. */
  function EncodeToken(t: seq<byte>): (w: seq<byte>)
    ensures HasEsc(t) ==> IsToken(w) && ParseWord(w) == Some(t)
    ensures !HasEsc(t) ==> w == t
  {
    if HasEsc(t) then
      EncodedWordIsToken(t);
      ParseEncode64(t);
      Encode64(t)
    else t
  }

  /** Encoding turns tokens into tokens, so a later split sees the same number. */
  lemma EncodeTokensAreTokens(ts: seq<seq<byte>>)
    requires forall i :: 0 <= i < |ts| ==> IsToken(ts[i])
    ensures forall i :: 0 <= i < |ts| ==> IsToken(EncodeTokens(ts)[i])
  {
  }

  function EncodeTokens(ts: seq<seq<byte>>): (ws: seq<seq<byte>>)
    ensures |ws| == |ts|
  {
    seq(|ts|, i requires 0 <= i < |ts| => EncodeToken(ts[i]))
  }

  /** `b_value_encode` of the structured fields (From, To, Cc, ...): split on
      whitespace, turn every token that switches JIS mode into an encoded word,
      join with single spaces. */
  function BValueEncode(s: seq<byte>): (r: seq<byte>)
    ensures Split(r) == EncodeTokens(Split(s))
    ensures IsCanonical(r)
  {
    var ws := EncodeTokens(Split(s));
    EncodeTokensAreTokens(Split(s));
    SplitJoin(ws);
    JoinIsCanonical(ws);
    Join(ws)
  }

  /** `b_value_encode` of the Subject field: the whole value as one encoded word. */
  function SubjectBValueEncode(s: seq<byte>): (w: seq<byte>)
    ensures Split(w) == [w]
    ensures ParseWord(w) == Some(s)
  {
    EncodedWordIsToken(s);
    SplitJoin([Encode64(s)]);
    ParseEncode64(s);
    Encode64(s)
  }

  /** Reads back one word written by `Encode64`; `None` for anything else. */
  function ParseWord(w: seq<byte>): Option<seq<byte>> {
    if |w| >= |WordPrefix| + |WordSuffix|
      && w[..|WordPrefix|] == WordPrefix
      && w[|w| - |WordSuffix|..] == WordSuffix
    then Base64.Decode(w[|WordPrefix|..|w| - |WordSuffix|])
    else None
  }

  /** Every word `Encode64` writes parses back to the bytes it was given. */
  lemma ParseEncode64(t: seq<byte>)
    ensures ParseWord(Encode64(t)) == Some(t)
  {
    var w := Encode64(t);
    var p := Base64.Encode(t);
    assert w[..|WordPrefix|] == WordPrefix;
    assert w[|w| - |WordSuffix|..] == WordSuffix;
    assert w[|WordPrefix|..|w| - |WordSuffix|] == p;
    Base64.DecodeEncode(t);
  }

  /** Conversely, every word that parses is exactly the word `Encode64` writes
      for what it parses to. */
  lemma Encode64OfParse(w: seq<byte>)
    requires ParseWord(w).Some?
    ensures Encode64(ParseWord(w).value) == w
  {
    var p := w[|WordPrefix|..|w| - |WordSuffix|];
    Base64.EncodeDecode(p);
    assert w == w[..|WordPrefix|] + p + w[|w| - |WordSuffix|..];
  }

  lemma PrefixIsToken()
    ensures IsToken(WordPrefix)
  {
    forall i | 0 <= i < |WordPrefix|
      ensures 0x2D <= WordPrefix[i]
    {
    }
  }

  /** An encoded word holds no whitespace, so a later split keeps it whole. */
  lemma EncodedWordIsToken(t: seq<byte>)
    ensures IsToken(Encode64(t))
  {
    var p := Base64.Encode(t);
    assert forall i :: 0 <= i < |p| ==> !IsWhitespace(p[i]);
    PrefixIsToken();
    assert forall i :: 0 <= i < |WordSuffix| ==> !IsWhitespace(WordSuffix[i]);
    NoWhitespaceAppend(WordPrefix, p);
    NoWhitespaceAppend(WordPrefix + p, WordSuffix);
  }

  /** The payload of every encoded word: letters of section 4 of RFC 4648 and
      closing `=` only, no line feed, whole groups of four, and it decodes back
      to the token. */
  lemma PayloadShape(t: seq<byte>)
    ensures var p := Base64.Encode(t);
      && Encode64(t) == WordPrefix + p + WordSuffix
      && LF !in p
      && |p| % 4 == 0 && |p| == 4 * ((|t| + 2) / 3)
      && (forall i :: 0 <= i < |p| ==> Base64.IsLetter(p[i]) || p[i] == Base64.Pad)
      && (forall i :: 0 <= i < |p| - 2 ==> Base64.IsLetter(p[i]))
      && Base64.Decode(p) == Some(t)
  {
    EncodingHasNoLineFeed(t);
    Base64.DecodeEncode(t);
  }

  /** The structured encoder keeps the number and order of the whitespace-separated
      tokens: token i of the output is token i of the input, written as an encoded
      word of exactly that token when it switches JIS mode and left byte for byte
      as it was otherwise. */
  lemma BValueTokens(s: seq<byte>)
    ensures |Split(BValueEncode(s))| == |Split(s)|
    ensures forall i :: 0 <= i < |Split(s)| ==>
      Split(BValueEncode(s))[i] ==
        if HasEsc(Split(s)[i]) then WordPrefix + Base64.Encode(Split(s)[i]) + WordSuffix else Split(s)[i]
  {
    var ts := Split(s);
    assert Split(BValueEncode(s)) == EncodeTokens(ts);
  }

  /** The structured encoder gives the empty string exactly for empty or
      all-whitespace input. */
  lemma BValueEmpty(s: seq<byte>)
    ensures BValueEncode(s) == [] <==> AllWhitespace(s)
  {
  }

  /** A value with no JIS mode switch, single spaces between its tokens and no
      whitespace at either end comes out unchanged. */
  lemma BValueIdentity(s: seq<byte>)
    requires !HasEsc(s) && IsCanonical(s)
    ensures BValueEncode(s) == s
  {
    var ts := Split(s);
    SplitKeepsAbsent(s, Esc);
    assert EncodeTokens(ts) == ts;
    JoinSplit(s);
  }

  /** The Subject variant on the empty value still writes one, empty, encoded word. */
  lemma SubjectEmpty()
    ensures SubjectBValueEncode([]) == [0x3D, 0x3F, 0x49, 0x53, 0x4F, 0x2D, 0x32, 0x30, 0x32, 0x32, 0x2D, 0x4A, 0x50, 0x3F, 0x42, 0x3F, 0x3F, 0x3D]
  {
  }

  /** The Japanese letter "a" (hiragana) in ISO-2022-JP, `ESC $ B $ " ESC ( B`,
      as a Subject: `=?ISO-2022-JP?B?GyRCJCIbKEI=?=`. */
  lemma SubjectHiragana()
    ensures SubjectBValueEncode([0x1B, 0x24, 0x42, 0x24, 0x22, 0x1B, 0x28, 0x42])
         == WordPrefix + [0x47, 0x79, 0x52, 0x43, 0x4A, 0x43, 0x49, 0x62, 0x4B, 0x45, 0x49, 0x3D] + WordSuffix
  {
    Base64.EncodeHiragana();
  }

  /** What a reader of the header does with one token: an encoded word is
      replaced by the bytes it encodes, anything else is kept. */
  function DecodeToken(w: seq<byte>): seq<byte> {
    match ParseWord(w)
    case Some(t) => t
    case None => w
  }

  /** Reads back a structured value: split, decode each encoded word, join. */
  function DecodeHeader(h: seq<byte>): seq<byte> {
    var ws := Split(h);
    Join(seq(|ws|, i requires 0 <= i < |ws| => DecodeToken(ws[i])))
  }

  /** A literal token that a reader would take for an encoded word. */
  predicate LooksEncoded(t: seq<byte>) {
    ParseWord(t).Some?
  }

  lemma DecodeEncodeToken(t: seq<byte>)
    requires HasEsc(t) || !LooksEncoded(t)
    ensures DecodeToken(EncodeToken(t)) == t
  {
    if HasEsc(t) {
      ParseEncode64(t);
    }
  }

  /** Reading back the structured encoder's output, decoding every encoded
      word, gives the input with its whitespace runs collapsed, as long as no
      plain token of the input is itself spelled like an encoded word. */
  lemma DecodeBValueEncode(s: seq<byte>)
    requires forall i :: 0 <= i < |Split(s)| ==> HasEsc(Split(s)[i]) || !LooksEncoded(Split(s)[i])
    ensures DecodeHeader(BValueEncode(s)) == Join(Split(s))
  {
    var ts := Split(s);
    BValueTokens(s);
    var ws := Split(BValueEncode(s));
    var ds := seq(|ws|, i requires 0 <= i < |ws| => DecodeToken(ws[i]));
    forall i | 0 <= i < |ts|
      ensures ds[i] == ts[i]
    {
      DecodeEncodeToken(ts[i]);
    }
    assert ds == ts;
  }
}
