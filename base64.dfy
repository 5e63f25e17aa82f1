/**
  Base64 as defined in section 4 of RFC 4648 (standard alphabet, `=` padding),
  and Ruby's `Base64.encode64`, which is `[s].pack("m")`: the same encoding cut
  into lines of 60 characters (45 input bytes), each line ended by a line feed
  (section 6.8 of RFC 2045).
*/
module Base64 {
  import opened Basics

  /** The padding character `=`. */
  const Pad: byte := 0x3D

  /** The 64 letters `A-Z a-z 0-9 + /`. */
  predicate IsLetter(c: byte) {
    (0x41 <= c <= 0x5A) || (0x61 <= c <= 0x7A) || (0x30 <= c <= 0x39) || c == 0x2B || c == 0x2F
  }

  /** The letter that stands for the 6-bit value `v`. */
  function Letter(v: byte): (c: byte)
    requires v < 64
    ensures IsLetter(c)
    ensures Value(c) == Some(v)
  {
    if v < 26 then 0x41 + v
    else if v < 52 then 0x61 + (v - 26)
    else if v < 62 then 0x30 + (v - 52)
    else if v == 62 then 0x2B
    else 0x2F
  }

  /** The 6-bit value a letter stands for; `None` for any other byte (padding included). */
  function Value(c: byte): (r: Option<byte>)
    ensures r.Some? <==> IsLetter(c)
    ensures r.Some? ==> r.value < 64
  {
    if 0x41 <= c <= 0x5A then Some(c - 0x41)
    else if 0x61 <= c <= 0x7A then Some(c - 0x61 + 26)
    else if 0x30 <= c <= 0x39 then Some(c - 0x30 + 52)
    else if c == 0x2B then Some(62)
    else if c == 0x2F then Some(63)
    else None
  }

  lemma LetterOfValue(c: byte)
    requires IsLetter(c)
    ensures Value(c).Some? && Letter(Value(c).value) == c
  {
  }

  /** The shape every encoding has: whole groups of four, letters only, except
      for one or two `=` that close the last group. */
  predicate IsPadded(t: seq<byte>) {
    && |t| % 4 == 0
    && (forall i :: 0 <= i < |t| ==> IsLetter(t[i]) || (t[i] == Pad && i >= |t| - 2))
    && (|t| > 0 && t[|t| - 2] == Pad ==> t[|t| - 1] == Pad)
  }

  /** Three bytes as four letters. */
  function EncodeGroup(b0: byte, b1: byte, b2: byte): (g: seq<byte>)
    ensures |g| == 4 && IsLetter(g[0]) && IsLetter(g[1]) && IsLetter(g[2]) && IsLetter(g[3])
  {
    [Letter(b0 >> 2), Letter(((b0 & 3) << 4) | (b1 >> 4)), Letter(((b1 & 15) << 2) | (b2 >> 6)), Letter(b2 & 63)]
  }

  /** A group of four letters in front of a padded string keeps it padded. */
  lemma PaddedAfterGroup(g: seq<byte>, t: seq<byte>)
    requires |g| == 4 && IsLetter(g[0]) && IsLetter(g[1]) && IsLetter(g[2]) && IsLetter(g[3])
    requires IsPadded(t)
    ensures IsPadded(g + t)
  {
    var r := g + t;
    forall i | 0 <= i < |r|
      ensures IsLetter(r[i]) || (r[i] == Pad && i >= |r| - 2)
    {
      if i >= 4 {
        assert r[i] == t[i - 4];
      }
    }
    if |t| > 0 {
      assert r[|r| - 2] == t[|t| - 2] && r[|r| - 1] == t[|t| - 1];
    }
  }

  /** The last one or two bytes as two or three letters, padded to four. */
  function EncodeLast(s: seq<byte>): (g: seq<byte>)
    requires 1 <= |s| <= 2
    ensures |g| == 4 && IsLetter(g[0]) && IsLetter(g[1]) && g[3] == Pad
    ensures if |s| == 1 then g[2] == Pad else IsLetter(g[2])
  {
    if |s| == 1 then [Letter(s[0] >> 2), Letter((s[0] & 3) << 4), Pad, Pad]
    else [Letter(s[0] >> 2), Letter(((s[0] & 3) << 4) | (s[1] >> 4)), Letter((s[1] & 15) << 2), Pad]
  }

  /** The encoding of section 4 of RFC 4648, padded, on one line. */
  function Encode(s: seq<byte>): (t: seq<byte>)
    ensures |t| == 4 * ((|s| + 2) / 3)
    ensures IsPadded(t)
    decreases |s|
  {
    if |s| == 0 then []
    else if |s| <= 2 then EncodeLast(s)
    else
      var g := EncodeGroup(s[0], s[1], s[2]);
      var rest := Encode(s[3..]);
      PaddedAfterGroup(g, rest);
      g + rest
  }

  /** Four letters as three bytes. */
  function DecodeGroup(g: seq<byte>): (r: Option<seq<byte>>)
    requires |g| == 4
    ensures r.Some? <==> IsLetter(g[0]) && IsLetter(g[1]) && IsLetter(g[2]) && IsLetter(g[3])
    ensures r.Some? ==> |r.value| == 3
  {
    match (Value(g[0]), Value(g[1]), Value(g[2]), Value(g[3]))
    case (Some(v0), Some(v1), Some(v2), Some(v3)) =>
      Some([(v0 << 2) | (v1 >> 4), ((v1 & 15) << 4) | (v2 >> 2), ((v2 & 3) << 6) | v3])
    case _ => None
  }

  /** The last group, which may end in padding. The decoder is strict: the bits
      that padding leaves over must be zero, as section 3.5 of RFC 4648 asks. */
  function DecodeLastGroup(g: seq<byte>): (r: Option<seq<byte>>)
    requires |g| == 4
  {
    if g[2] == Pad && g[3] == Pad then
      match (Value(g[0]), Value(g[1]))
      case (Some(v0), Some(v1)) =>
        if v1 & 15 == 0 then Some([(v0 << 2) | (v1 >> 4)]) else None
      case _ => None
    else if g[3] == Pad then
      match (Value(g[0]), Value(g[1]), Value(g[2]))
      case (Some(v0), Some(v1), Some(v2)) =>
        if v2 & 3 == 0 then Some([(v0 << 2) | (v1 >> 4), ((v1 & 15) << 4) | (v2 >> 2)]) else None
      case _ => None
    else DecodeGroup(g)
  }

  /** Strict decoder of section 4 of RFC 4648: `None` for anything `Encode` cannot produce. */
  function Decode(t: seq<byte>): (r: Option<seq<byte>>)
    decreases |t|
  {
    if |t| == 0 then Some([])
    else if |t| < 4 then None
    else if |t| == 4 then DecodeLastGroup(t)
    else match DecodeGroup(t[..4])
      case None => None
      case Some(head) =>
        match Decode(t[4..])
        case None => None
        case Some(tail) => Some(head + tail)
  }

  lemma DecodeEncodeGroup(b0: byte, b1: byte, b2: byte)
    ensures DecodeGroup(EncodeGroup(b0, b1, b2)) == Some([b0, b1, b2])
  {
  }

  lemma EncodeDecodeGroup(g: seq<byte>)
    requires |g| == 4 && DecodeGroup(g).Some?
    ensures var b := DecodeGroup(g).value; EncodeGroup(b[0], b[1], b[2]) == g
  {
    LetterOfValue(g[0]);
    LetterOfValue(g[1]);
    LetterOfValue(g[2]);
    LetterOfValue(g[3]);
  }

  lemma SplitOneBits(b0: byte, v0: byte, v1: byte)
    requires v0 == b0 >> 2 && v1 == (b0 & 3) << 4
    ensures v0 < 64 && v1 < 64 && v1 & 15 == 0 && (v0 << 2) | (v1 >> 4) == b0
  {
  }

  lemma SplitTwoBits(b0: byte, b1: byte, v0: byte, v1: byte, v2: byte)
    requires v0 == b0 >> 2 && v1 == ((b0 & 3) << 4) | (b1 >> 4) && v2 == (b1 & 15) << 2
    ensures v0 < 64 && v1 < 64 && v2 < 64 && v2 & 3 == 0
    ensures (v0 << 2) | (v1 >> 4) == b0 && ((v1 & 15) << 4) | (v2 >> 2) == b1
  {
  }

  lemma JoinOneBits(v0: byte, v1: byte, b0: byte)
    requires v0 < 64 && v1 < 64 && v1 & 15 == 0 && b0 == (v0 << 2) | (v1 >> 4)
    ensures b0 >> 2 == v0 && (b0 & 3) << 4 == v1
  {
  }

  lemma JoinTwoBits(v0: byte, v1: byte, v2: byte, b0: byte, b1: byte)
    requires v0 < 64 && v1 < 64 && v2 < 64 && v2 & 3 == 0
    requires b0 == (v0 << 2) | (v1 >> 4) && b1 == ((v1 & 15) << 4) | (v2 >> 2)
    ensures b0 >> 2 == v0 && ((b0 & 3) << 4) | (b1 >> 4) == v1 && (b1 & 15) << 2 == v2
  {
  }

  lemma DecodeTwoPads(g: seq<byte>, v0: byte, v1: byte)
    requires |g| == 4 && g[2] == Pad && g[3] == Pad && v1 & 15 == 0
    requires Value(g[0]) == Some(v0) && Value(g[1]) == Some(v1)
    ensures DecodeLastGroup(g) == Some([(v0 << 2) | (v1 >> 4)])
  {
  }

  lemma DecodeOnePad(g: seq<byte>, v0: byte, v1: byte, v2: byte)
    requires |g| == 4 && g[3] == Pad && v2 & 3 == 0
    requires Value(g[0]) == Some(v0) && Value(g[1]) == Some(v1) && Value(g[2]) == Some(v2)
    ensures DecodeLastGroup(g) == Some([(v0 << 2) | (v1 >> 4), ((v1 & 15) << 4) | (v2 >> 2)])
  {
    assert g[2] != Pad;
  }

  lemma DecodeEncodeLast(s: seq<byte>)
    requires 1 <= |s| <= 2
    ensures DecodeLastGroup(EncodeLast(s)) == Some(s)
  {
    var g := EncodeLast(s);
    var v0: byte := s[0] >> 2;
    if |s| == 1 {
      var v1: byte := (s[0] & 3) << 4;
      SplitOneBits(s[0], v0, v1);
      assert g == [Letter(v0), Letter(v1), Pad, Pad];
      DecodeTwoPads(g, v0, v1);
      assert s == [s[0]];
    } else {
      var v1: byte := ((s[0] & 3) << 4) | (s[1] >> 4);
      var v2: byte := (s[1] & 15) << 2;
      SplitTwoBits(s[0], s[1], v0, v1, v2);
      assert g == [Letter(v0), Letter(v1), Letter(v2), Pad];
      DecodeOnePad(g, v0, v1, v2);
      assert s == [s[0], s[1]];
    }
  }

  lemma EncodeDecodeLast(g: seq<byte>)
    requires |g| == 4 && g[3] == Pad && DecodeLastGroup(g).Some?
    ensures var s := DecodeLastGroup(g).value; 1 <= |s| <= 2 && EncodeLast(s) == g
  {
    LetterOfValue(g[0]);
    LetterOfValue(g[1]);
    var v0, v1 := Value(g[0]).value, Value(g[1]).value;
    var b0: byte := (v0 << 2) | (v1 >> 4);
    if g[2] == Pad {
      DecodeTwoPads(g, v0, v1);
      JoinOneBits(v0, v1, b0);
      assert g == [Letter(v0), Letter(v1), Pad, Pad];
    } else {
      LetterOfValue(g[2]);
      var v2 := Value(g[2]).value;
      DecodeOnePad(g, v0, v1, v2);
      var b1: byte := ((v1 & 15) << 4) | (v2 >> 2);
      JoinTwoBits(v0, v1, v2, b0, b1);
      assert g == [Letter(v0), Letter(v1), Letter(v2), Pad];
    }
  }

  /** A group followed by more text decodes group by group. */
  lemma DecodeAfterGroup(g: seq<byte>, rest: seq<byte>)
    requires |g| == 4 && |rest| > 0
    ensures Decode(g + rest) ==
      match DecodeGroup(g)
      case None => None
      case Some(head) =>
        match Decode(rest)
        case None => None
        case Some(tail) => Some(head + tail)
  {
    var t := g + rest;
    assert t[..4] == g && t[4..] == rest;
  }

  lemma DecodeEncodeThree(s: seq<byte>)
    requires |s| == 3
    ensures Decode(Encode(s)) == Some(s)
  {
    var head := EncodeGroup(s[0], s[1], s[2]);
    assert s[3..] == [];
    assert Encode(s) == head + [] == head;
    DecodeEncodeGroup(s[0], s[1], s[2]);
    assert head[3] != Pad;
    assert s == [s[0], s[1], s[2]];
  }

  lemma EncodeFirstGroup(s: seq<byte>)
    requires |s| >= 3
    ensures Encode(s) == EncodeGroup(s[0], s[1], s[2]) + Encode(s[3..])
  {
  }

  lemma DecodeGroupThen(s: seq<byte>, rest: seq<byte>)
    requires |s| > 3 && |rest| > 0 && Decode(rest) == Some(s[3..])
    ensures Decode(EncodeGroup(s[0], s[1], s[2]) + rest) == Some(s)
  {
    assert s == [s[0], s[1], s[2]] + s[3..];
    DecodeEncodeGroup(s[0], s[1], s[2]);
    DecodeAfterGroup(EncodeGroup(s[0], s[1], s[2]), rest);
  }

  /** Decoding gives back every byte string that was encoded. */
  lemma {:induction false} DecodeEncode(s: seq<byte>)
    ensures Decode(Encode(s)) == Some(s)
    decreases |s|
  {
    if 1 <= |s| <= 2 {
      DecodeEncodeLast(s);
    } else if |s| == 3 {
      DecodeEncodeThree(s);
    } else if |s| > 3 {
      EncodeFirstGroup(s);
      DecodeEncode(s[3..]);
      DecodeGroupThen(s, Encode(s[3..]));
    }
  }

  /** Whatever the strict decoder accepts is the encoding of what it returns,
      so `Encode` and `Decode` are inverse bijections between byte strings and
      the strings `Decode` accepts. */
  lemma {:induction false} EncodeDecode(t: seq<byte>)
    requires Decode(t).Some?
    ensures Encode(Decode(t).value) == t
    decreases |t|
  {
    if |t| == 4 && t[3] == Pad {
      EncodeDecodeLast(t);
    } else if |t| == 4 {
      assert DecodeLastGroup(t) == DecodeGroup(t);
      EncodeDecodeGroup(t);
      var b := DecodeGroup(t).value;
      assert Encode(b) == EncodeGroup(b[0], b[1], b[2]) + Encode(b[3..]);
      assert b[3..] == [];
    } else if |t| > 4 {
      var head := DecodeGroup(t[..4]).value;
      var tail := Decode(t[4..]).value;
      EncodeDecodeGroup(t[..4]);
      EncodeDecode(t[4..]);
      var s := head + tail;
      assert s[..3] == head && s[3..] == tail;
      assert Encode(s) == EncodeGroup(s[0], s[1], s[2]) + Encode(tail);
      assert t == t[..4] + t[4..];
    }
  }

  /** Encoding a prefix made of whole groups can be done on its own. */
  lemma {:induction false} EncodeAppend(a: seq<byte>, b: seq<byte>)
    requires |a| % 3 == 0
    ensures Encode(a + b) == Encode(a) + Encode(b)
    decreases |a|
  {
    if |a| > 0 {
      var ab := a + b;
      assert ab[3..] == a[3..] + b;
      EncodeAppend(a[3..], b);
    } else {
      assert a + b == b;
    }
  }

  /** A worked example: the hiragana letter "a" in ISO-2022-JP,
      `ESC $ B $ " ESC ( B`, encodes to `GyRCJCIbKEI=`. */
  lemma EncodeHiragana()
    ensures Encode([0x1B, 0x24, 0x42, 0x24, 0x22, 0x1B, 0x28, 0x42])
         == [0x47, 0x79, 0x52, 0x43, 0x4A, 0x43, 0x49, 0x62, 0x4B, 0x45, 0x49, 0x3D]
  {
  }

  /** Number of input bytes that Ruby's `pack("m")` puts on one line (60 letters). */
  const LineBytes := 45

  /** Ruby's `Base64.encode64`: one line per 45 input bytes, each ended by LF;
      the empty string gives the empty string. The length is that of the
      one-line encoding plus one LF per started line of 45 bytes. */
  function RubyEncode64(s: seq<byte>): (t: seq<byte>)
    ensures s == [] <==> t == []
    ensures |t| == 4 * ((|s| + 2) / 3) + (|s| + LineBytes - 1) / LineBytes
    ensures t != [] ==> t[|t| - 1] == LF
    decreases |s|
  {
    if |s| == 0 then []
    else if |s| <= LineBytes then
      LineCount(|s|);
      Encode(s) + [LF]
    else
      var first := Encode(s[..LineBytes]);
      var rest := RubyEncode64(s[LineBytes..]);
      LineCount(|s|);
      first + [LF] + rest
  }

  /** The arithmetic of the line count: one line for up to 45 bytes, and one
      more line of 60 letters for every further 45. */
  lemma LineCount(n: nat)
    requires n > 0
    ensures 4 * ((LineBytes + 2) / 3) == 60
    ensures n <= LineBytes ==> (n + LineBytes - 1) / LineBytes == 1
    ensures n > LineBytes ==>
      4 * ((n + 2) / 3) + (n + LineBytes - 1) / LineBytes
        == 61 + 4 * ((n - LineBytes + 2) / 3) + (n - LineBytes + LineBytes - 1) / LineBytes
  {
    assert 4 * ((LineBytes + 2) / 3) == 60;
    if n > LineBytes {
      var m := n - LineBytes;
      assert (m + 47) / 3 == (m + 2) / 3 + 15;
      assert (m + 89) / 45 == (m + 44) / 45 + 1;
    }
  }

  /** Input longer than one line: the first line is the 60-letter encoding of
      the first 45 bytes and its LF, and the rest is encoded on its own. */
  lemma RubyEncode64FirstLine(s: seq<byte>)
    requires |s| > LineBytes
    ensures var t := RubyEncode64(s);
      && t[..61] == Encode(s[..LineBytes]) + [LF]
      && |Encode(s[..LineBytes])| == 60
      && t[61..] == RubyEncode64(s[LineBytes..])
  {
    var head := Encode(s[..LineBytes]) + [LF];
    assert |head| == 61;
    assert RubyEncode64(s) == head + RubyEncode64(s[LineBytes..]);
  }
}
