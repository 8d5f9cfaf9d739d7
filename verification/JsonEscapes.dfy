/** What each escape of a JSON string literal stands for (sections 7 and 8 of RFC 8259), in the decoders of
  * src/host/json_api.c and src/translator.c. */
module JsonEscapes {
  import opened Bytes
  import opened Options
  import opened JsonStrings
  import Utf8

  /** The byte is the hexadecimal digit n, in either letter case. */
  predicate DigitIs(b: Byte, n: nat) {
    n < 16 && (if n < 10 then b == 48 + n else b == 97 + (n - 10) || b == 65 + (n - 10))
  }

  lemma HexValueExactly(b: Byte, n: nat)
    ensures HexValue(b) == Some(n) <==> DigitIs(b, n)
  {
  }

  /** Four bytes are read as a number exactly when they are its hexadecimal digits. */
  lemma Hex4Exactly(s: seq<Byte>, i: nat, v: nat)
    ensures Hex4(s, i) == Some(v) <==>
            && i + 4 <= |s| && v < 0x10000
            && DigitIs(s[i], v / 4096) && DigitIs(s[i + 1], v / 256 % 16)
            && DigitIs(s[i + 2], v / 16 % 16) && DigitIs(s[i + 3], v % 16)
  {
    if i + 4 <= |s| {
      HexValueExactly(s[i], v / 4096);
      HexValueExactly(s[i + 1], v / 256 % 16);
      HexValueExactly(s[i + 2], v / 16 % 16);
      HexValueExactly(s[i + 3], v % 16);
      var (a, b, c, d) := (HexValue(s[i]), HexValue(s[i + 1]), HexValue(s[i + 2]), HexValue(s[i + 3]));
      if a.Some? && b.Some? && c.Some? && d.Some? {
        NumberExactly(a.value, b.value, c.value, d.value, v);
      }
    }
  }

  /** Base-16 digits of a number. */
  lemma NumberExactly(a: nat, b: nat, c: nat, d: nat, v: nat)
    requires a < 16 && b < 16 && c < 16 && d < 16
    ensures v == a * 4096 + b * 256 + c * 16 + d <==>
            v < 0x10000 && a == v / 4096 && b == v / 256 % 16 && c == v / 16 % 16 && d == v % 16
  {
    var n := a * 4096 + b * 256 + c * 16 + d;
    assert n / 16 == a * 256 + b * 16 + c && n / 256 == a * 16 + b;
    assert v / 256 == v / 4096 * 16 + v / 256 % 16 && v / 16 == v / 256 * 16 + v / 16 % 16 && v == v / 16 * 16 + v % 16;
  }

  predicate UnicodeEscapeAt(s: seq<Byte>, i: nat, v: nat) {
    At(s, i) == BACKSLASH && At(s, i + 1) == LETTER_U && Hex4(s, i + 2) == Some(v)
  }

  /** One \\u escape of a scalar value stands for its encoding. */
  lemma EscapedScalar(dialect: Dialect, s: seq<Byte>, i: nat, cp: nat)
    requires UnicodeEscapeAt(s, i, cp) && Utf8.IsScalar(cp)
    ensures NextItem(dialect, s, i) == Some(Item(Utf8.Encode(cp), i + 6))
  {
  }

  /** Two \\u escapes with the halves of a scalar value above U+FFFF stand for its encoding. */
  lemma EscapedPair(dialect: Dialect, s: seq<Byte>, i: nat, cp: nat)
    requires 0x10000 <= cp <= 0x10FFFF && UnicodeEscapeAt(s, i, 0xD800 + (cp - 0x10000) / 0x400)
    requires UnicodeEscapeAt(s, i + 6, 0xDC00 + (cp - 0x10000) % 0x400)
    ensures NextItem(dialect, s, i) == Some(Item(Utf8.Encode(cp), i + 12))
  {
    var (high, low) := (0xD800 + (cp - 0x10000) / 0x400, 0xDC00 + (cp - 0x10000) % 0x400);
    assert FromPair(high, low) == cp;
  }

  /** The byte a letter after a backslash stands for, if it has a meaning. */
  function Meaning(letter: Byte): (b: Option<Byte>) {
    match letter
    case 34 => Some(34)
    case 92 => Some(92)
    case 47 => Some(47)
    case 98 => Some(8)
    case 102 => Some(12)
    case 110 => Some(10)
    case 114 => Some(13)
    case 116 => Some(9)
    case _ => None
  }

  /** Any other escape: the eight letters of the standard stand for their bytes; the API refuses the rest, the
    * translator takes the letter itself. */
  lemma EscapedLetter(dialect: Dialect, s: seq<Byte>, i: nat)
    requires i + 1 < |s| && s[i] == BACKSLASH && s[i + 1] != LETTER_U
    ensures NextItem(dialect, s, i) ==
            match Meaning(s[i + 1])
            case Some(b) => Some(Item([b], i + 2))
            case None => if dialect == Api then None else Some(Item([s[i + 1]], i + 2))
  {
  }

  /** Any other byte stands for itself, but the API refuses control bytes. */
  lemma PlainByte(dialect: Dialect, s: seq<Byte>, i: nat)
    requires i < |s| && s[i] != BACKSLASH
    ensures NextItem(dialect, s, i) == if dialect == Api && s[i] <= 0x1F then None else Some(Item([s[i]], i + 1))
  {
  }

  /** The surrogates that are not half of a pair: the API passes them through, the translator puts U+FFFD in
    * their place and drops the escape behind a high one. */
  lemma EscapedLone(dialect: Dialect, s: seq<Byte>, i: nat, v: nat)
    requires UnicodeEscapeAt(s, i, v) && 0xD800 <= v <= 0xDFFF
    requires v <= 0xDBFF ==> !(At(s, i + 6) == BACKSLASH && At(s, i + 7) == LETTER_U)
    ensures NextItem(dialect, s, i) == Some(Item(Utf8.Encode(if dialect == Api then v else 0xFFFD), i + 6))
  {
  }

  lemma HighBeforeOther(dialect: Dialect, s: seq<Byte>, i: nat, v: nat, w: nat)
    requires UnicodeEscapeAt(s, i, v) && 0xD800 <= v <= 0xDBFF
    requires UnicodeEscapeAt(s, i + 6, w) && !(0xDC00 <= w <= 0xDFFF)
    ensures NextItem(dialect, s, i) ==
              Some(if dialect == Api then Item(Utf8.Encode(v), i + 6) else Item(Utf8.Encode(0xFFFD), i + 12))
  {
  }

  /** An escape without its four digits is refused. */
  lemma BrokenEscape(dialect: Dialect, s: seq<Byte>, i: nat)
    requires At(s, i) == BACKSLASH && At(s, i + 1) == LETTER_U && Hex4(s, i + 2).None?
    ensures NextItem(dialect, s, i).None?
  {
  }

  /** The escapers: a byte stays as it is, or becomes a backslash and the letter that means it, or, in the API,
    * a \\u escape with lower-case digits. */
  lemma EscapedByte(dialect: Dialect, b: Byte, r: seq<Byte>)
    requires r == EscapeByte(dialect, b)
    ensures |r| == 2 <==> b in {34, 92, 10, 13, 9} || (dialect == Api && b in {8, 12})
    ensures |r| == 2 ==> r[0] == BACKSLASH && Meaning(r[1]) == Some(b)
    ensures |r| == 1 <==> |r| != 2 && (dialect == Translator || b > 0x1F)
    ensures |r| == 1 ==> r == [b]
    ensures |r| != 1 && |r| != 2 ==> |r| == 6 && UnicodeEscapeAt(r, 0, b) && r[5] !in {65, 66, 67, 68, 69, 70}
  {
    if |r| == 6 {
      Hex4Exactly(r, 2, b);
    }
  }

  /** Reading an escaped text back into a buffer gives the text exactly when there is room for all of it. */
  lemma FitsExactly(dialect: Dialect, text: seq<Byte>, room: nat)
    ensures var literal := Escape(dialect, text) + [QUOTE];
            Bounded(Decode(Reading(dialect, literal), literal, 0), room) ==
            if |text| > room then None else Some(Item(text, |literal|))
  {
    var literal := Escape(dialect, text) + [QUOTE];
    RoundTrip(dialect, text, literal, 0);
  }
}
