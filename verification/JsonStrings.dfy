/** JSON string literals: the API's codec (src/host/json_api.c) and the translator's (src/translator.c). */
module JsonStrings {
  import opened Bytes
  import Utf8
  import opened Options

  datatype Dialect = Api | Translator

  const BACKSLASH: Byte := 92
  const LETTER_U: Byte := 117

  // ---- Escaping ----

  function HexDigit(n: int): (b: Byte)
    requires 0 <= n < 16
  {
    if n < 10 then 48 + n else 87 + n
  }

  /** The letter after the backslash for bytes with a short escape; 0 for all others. */
  function ShortEscape(dialect: Dialect, b: Byte): (letter: Byte) {
    if b == QUOTE || b == BACKSLASH then b
    else if b == 10 then 110
    else if b == 13 then 114
    else if b == 9 then 116
    else if dialect == Api && b == 8 then 98
    else if dialect == Api && b == 12 then 102
    else 0
  }

  function EscapeByte(dialect: Dialect, b: Byte): (r: seq<Byte>)
    ensures 1 <= |r| <= 6
  {
    if ShortEscape(dialect, b) != 0 then [BACKSLASH, ShortEscape(dialect, b)]
    else if dialect == Api && b < 0x20 then [BACKSLASH, LETTER_U, 48, 48, HexDigit(b / 16), HexDigit(b % 16)]
    else [b]
  }

  function Escaper(dialect: Dialect): (escape: Byte -> seq<Byte>) {
    (b: Byte) => EscapeByte(dialect, b)
  }

  /** The escapes of all bytes of a text, one after the other. */
  function EscapeWith(escape: Byte -> seq<Byte>, text: seq<Byte>): (r: seq<Byte>) {
    if text == [] then [] else escape(text[0]) + EscapeWith(escape, text[1..])
  }

  function Escape(dialect: Dialect, text: seq<Byte>): (r: seq<Byte>) {
    EscapeWith(Escaper(dialect), text)
  }

  lemma {:induction false} EscapeOfAppend(escape: Byte -> seq<Byte>, text: seq<Byte>, b: Byte)
    ensures EscapeWith(escape, text + [b]) == EscapeWith(escape, text) + escape(b)
  {
    if text == [] {
      assert EscapeWith(escape, [b]) == escape(b) + EscapeWith(escape, [b][1..]);
    } else {
      EscapeOfAppend(escape, text[1..], b);
      assert (text + [b])[1..] == text[1..] + [b];
    }
  }

  /** json_api_escape_string: at most six bytes for one, and no control byte comes out. */
  method EscapeApi(text: seq<Byte>) returns (output: seq<Byte>)
    ensures output == Escape(Api, text)
    ensures |output| <= 6 * |text|
    ensures forall k :: 0 <= k < |output| ==> output[k] >= 0x20
  {
    output := [];
    for i := 0 to |text|
      invariant output == Escape(Api, text[..i]) && |output| <= 6 * i
      invariant forall k :: 0 <= k < |output| ==> output[k] >= 0x20
    {
      EscapeOfAppend(Escaper(Api), text[..i], text[i]);
      assert text[..i] + [text[i]] == text[..i + 1];
      var ch := text[i];
      if ch == QUOTE {
        output := output + [BACKSLASH, QUOTE];
      } else if ch == BACKSLASH {
        output := output + [BACKSLASH, BACKSLASH];
      } else if ch == 8 {
        output := output + [BACKSLASH, 98];
      } else if ch == 12 {
        output := output + [BACKSLASH, 102];
      } else if ch == 10 {
        output := output + [BACKSLASH, 110];
      } else if ch == 13 {
        output := output + [BACKSLASH, 114];
      } else if ch == 9 {
        output := output + [BACKSLASH, 116];
      } else if ch < 0x20 {
        output := output + [BACKSLASH, LETTER_U, 48, 48, HexDigit(ch / 16), HexDigit(ch % 16)];
      } else {
        output := output + [ch];
      }
    }
    assert text[..|text|] == text;
  }

  /** translator_escape_string: the buffer sized by the first pass is filled exactly by the second. */
  method EscapeTranslator(text: seq<Byte>) returns (required: nat, output: seq<Byte>)
    ensures output == Escape(Translator, text)
    ensures required == |output| + 1
  {
    required := 1;
    for i := 0 to |text|
      invariant required == |Escape(Translator, text[..i])| + 1
    {
      EscapeOfAppend(Escaper(Translator), text[..i], text[i]);
      assert text[..i] + [text[i]] == text[..i + 1];
      if text[i] == BACKSLASH || text[i] == QUOTE || text[i] == 10 || text[i] == 13 || text[i] == 9 {
        required := required + 2;
      } else {
        required := required + 1;
      }
    }
    output := [];
    for i := 0 to |text|
      invariant output == Escape(Translator, text[..i])
    {
      EscapeOfAppend(Escaper(Translator), text[..i], text[i]);
      assert text[..i] + [text[i]] == text[..i + 1];
      if text[i] == BACKSLASH || text[i] == QUOTE {
        output := output + [BACKSLASH, text[i]];
      } else if text[i] == 10 {
        output := output + [BACKSLASH, 110];
      } else if text[i] == 13 {
        output := output + [BACKSLASH, 114];
      } else if text[i] == 9 {
        output := output + [BACKSLASH, 116];
      } else {
        output := output + [text[i]];
      }
    }
    assert text[..|text|] == text;
  }

  // ---- Decoding ----

  /** json_api_hex_value, with None for -1. */
  function HexValue(b: Byte): (v: Option<nat>)
    ensures v.Some? ==> v.value < 16
  {
    if 48 <= b <= 57 then Some(b - 48)
    else if 97 <= b <= 102 then Some(b - 87)
    else if 65 <= b <= 70 then Some(b - 55)
    else None
  }

  /** The value of the four hex digits at offset i; the terminator is not a digit. */
  function Hex4(s: seq<Byte>, i: nat): (v: Option<nat>)
    ensures v.Some? ==> v.value < 0x10000 && i + 4 <= |s|
  {
    if i + 4 > |s| then None
    else
      var (a, b, c, d) := (HexValue(s[i]), HexValue(s[i + 1]), HexValue(s[i + 2]), HexValue(s[i + 3]));
      if a.Some? && b.Some? && c.Some? && d.Some?
      then Some(a.value * 4096 + b.value * 256 + c.value * 16 + d.value)
      else None
  }

  predicate IsHigh(v: nat) {
    0xD800 <= v <= 0xDBFF
  }

  predicate IsLow(v: nat) {
    0xDC00 <= v <= 0xDFFF
  }

  function FromPair(high: nat, low: nat): (cp: nat)
    requires IsHigh(high) && IsLow(low)
    ensures 0x10000 <= cp <= 0x10FFFF
  {
    0x10000 + (high - 0xD800) * 1024 + (low - 0xDC00)
  }

  /** One item of a literal: the bytes it stands for and the offset after it. */
  datatype Item = Item(bytes: seq<Byte>, next: nat)

  function Unescape(letter: Byte): (b: Byte) {
    if letter == 98 then 8
    else if letter == 102 then 12
    else if letter == 110 then 10
    else if letter == 114 then 13
    else if letter == 116 then 9
    else letter
  }

  predicate KnownLetter(letter: Byte) {
    letter in [QUOTE, BACKSLASH, 47, 98, 102, 110, 114, 116]
  }

  /** A \\u escape whose four digits start at offset i. The API passes lone surrogates through; the
    * translator replaces them by U+FFFD, along with the escape that follows a lone high surrogate. */
  function UnicodeItem(dialect: Dialect, s: seq<Byte>, i: nat): (r: Option<Item>)
    ensures r.Some? ==> i + 4 <= r.value.next <= |s| && 1 <= |r.value.bytes| <= r.value.next - i
  {
    var first := Hex4(s, i);
    if first.None? then None
    else
      var v := first.value;
      if IsHigh(v) && At(s, i + 4) == BACKSLASH && At(s, i + 5) == LETTER_U then
        var second := Hex4(s, i + 6);
        if second.None? then None
        else if IsLow(second.value) then Some(Item(Utf8.Encode(FromPair(v, second.value)), i + 10))
        else if dialect == Api then Some(Item(Utf8.Encode(v), i + 4))
        else Some(Item(Utf8.Encode(0xFFFD), i + 10))
      else if dialect == Translator && (IsHigh(v) || IsLow(v)) then Some(Item(Utf8.Encode(0xFFFD), i + 4))
      else Some(Item(Utf8.Encode(v), i + 4))
  }

  /** The item at offset i, which is neither the end of the text nor a closing quote. */
  function NextItem(dialect: Dialect, s: seq<Byte>, i: nat): (r: Option<Item>)
    requires i < |s|
    ensures r.Some? ==> i < r.value.next <= |s| && 1 <= |r.value.bytes| <= r.value.next - i
  {
    if s[i] == BACKSLASH then
      if i + 1 == |s| then None
      else if s[i + 1] == LETTER_U then UnicodeItem(dialect, s, i + 2)
      else if dialect == Api && !KnownLetter(s[i + 1]) then None
      else Some(Item([Unescape(s[i + 1])], i + 2))
    else if dialect == Api && s[i] < 0x20 then None
    else Some(Item([s[i]], i + 1))
  }

  /** What stands at each offset of a text, as one of the decoders reads it. */
  type Reader = nat -> Option<Item>

  function Reading(dialect: Dialect, s: seq<Byte>): (read: Reader) {
    (i: nat) => if i < |s| then NextItem(dialect, s, i) else None
  }

  /** The text of the literal whose first character is at offset i, and the offset after its closing quote. */
  function Decode(read: Reader, s: seq<Byte>, i: nat): (r: Option<Item>)
    decreases |s| - i
  {
    if i >= |s| then None
    else if s[i] == QUOTE then Some(Item([], i + 1))
    else
      var item := read(i);
      if item.Some? && i < item.value.next <= |s|
      then Prepend(item.value.bytes, Decode(read, s, item.value.next))
      else None
  }

  function Prepend(bytes: seq<Byte>, rest: Option<Item>): (r: Option<Item>) {
    if rest.None? then None else Some(Item(bytes + rest.value.bytes, rest.value.next))
  }

  /** A decoded literal, if its text fits a buffer with room for the given number of bytes. */
  function Bounded(r: Option<Item>, room: nat): Option<Item> {
    if r.Some? && |r.value.bytes| <= room then r else None
  }

  /** Decoding never yields more bytes than it consumes before the closing quote. */
  lemma {:induction false} DecodeShrinks(read: Reader, s: seq<Byte>, i: nat)
    requires forall k: nat :: read(k).Some? ==> |read(k).value.bytes| <= read(k).value.next - k
    ensures var r := Decode(read, s, i);
            r.Some? ==> i < r.value.next <= |s| && |r.value.bytes| < r.value.next - i
    decreases |s| - i
  {
    if i < |s| && s[i] != QUOTE && read(i).Some? && i < read(i).value.next <= |s| {
      DecodeShrinks(read, s, read(i).value.next);
    }
  }

  /** json_api_decode_string: the input starts at the opening quote. */
  method DecodeApi(input: seq<Byte>, outputLen: nat) returns (r: Option<Item>)
    ensures r == if outputLen > 0 && At(input, 0) == QUOTE
                 then Bounded(Decode(Reading(Api, input), input, 1), outputLen - 1)
                 else None
  {
    if outputLen == 0 || At(input, 0) != QUOTE {
      return None;
    }
    r := DecodeLoop(Api, input, 1, outputLen - 1);
  }

  /** translator_decode_json_string: the input starts after the opening quote. A buffer one longer
    * than the input never makes it fail. */
  method DecodeTranslator(input: seq<Byte>, outputLen: nat) returns (r: Option<Item>)
    ensures r == if outputLen > 0 then Bounded(Decode(Reading(Translator, input), input, 0), outputLen - 1) else None
    ensures outputLen > |input| ==> r == Decode(Reading(Translator, input), input, 0)
  {
    if outputLen == 0 {
      return None;
    }
    r := DecodeLoop(Translator, input, 0, outputLen - 1);
    DecodeShrinks(Reading(Translator, input), input, 0);
  }

  /** The cursor loop of both decoders: copy items until a closing quote, or fail on the first item
    * that is malformed or no longer fits. */
  method DecodeLoop(dialect: Dialect, input: seq<Byte>, start: nat, room: nat) returns (r: Option<Item>)
    ensures r == Bounded(Decode(Reading(dialect, input), input, start), room)
  {
    var cursor, output := start, [];
    ghost var read := Reading(dialect, input);
    Nothing(Decode(read, input, start));
    while cursor < |input|
      invariant |output| <= room
      invariant Decode(read, input, start) == Prepend(output, Decode(read, input, cursor))
      decreases |input| - cursor
    {
      if input[cursor] == QUOTE {
        assert output + [] == output;
        return Some(Item(output, cursor + 1));
      }
      var item := NextItem(dialect, input, cursor);
      if item.None? || |output| + |item.value.bytes| > room {
        return None;
      }
      Regroup(output, item.value.bytes, Decode(read, input, item.value.next));
      output, cursor := output + item.value.bytes, item.value.next;
    }
    return None;
  }

  lemma Nothing(r: Option<Item>)
    ensures Prepend([], r) == r
  {
    if r.Some? {
      assert [] + r.value.bytes == r.value.bytes;
    }
  }

  lemma Regroup(a: seq<Byte>, b: seq<Byte>, rest: Option<Item>)
    ensures Prepend(a, Prepend(b, rest)) == Prepend(a + b, rest)
  {
    if rest.Some? {
      assert a + (b + rest.value.bytes) == (a + b) + rest.value.bytes;
    }
  }

  // ---- Escaping and decoding undo each other ----

  lemma HexDigitValue(n: int)
    requires 0 <= n < 16
    ensures HexValue(HexDigit(n)) == Some(n)
  {
  }

  /** The bytes e stand at offset i of s. */
  predicate StandsAt(e: seq<Byte>, s: seq<Byte>, i: nat) {
    i + |e| <= |s| && s[i..i + |e|] == e
  }

  lemma StandsSplit(a: seq<Byte>, b: seq<Byte>, s: seq<Byte>, i: nat)
    requires StandsAt(a + b, s, i)
    ensures StandsAt(a, s, i) && StandsAt(b, s, i + |a|)
  {
    var whole := s[i..i + |a + b|];
    assert s[i..i + |a|] == whole[..|a|] && s[i + |a|..i + |a| + |b|] == whole[|a|..];
  }

  lemma ByteStands(e: seq<Byte>, s: seq<Byte>, i: nat, k: nat)
    requires StandsAt(e, s, i) && k < |e|
    ensures s[i + k] == e[k]
  {
  }

  /** A hex escape is read back as its byte. */
  lemma ItemOfHexEscape(b: Byte, s: seq<Byte>, i: nat)
    requires b < 0x20 && StandsAt([BACKSLASH, LETTER_U, 48, 48, HexDigit(b / 16), HexDigit(b % 16)], s, i)
    ensures s[i] != QUOTE && NextItem(Api, s, i) == Some(Item([b], i + 6))
  {
    var e := [BACKSLASH, LETTER_U, 48, 48, HexDigit(b / 16), HexDigit(b % 16)];
    forall k | 0 <= k < 6
      ensures s[i + k] == e[k]
    {
      ByteStands(e, s, i, k);
    }
    assert s[i + 0] == BACKSLASH && s[i + 1] == LETTER_U && s[i + 2] == 48 && s[i + 3] == 48;
    assert s[i + 4] == HexDigit(b / 16) && s[i + 5] == HexDigit(b % 16);
    HexDigitValue(b / 16);
    HexDigitValue(b % 16);
    assert Hex4(s, i + 2) == Some(b);
  }

  /** The escape of a byte is read back as one item holding that byte. */
  lemma ItemOfEscape(dialect: Dialect, b: Byte, s: seq<Byte>, i: nat)
    requires StandsAt(EscapeByte(dialect, b), s, i)
    ensures s[i] != QUOTE
    ensures NextItem(dialect, s, i) == Some(Item([b], i + |EscapeByte(dialect, b)|))
  {
    var e := EscapeByte(dialect, b);
    ByteStands(e, s, i, 0);
    if |e| == 6 {
      ItemOfHexEscape(b, s, i);
    } else if |e| == 2 {
      ByteStands(e, s, i, 1);
    }
  }

  /** A reader that reads every escaped byte of s back as that byte. */
  ghost predicate ReadsEscapes(escape: Byte -> seq<Byte>, read: Reader, s: seq<Byte>) {
    forall b: Byte, i: nat {:trigger StandsAt(escape(b), s, i)} :: StandsAt(escape(b), s, i) ==>
      escape(b) != [] && s[i] != QUOTE && read(i) == Some(Item([b], i + |escape(b)|))
  }

  lemma ReadOne(read: Reader, s: seq<Byte>, i: nat, b: Byte, next: nat, rest: Item)
    requires i < |s| && s[i] != QUOTE && read(i) == Some(Item([b], next)) && i < next <= |s|
    requires Decode(read, s, next) == Some(rest)
    ensures Decode(read, s, i) == Some(Item([b] + rest.bytes, rest.next))
  {
  }

  lemma {:induction false} ReadsBack(escape: Byte -> seq<Byte>, read: Reader, text: seq<Byte>, s: seq<Byte>, i: nat)
    requires ReadsEscapes(escape, read, s)
    requires StandsAt(EscapeWith(escape, text), s, i)
    requires i + |EscapeWith(escape, text)| < |s| && s[i + |EscapeWith(escape, text)|] == QUOTE
    ensures Decode(read, s, i) == Some(Item(text, i + |EscapeWith(escape, text)| + 1))
    decreases |text|
  {
    if text == [] {
    } else {
      var e, rest := escape(text[0]), EscapeWith(escape, text[1..]);
      StandsSplit(e, rest, s, i);
      ReadsBack(escape, read, text[1..], s, i + |e|);
      ReadOne(read, s, i, text[0], i + |e|, Item(text[1..], i + |e| + |rest| + 1));
      assert [text[0]] + text[1..] == text;
    }
  }

  lemma ReadsBackClosed(escape: Byte -> seq<Byte>, read: Reader, text: seq<Byte>, s: seq<Byte>, i: nat)
    requires ReadsEscapes(escape, read, s)
    requires StandsAt(EscapeWith(escape, text) + [QUOTE], s, i)
    ensures Decode(read, s, i) == Some(Item(text, i + |EscapeWith(escape, text)| + 1))
  {
    var e := EscapeWith(escape, text);
    StandsSplit(e, [QUOTE], s, i);
    ByteStands([QUOTE], s, i + |e|, 0);
    ReadsBack(escape, read, text, s, i);
  }

  lemma ReadEscape(dialect: Dialect, b: Byte, s: seq<Byte>, i: nat)
    requires StandsAt(Escaper(dialect)(b), s, i)
    ensures Escaper(dialect)(b) != [] && s[i] != QUOTE
    ensures Reading(dialect, s)(i) == Some(Item([b], i + |Escaper(dialect)(b)|))
  {
    ItemOfEscape(dialect, b, s, i);
  }

  lemma ReadingReadsEscapes(dialect: Dialect, s: seq<Byte>)
    ensures ReadsEscapes(Escaper(dialect), Reading(dialect, s), s)
  {
    forall b: Byte, i: nat | StandsAt(Escaper(dialect)(b), s, i)
      ensures Escaper(dialect)(b) != [] && s[i] != QUOTE
      ensures Reading(dialect, s)(i) == Some(Item([b], i + |Escaper(dialect)(b)|))
    {
      ReadEscape(dialect, b, s, i);
    }
  }

  /** Wherever the escaped form of a text stands in s, closed by a quote, decoding there gives the
    * text back and stops exactly after that quote. */
  lemma RoundTrip(dialect: Dialect, text: seq<Byte>, s: seq<Byte>, i: nat)
    requires StandsAt(Escape(dialect, text) + [QUOTE], s, i)
    ensures Decode(Reading(dialect, s), s, i) == Some(Item(text, i + |Escape(dialect, text)| + 1))
  {
    var escape, read := CodecOf(dialect, text, s, i);
    ReadsBackClosed(escape, read, text, s, i);
  }

  /** The escaper and the reader of a dialect, known only by what they do. */
  lemma CodecOf(dialect: Dialect, text: seq<Byte>, s: seq<Byte>, i: nat)
    returns (escape: Byte -> seq<Byte>, read: Reader)
    ensures ReadsEscapes(escape, read, s) && Escape(dialect, text) == EscapeWith(escape, text)
    ensures Decode(Reading(dialect, s), s, i) == Decode(read, s, i)
  {
    escape, read := Escaper(dialect), Reading(dialect, s);
    ReadingReadsEscapes(dialect, s);
  }
}
