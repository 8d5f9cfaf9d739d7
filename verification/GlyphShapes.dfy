/** What the glyph reader of src/display_model.c makes of a control sequence, of a Unicode scalar value and of a
  * sequence that is cut off. */
module GlyphShapes {
  import opened Bytes
  import opened Wrapping
  import Utf8

  // ---- Control sequences ----

  predicate IsParameter(b: Byte) {
    0x20 <= b <= 0x3F
  }

  /** A control sequence goes on over parameter bytes and takes the one byte behind them, unless the text ends
    * there. */
  lemma {:induction false} ControlShape(text: seq<Byte>, j: nat)
    requires j <= |text|
    ensures var end := ControlEnd(text, j);
            if At(text, end) == 0 && (end == j || IsParameter(text[end - 1]))
            then forall k :: j <= k < end ==> IsParameter(text[k])
            else end > j && text[end - 1] != 0 && !IsParameter(text[end - 1])
                 && forall k :: j <= k < end - 1 ==> IsParameter(text[k])
    decreases |text| - j
  {
    if At(text, j) != 0 && IsParameter(text[j]) {
      ControlShape(text, j + 1);
    }
  }

  /** It takes no column. */
  lemma ControlGlyph(text: seq<Byte>, i: nat)
    requires At(text, i) == 0x1B && At(text, i + 1) == 0x5B
    ensures GlyphAt(text, i) == Glyph(0, ControlEnd(text, i + 2))
  {
  }

  // ---- Scalar values ----

  /** The code points shown two columns wide. */
  predicate IsWide(cp: nat) {
    || 0x1100 <= cp <= 0x115F || 0x2329 <= cp <= 0x232A || 0x2E80 <= cp <= 0x303E
    || 0x3040 <= cp <= 0xA4CF || 0xAC00 <= cp <= 0xD7A3 || 0xF900 <= cp <= 0xFAFF
    || 0xFE10 <= cp <= 0xFE6F || 0xFF01 <= cp <= 0xFF60 || 0xFFE0 <= cp <= 0xFFE6
    || 0x20000 <= cp <= 0x2FFFD
  }

  function Width(cp: nat): (cols: nat) {
    if cp < 0x20 then 0 else if IsWide(cp) then 2 else 1
  }

  lemma FourByteColumns(a: Byte, b: Byte, c: Byte, d: Byte, cp: nat)
    requires 0xF0 <= a <= 0xF4 && Utf8.IsTail(b) && Utf8.IsTail(c) && Utf8.IsTail(d) && cp >= 0x10000
    requires cp == Utf8.Bits(a, 0xF0) * 262144 + Utf8.Bits(b, 0x80) * 4096
                 + Utf8.Bits(c, 0x80) * 64 + Utf8.Bits(d, 0x80)
    ensures MultiByteColumns(a, b, c, d) == Width(cp)
  {
    assert a % 8 == a - 0xF0 && b % 64 == b - 0x80 && c % 64 == c - 0x80 && d % 64 == d - 0x80;
  }

  lemma ThreeByteColumns(a: Byte, b: Byte, c: Byte, d: Byte, cp: nat)
    requires 0xE0 <= a <= 0xEF && Utf8.IsTail(b) && Utf8.IsTail(c) && cp >= 0x800
    requires cp == Utf8.Bits(a, 0xE0) * 4096 + Utf8.Bits(b, 0x80) * 64 + Utf8.Bits(c, 0x80)
    ensures MultiByteColumns(a, b, c, d) == Width(cp)
  {
    assert a % 16 == a - 0xE0 && b % 64 == b - 0x80 && c % 64 == c - 0x80;
  }

  lemma UnitColumns(t: seq<Byte>)
    requires Utf8.UnitLength(t) > 1
    ensures MultiByteColumns(t[0], t[1], At(t, 2), At(t, 3)) == Width(Utf8.UnitValue(t))
  {
    if Utf8.UnitLength(t) == 3 {
      ThreeByteColumns(t[0], t[1], t[2], At(t, 3), Utf8.UnitValue(t));
    } else if Utf8.UnitLength(t) == 4 {
      FourByteColumns(t[0], t[1], t[2], t[3], Utf8.UnitValue(t));
    }
  }

  lemma UnitAnnounced(t: seq<Byte>)
    requires Utf8.UnitLength(t) > 0
    ensures Announced(t[0]) == Utf8.UnitLength(t) && forall k :: 0 < k < Utf8.UnitLength(t) ==> Utf8.IsTail(t[k])
  {
  }

  /** A well-formed unit that starts no control sequence is one glyph: as long as the unit, and as wide as its
    * scalar value. */
  lemma GlyphOfUnit(text: seq<Byte>, i: nat)
    requires i < |text| && Utf8.UnitLength(text[i..]) > 0 && !(text[i] == 0x1B && At(text, i + 1) == 0x5B)
    ensures GlyphAt(text, i) == Glyph(Width(Utf8.UnitValue(text[i..])), i + Utf8.UnitLength(text[i..]))
  {
    var (t, n) := (text[i..], Utf8.UnitLength(text[i..]));
    assert forall j :: i <= j < |text| ==> text[j] == t[j - i];
    UnitAnnounced(t);
    AllPresent(text, i, 1, n);
    if n > 1 {
      UnitColumns(t);
      assert At(text, i + 1) == t[1] && At(text, i + 2) == At(t, 2) && At(text, i + 3) == At(t, 3);
    }
  }

  /** The glyph at the front of the encoding of a scalar value, whatever follows. */
  lemma GlyphOfScalar(cp: nat, rest: seq<Byte>)
    requires Utf8.IsScalar(cp) && cp != 0x1B
    ensures GlyphAt(Utf8.Encode(cp) + rest, 0) == Glyph(Width(cp), |Utf8.Encode(cp)|)
  {
    var text := Utf8.Encode(cp) + rest;
    Utf8.EncodingIsUnit(cp, rest);
    assert text[0..] == text;
    assert text[0] != 0x1B;
    GlyphOfUnit(text, 0);
  }

  // ---- Sequences cut off ----

  /** Of an announced sequence only the bytes before the first that is no continuation byte are taken; a NUL
    * there does not stop it. */
  lemma {:induction false} CutOffAt(text: seq<Byte>, i: nat, k: nat, n: nat, z: nat)
    requires 1 <= k <= z < n && !Utf8.IsTail(At(text, i + z))
    requires forall j :: i + k <= j < i + z ==> Utf8.IsTail(At(text, j))
    ensures Present(text, i, k, n) == if At(text, i + z) == 0 then n else z
    decreases z - k
  {
    if k == z {
    } else {
      assert Utf8.IsTail(At(text, i + k));
      CutOffAt(text, i, k + 1, n, z);
    }
  }

  /** A byte from 0x80 on that announces no sequence is a glyph of its own, one column wide. */
  lemma StrayByte(text: seq<Byte>, i: nat)
    requires i < |text| && (Utf8.IsTail(text[i]) || text[i] >= 0xF8)
    ensures GlyphAt(text, i) == Glyph(1, i + 1)
  {
  }
}
