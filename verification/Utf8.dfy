/** The UTF-8 encoder and the strict UTF-8 validator of src/codepage.c. */
module Utf8 {
  import opened Bytes

  /** A Unicode scalar value: a code point outside the surrogate range (section 3 of RFC 3629). */
  predicate IsScalar(cp: int) {
    0 <= cp < 0xD800 || 0xE000 <= cp <= 0x10FFFF
  }

  /** The encoder, given room for four bytes; values past U+10FFFF become a question mark. */
  function Encode(cp: nat): (r: seq<Byte>)
    ensures 1 <= |r| <= 4
  {
    if cp <= 0x7F then [cp]
    else if cp <= 0x7FF then [0xC0 + cp / 64 % 32, 0x80 + cp % 64]
    else if cp <= 0xFFFF then [0xE0 + cp / 4096 % 16, 0x80 + cp / 64 % 64, 0x80 + cp % 64]
    else if cp <= 0x10FFFF then
      [0xF0 + cp / 262144 % 8, 0x80 + cp / 4096 % 64, 0x80 + cp / 64 % 64, 0x80 + cp % 64]
    else [63]
  }

  function EncodeAll(cps: seq<nat>): (r: seq<Byte>) {
    if cps == [] then [] else Encode(cps[0]) + EncodeAll(cps[1..])
  }

  predicate AllScalar(cps: seq<nat>) {
    forall i :: 0 <= i < |cps| ==> IsScalar(cps[i])
  }

  /** The reference notion: the bytes are the encoding of some sequence of scalar values. */
  ghost predicate IsEncoding(s: seq<Byte>) {
    exists cps: seq<nat> :: AllScalar(cps) && EncodeAll(cps) == s
  }

  predicate IsTail(b: Byte) {
    0x80 <= b <= 0xBF
  }

  /** Length of the sequence the validator accepts at the front of s; 0 when it rejects. */
  function UnitLength(s: seq<Byte>): (n: nat)
    ensures n <= |s|
  {
    if s == [] then 0
    else if s[0] < 0x80 then 1
    else if 0xC2 <= s[0] <= 0xDF then
      if |s| > 1 && IsTail(s[1]) then 2 else 0
    else if 0xE0 <= s[0] <= 0xEF then
      var lo := if s[0] == 0xE0 then 0xA0 else 0x80;
      var hi := if s[0] == 0xED then 0x9F else 0xBF;
      if |s| > 2 && lo <= s[1] <= hi && IsTail(s[2]) then 3 else 0
    else if 0xF0 <= s[0] <= 0xF4 then
      var lo := if s[0] == 0xF0 then 0x90 else 0x80;
      var hi := if s[0] == 0xF4 then 0x8F else 0xBF;
      if |s| > 3 && lo <= s[1] <= hi && IsTail(s[2]) && IsTail(s[3]) then 4 else 0
    else 0
  }

  /** The scalar value carried by the sequence at the front of s. */
  function UnitValue(s: seq<Byte>): (cp: nat)
    requires UnitLength(s) > 0
  {
    match UnitLength(s)
    case 1 => s[0]
    case 2 => Bits(s[0], 0xC0) * 64 + Bits(s[1], 0x80)
    case 3 => Bits(s[0], 0xE0) * 4096 + Bits(s[1], 0x80) * 64 + Bits(s[2], 0x80)
    case _ => Bits(s[0], 0xF0) * 262144 + Bits(s[1], 0x80) * 4096 + Bits(s[2], 0x80) * 64 + Bits(s[3], 0x80)
  }

  /** The payload a byte carries below its marker bits. */
  function Bits(b: int, marker: int): int {
    b - marker
  }

  predicate WellFormed(s: seq<Byte>) {
    s == [] || (UnitLength(s) > 0 && WellFormed(s[UnitLength(s)..]))
  }

  /** Base-64 digits of a code point, top digit first, put together again. */
  lemma Digits(a: nat, b: nat, c: nat, d: nat)
    requires b < 64 && c < 64 && d < 64
    ensures var cp := a * 262144 + b * 4096 + c * 64 + d;
            && cp % 64 == d && cp / 64 % 64 == c && cp / 4096 % 64 == b && cp / 262144 == a
  {
    var cp := a * 262144 + b * 4096 + c * 64 + d;
    assert cp / 64 == a * 4096 + b * 64 + c;
    assert cp / 4096 == a * 64 + b;
  }

  lemma NestedQuotient(x: nat)
    ensures x / 4096 == x / 64 / 64
  {
  }

  /** A code point taken apart into its base-64 digits. */
  lemma TakenApart(cp: nat)
    ensures cp == cp / 262144 * 262144 + cp / 4096 % 64 * 4096 + cp / 64 % 64 * 64 + cp % 64
    ensures cp < 262144 ==> cp / 262144 == 0 && cp / 4096 % 64 == cp / 4096
    ensures cp < 4096 ==> cp / 4096 == 0 && cp / 64 % 64 == cp / 64
  {
    NestedQuotient(cp);
    NestedQuotient(cp / 64);
    assert cp / 262144 == cp / 4096 / 64;
  }

  lemma ThreeByteUnit(s: seq<Byte>)
    requires UnitLength(s) == 3
    ensures IsScalar(UnitValue(s)) && Encode(UnitValue(s)) == s[..3]
  {
    Digits(0, Bits(s[0], 0xE0), Bits(s[1], 0x80), Bits(s[2], 0x80));
    assert s[..3] == [s[0], s[1], s[2]];
  }

  lemma FourByteUnit(s: seq<Byte>)
    requires UnitLength(s) == 4
    ensures IsScalar(UnitValue(s)) && Encode(UnitValue(s)) == s[..4]
  {
    Digits(Bits(s[0], 0xF0), Bits(s[1], 0x80), Bits(s[2], 0x80), Bits(s[3], 0x80));
    assert s[..4] == [s[0], s[1], s[2], s[3]];
  }

  /** Every accepted unit is the encoding of its value, a scalar. */
  lemma UnitIsEncoding(s: seq<Byte>)
    requires UnitLength(s) > 0
    ensures IsScalar(UnitValue(s)) && Encode(UnitValue(s)) == s[..UnitLength(s)]
  {
    match UnitLength(s)
    case 1 =>
    case 2 => Digits(0, 0, Bits(s[0], 0xC0), Bits(s[1], 0x80));
    case 3 => ThreeByteUnit(s);
    case 4 => FourByteUnit(s);
  }

  lemma LongEncoding(cp: nat)
    requires IsScalar(cp) && 0xFFFF < cp
    ensures UnitLength(Encode(cp)) == 4 && UnitValue(Encode(cp)) == cp
  {
    TakenApart(cp);
  }

  lemma ThreeByteEncoding(cp: nat)
    requires IsScalar(cp) && 0x7FF < cp <= 0xFFFF
    ensures UnitLength(Encode(cp)) == 3 && UnitValue(Encode(cp)) == cp
  {
    TakenApart(cp);
  }

  lemma EncodingAlone(cp: nat)
    requires IsScalar(cp)
    ensures UnitLength(Encode(cp)) == |Encode(cp)| && UnitValue(Encode(cp)) == cp
  {
    if 0xFFFF < cp {
      LongEncoding(cp);
    } else if 0x7FF < cp {
      ThreeByteEncoding(cp);
    }
  }

  /** What follows a complete unit does not change how it is read. */
  lemma UnitExtends(u: seq<Byte>, rest: seq<Byte>)
    requires UnitLength(u) == |u| > 0
    ensures UnitLength(u + rest) == |u| && UnitValue(u + rest) == UnitValue(u)
  {
  }

  /** The encoding of a scalar is accepted as one unit, whatever follows, and carries that scalar. */
  lemma EncodingIsUnit(cp: nat, rest: seq<Byte>)
    requires IsScalar(cp)
    ensures UnitLength(Encode(cp) + rest) == |Encode(cp)|
    ensures UnitValue(Encode(cp) + rest) == cp
  {
    EncodingAlone(cp);
    UnitExtends(Encode(cp), rest);
  }

  lemma {:induction false} EncodingWellFormed(cps: seq<nat>)
    requires AllScalar(cps)
    ensures WellFormed(EncodeAll(cps))
  {
    if cps == [] {
    } else {
      var rest := EncodeAll(cps[1..]);
      EncodingIsUnit(cps[0], rest);
      assert (Encode(cps[0]) + rest)[|Encode(cps[0])|..] == rest;
      EncodingWellFormed(cps[1..]);
    }
  }

  /** The scalar at the front of well-formed text and the length of its encoding. */
  lemma FirstScalar(s: seq<Byte>) returns (cp: nat, n: nat)
    requires WellFormed(s) && s != []
    ensures 0 < n <= |s| && IsScalar(cp) && Encode(cp) == s[..n] && WellFormed(s[n..])
  {
    UnitIsEncoding(s);
    cp, n := UnitValue(s), UnitLength(s);
  }

  lemma {:induction false} WellFormedDecodes(s: seq<Byte>) returns (cps: seq<nat>)
    requires WellFormed(s)
    ensures AllScalar(cps) && EncodeAll(cps) == s
    decreases |s|
  {
    if s == [] {
      cps := [];
    } else {
      var cp, n := FirstScalar(s);
      var rest := WellFormedDecodes(s[n..]);
      cps := [cp] + rest;
      assert cps[1..] == rest;
      assert s == s[..n] + s[n..];
    }
  }

  /** The validator's grammar is exactly the set of encodings (section 4 of RFC 3629). */
  lemma WellFormedIsEncoding(s: seq<Byte>)
    ensures WellFormed(s) <==> IsEncoding(s)
  {
    if WellFormed(s) {
      var cps := WellFormedDecodes(s);
    }
    if IsEncoding(s) {
      var cps: seq<nat> :| AllScalar(cps) && EncodeAll(cps) == s;
      EncodingWellFormed(cps);
    }
  }

  /** A byte string decomposes into scalar encodings in at most one way. */
  lemma {:induction false} DecompositionUnique(a: seq<nat>, b: seq<nat>)
    requires AllScalar(a) && AllScalar(b)
    requires EncodeAll(a) == EncodeAll(b)
    ensures a == b
    decreases |a|
  {
    if a == [] || b == [] {
    } else {
      EncodingIsUnit(a[0], EncodeAll(a[1..]));
      EncodingIsUnit(b[0], EncodeAll(b[1..]));
      assert a[0] == b[0];
      assert EncodeAll(a)[|Encode(a[0])|..] == EncodeAll(a[1..]);
      assert EncodeAll(b)[|Encode(a[0])|..] == EncodeAll(b[1..]);
      DecompositionUnique(a[1..], b[1..]);
    }
  }

  /** Text appended behind a unit does not change it. */
  lemma UnitOfConcat(s: seq<Byte>, t: seq<Byte>)
    requires UnitLength(s) > 0
    ensures UnitLength(s + t) == UnitLength(s)
  {
    assert forall k :: 0 <= k < |s| ==> (s + t)[k] == s[k];
  }

  lemma {:induction false} WellFormedConcat(s: seq<Byte>, t: seq<Byte>)
    requires WellFormed(s) && WellFormed(t)
    ensures WellFormed(s + t)
    decreases |s|
  {
    if s == [] {
      assert s + t == t;
    } else {
      var n := UnitLength(s);
      WellFormedConcat(s[n..], t);
      UnitOfConcat(s, t);
      assert (s + t)[n..] == s[n..] + t;
    }
  }

  /** What follows well-formed text in well-formed text is well formed. */
  lemma {:induction false} WellFormedSplit(s: seq<Byte>, t: seq<Byte>)
    requires WellFormed(s) && WellFormed(s + t)
    ensures WellFormed(t)
    decreases |s|
  {
    if s == [] {
      assert s + t == t;
    } else {
      var n := UnitLength(s);
      UnitOfConcat(s, t);
      assert (s + t)[n..] == s[n..] + t;
      WellFormedSplit(s[n..], t);
    }
  }

  /** The validation loop of session_codepage_detect_auto. */
  method Validate(input: seq<Byte>) returns (valid: bool)
    ensures valid <==> IsEncoding(input)
  {
    var i := 0;
    valid := true;
    while i < |input| && valid
      invariant valid ==> i <= |input| && (WellFormed(input) <==> WellFormed(input[i..]))
      invariant !valid ==> !WellFormed(input)
      decreases valid, |input| - i
    {
      ghost var rest := input[i..];
      assert valid ==> UnitLength(rest) > 0 ==> rest[UnitLength(rest)..] == input[i + UnitLength(rest)..];
      var lead := input[i];
      if lead < 0x80 {
        i := i + 1;
      } else if 0xC2 <= lead <= 0xDF {
        valid := i + 1 < |input| && 0x80 <= input[i + 1] <= 0xBF;
        i := i + 2;
      } else if 0xE0 <= lead <= 0xEF {
        var lo := if lead == 0xE0 then 0xA0 else 0x80;
        var hi := if lead == 0xED then 0x9F else 0xBF;
        valid := i + 2 < |input| && lo <= input[i + 1] <= hi && 0x80 <= input[i + 2] <= 0xBF;
        i := i + 3;
      } else if 0xF0 <= lead <= 0xF4 {
        var lo := if lead == 0xF0 then 0x90 else 0x80;
        var hi := if lead == 0xF4 then 0x8F else 0xBF;
        valid := i + 3 < |input| && lo <= input[i + 1] <= hi && 0x80 <= input[i + 2] <= 0xBF
              && 0x80 <= input[i + 3] <= 0xBF;
        i := i + 4;
      } else {
        valid := false;
      }
    }
    valid := valid && i == |input|;
    WellFormedIsEncoding(input);
  }

  // ---- Order ----

  /** The order in which byte strings are sorted, for strings of which neither starts the other. */
  ghost predicate SortsBefore(a: seq<Byte>, b: seq<Byte>) {
    exists k :: 0 <= k < |a| && k < |b| && a[k] < b[k] && a[..k] == b[..k]
  }

  lemma SortsAt(a: seq<Byte>, b: seq<Byte>, k: nat)
    requires k < |a| && k < |b| && a[k] < b[k] && a[..k] == b[..k]
    ensures SortsBefore(a, b)
  {
  }

  lemma DigitOrder(x: nat, y: nat)
    requires x < y
    ensures x / 64 <= y / 64 && (x / 64 == y / 64 ==> x % 64 < y % 64)
  {
  }

  /** The first base-64 digit in which two numbers differ tells them apart. */
  lemma FirstDigit(x: nat, y: nat)
    requires x < y
    ensures || x / 262144 < y / 262144
            || (x / 262144 == y / 262144 && x / 4096 % 64 < y / 4096 % 64)
            || (x / 4096 == y / 4096 && x / 64 % 64 < y / 64 % 64)
            || (x / 64 == y / 64 && x % 64 < y % 64)
  {
    NestedQuotient(x);
    NestedQuotient(y);
    DigitOrder(x, y);
    if x / 64 < y / 64 {
      DigitOrder(x / 64, y / 64);
      if x / 4096 < y / 4096 {
        DigitOrder(x / 4096, y / 4096);
        ThirdQuotient(x);
        ThirdQuotient(y);
      }
    }
  }

  lemma SameHigher(x: nat, y: nat)
    ensures x / 64 == y / 64 ==> x / 4096 == y / 4096
    ensures x / 4096 == y / 4096 ==> x / 262144 == y / 262144
  {
    NestedQuotient(x);
    NestedQuotient(y);
    ThirdQuotient(x);
    ThirdQuotient(y);
  }

  lemma ThirdQuotient(x: nat)
    ensures x / 262144 == x / 4096 / 64
  {
  }

  lemma FourBytes(x: nat) returns (e: seq<Byte>, a: nat, b: nat, c: nat, d: nat)
    requires 0x10000 <= x <= 0x10FFFF
    ensures e == Encode(x) && |e| == 4 && e[0] == 0xF0 + a && e[1] == 0x80 + b && e[2] == 0x80 + c && e[3] == 0x80 + d
    ensures a == x / 262144 && b == x / 4096 % 64 && c == x / 64 % 64 && d == x % 64
  {
    e, a, b, c, d := Encode(x), x / 262144, x / 4096 % 64, x / 64 % 64, x % 64;
  }

  lemma FourBytesSort(x: nat, y: nat)
    requires 0x10000 <= x < y <= 0x10FFFF
    ensures SortsBefore(Encode(x), Encode(y))
  {
    var e, a, b, c, d := FourBytes(x);
    var e', a', b', c', d' := FourBytes(y);
    FirstDigit(x, y);
    SameHigher(x, y);
    SortsAt(e, e', if a < a' then 0 else if b < b' then 1 else if c < c' then 2 else 3);
  }

  lemma ThreeBytesSort(x: nat, y: nat)
    requires 0x800 <= x < y <= 0xFFFF
    ensures SortsBefore(Encode(x), Encode(y))
  {
    FirstDigit(x, y);
    SameHigher(x, y);
    SortsAt(Encode(x), Encode(y), if x / 4096 < y / 4096 then 0 else if x / 64 < y / 64 then 1 else 2);
  }

  /** Encodings sort as the scalar values they encode (section 1 of RFC 3629). */
  lemma EncodingKeepsOrder(x: nat, y: nat)
    requires x < y <= 0x10FFFF
    ensures SortsBefore(Encode(x), Encode(y))
  {
    if x >= 0x10000 {
      FourBytesSort(x, y);
    } else if x >= 0x800 && y <= 0xFFFF {
      ThreeBytesSort(x, y);
    } else if 0x80 <= x && y <= 0x7FF {
      DigitOrder(x, y);
      SortsAt(Encode(x), Encode(y), if x / 64 < y / 64 then 0 else 1);
    } else {
      SortsAt(Encode(x), Encode(y), 0);
    }
  }
}
