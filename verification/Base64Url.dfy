/** The unpadded base64url codec of src/utils/jwt.c (section 5 of RFC 4648).
  *
  * The loops are stated over an arbitrary scheme for one group: how three bytes split into four
  * characters, what a character is worth, and how four values join. The base64url group is one scheme. */
module Base64Url {
  import opened Bytes
  import Utf8

  datatype Quad = Quad(c0: Byte, c1: Byte, c2: Byte, c3: Byte)
  datatype Three = Three(b0: Byte, b1: Byte, b2: Byte)

  datatype Scheme = Scheme(
    split: (Byte, Byte, Byte) -> Quad,
    value: Byte -> nat,
    join: (nat, nat, nat, nat) -> Three)

  const BASE64URL := Scheme(Split, Value, Joined)

  // ---- One group ----

  function Char(v: int): (c: Byte)
    requires 0 <= v < 64
  {
    if v < 26 then 65 + v
    else if v < 52 then 71 + v
    else if v < 62 then v - 4
    else if v == 62 then 45
    else 95
  }

  /** The decoding table; bytes outside the alphabet read as -1 cast to 32 bits. */
  function Value(c: Byte): (v: nat) {
    if 65 <= c <= 90 then c - 65
    else if 97 <= c <= 122 then c - 71
    else if 48 <= c <= 57 then c + 4
    else if c == 45 then 62
    else if c == 95 then 63
    else 0xFFFF_FFFF
  }

  function Weigh(b: int, weight: int): int {
    b * weight
  }

  function Split(a: Byte, b: Byte, c: Byte): (q: Quad) {
    var t := Weigh(a, 0x1_0000) + Weigh(b, 0x100) + c;
    Quad(Char(t / 262144 % 64), Char(t / 4096 % 64), Char(t / 64 % 64), Char(t % 64))
  }

  /** The three bytes of four table values, in 32-bit arithmetic. */
  function Joined(a: nat, b: nat, c: nat, d: nat): (r: Three) {
    var t := (a * 262144 + b * 4096 + c * 64 + d) % 0x1_0000_0000;
    Three(t / 65536 % 256, t / 256 % 256, t % 256)
  }

  /** The values of the four characters of a group. */
  function Values(z: Scheme, q: Quad): (v: (nat, nat, nat, nat)) {
    (z.value(q.c0), z.value(q.c1), z.value(q.c2), z.value(q.c3))
  }

  /** Joining undoes splitting, and bytes missing at the end leave characters of value 0, which is also
    * what the decoder takes past the end. */
  ghost predicate Sound(z: Scheme) {
    && (forall a: Byte, b: Byte, c: Byte {:trigger z.split(a, b, c)} ::
          var v := Values(z, z.split(a, b, c)); z.join(v.0, v.1, v.2, v.3) == Three(a, b, c))
    && (forall a: Byte, b: Byte :: z.value(z.split(a, b, 0).c3) == 0)
    && (forall a: Byte :: z.value(z.split(a, 0, 0).c2) == 0)
  }

  lemma ValueOfChar(v: int)
    requires 0 <= v < 64
    ensures Value(Char(v)) == v && Char(v) != 46 && Char(v) != 0
  {
  }

  lemma Quotients(a: Byte, b: Byte, c: Byte, t: nat)
    requires t == Weigh(a, 0x1_0000) + Weigh(b, 0x100) + c
    ensures t < 0x100_0000 && t / 65536 == a && t / 256 % 256 == b && t % 256 == c
  {
    assert t / 256 == Weigh(a, 256) + b;
  }

  lemma Regrouped(t: nat)
    requires t < 0x100_0000
    ensures t / 262144 % 64 == t / 262144
    ensures t == t / 262144 % 64 * 262144 + t / 4096 % 64 * 4096 + t / 64 % 64 * 64 + t % 64
  {
    Utf8.TakenApart(t);
  }

  lemma SplitChars(a: Byte, b: Byte, c: Byte, t: nat)
    requires t == Weigh(a, 0x1_0000) + Weigh(b, 0x100) + c
    ensures var q := Split(a, b, c);
            && Value(q.c0) == t / 262144 % 64 && Value(q.c1) == t / 4096 % 64
            && Value(q.c2) == t / 64 % 64 && Value(q.c3) == t % 64
            && 46 !in [q.c0, q.c1, q.c2, q.c3] && 0 !in [q.c0, q.c1, q.c2, q.c3]
  {
    ValueOfChar(t / 262144 % 64);
    ValueOfChar(t / 4096 % 64);
    ValueOfChar(t / 64 % 64);
    ValueOfChar(t % 64);
  }

  lemma JoinOf(v0: nat, v1: nat, v2: nat, v3: nat, t: nat, a: Byte, b: Byte, c: Byte)
    requires t == v0 * 262144 + v1 * 4096 + v2 * 64 + v3 && t < 0x100_0000
    requires t / 65536 == a && t / 256 % 256 == b && t % 256 == c
    ensures Joined(v0, v1, v2, v3) == Three(a, b, c)
  {
    NoWrap(t);
    assert t / 65536 % 256 == a;
  }

  lemma NoWrap(t: nat)
    requires t < 0x100_0000
    ensures t % 0x1_0000_0000 == t
  {
  }

  lemma JoinUndoesSplit(a: Byte, b: Byte, c: Byte)
    ensures var q := Split(a, b, c);
            Joined(Value(q.c0), Value(q.c1), Value(q.c2), Value(q.c3)) == Three(a, b, c)
  {
    var t := Weigh(a, 0x1_0000) + Weigh(b, 0x100) + c;
    SplitChars(a, b, c, t);
    Quotients(a, b, c, t);
    Regrouped(t);
    JoinOf(t / 262144 % 64, t / 4096 % 64, t / 64 % 64, t % 64, t, a, b, c);
  }

  lemma LowBits(a: nat, b: nat)
    ensures (Weigh(a, 0x1_0000) + Weigh(b, 0x100)) % 64 == 0
    ensures Weigh(a, 0x1_0000) / 64 % 64 == 0
  {
    assert Weigh(a, 0x1_0000) + Weigh(b, 0x100) == 64 * (Weigh(a, 1024) + Weigh(b, 4));
    assert Weigh(a, 0x1_0000) == 64 * (64 * Weigh(a, 16));
  }

  lemma MissingBytes(a: Byte, b: Byte)
    ensures Value(Split(a, b, 0).c3) == 0 && Value(Split(a, 0, 0).c2) == 0
  {
    LowBits(a, b);
    SplitChars(a, b, 0, Weigh(a, 0x1_0000) + Weigh(b, 0x100));
    SplitChars(a, 0, 0, Weigh(a, 0x1_0000));
  }

  lemma GroupIsSound()
    ensures Sound(BASE64URL)
  {
    var z := BASE64URL;
    forall a: Byte, b: Byte, c: Byte
      ensures var v := Values(z, z.split(a, b, c)); z.join(v.0, v.1, v.2, v.3) == Three(a, b, c)
    {
      JoinUndoesSplit(a, b, c);
    }
    forall a: Byte, b: Byte
      ensures z.value(z.split(a, b, 0).c3) == 0 && z.value(z.split(a, 0, 0).c2) == 0
    {
      MissingBytes(a, b);
    }
  }

  // ---- Whole strings ----

  function Flat(q: Quad): (r: seq<Byte>)
    ensures |r| == 4
  {
    [q.c0, q.c1, q.c2, q.c3]
  }

  /** A last group of one or two bytes keeps one character more than it has bytes. */
  function Encode(z: Scheme, x: seq<Byte>): (r: seq<Byte>) {
    if x == [] then []
    else if |x| <= 3 then Flat(z.split(x[0], At(x, 1), At(x, 2)))[..|x| + 1]
    else Flat(z.split(x[0], x[1], x[2])) + Encode(z, x[3..])
  }

  function ValueAt(z: Scheme, s: seq<Byte>, k: nat): nat {
    if k < |s| then z.value(s[k]) else 0
  }

  function Bytes3(r: Three): (s: seq<Byte>)
    ensures |s| == 3
  {
    [r.b0, r.b1, r.b2]
  }

  function DecodeGroup(z: Scheme, s: seq<Byte>): (r: seq<Byte>)
    ensures |r| == 3
  {
    Bytes3(z.join(ValueAt(z, s, 0), ValueAt(z, s, 1), ValueAt(z, s, 2), ValueAt(z, s, 3)))
  }

  /** Everything the decoding loop writes: three bytes a group, none for a lone last character. */
  function DecodeBuffer(z: Scheme, s: seq<Byte>): (r: seq<Byte>)
    decreases |s|
  {
    if |s| <= 1 then [] else DecodeGroup(z, s) + DecodeBuffer(z, if |s| <= 4 then [] else s[4..])
  }

  // ---- The loops ----

  /** What the encoding loop writes before the surplus is cut off: four characters a group. */
  function EncodeFull(z: Scheme, x: seq<Byte>): (r: seq<Byte>)
    decreases |x|
  {
    if x == [] then []
    else Flat(z.split(x[0], At(x, 1), At(x, 2))) + EncodeFull(z, if |x| <= 3 then [] else x[3..])
  }

  function Surplus(n: nat): nat {
    (3 - n % 3) % 3
  }

  lemma SurplusOfGroup(n: nat)
    requires n >= 3
    ensures Surplus(n) == Surplus(n - 3)
  {
  }

  lemma {:induction false} CutOff(z: Scheme, x: seq<Byte>)
    ensures var full := EncodeFull(z, x);
            |full| >= Surplus(|x|) && full[..|full| - Surplus(|x|)] == Encode(z, x)
  {
    if |x| > 3 {
      CutOff(z, x[3..]);
      SurplusOfGroup(|x|);
      CutTail(Flat(z.split(x[0], x[1], x[2])), EncodeFull(z, x[3..]), Surplus(|x|));
    } else if x != [] {
      assert EncodeFull(z, x) == Flat(z.split(x[0], At(x, 1), At(x, 2))) + [];
    }
  }

  lemma CutTail(a: seq<Byte>, b: seq<Byte>, n: nat)
    requires n <= |b|
    ensures (a + b)[..|a + b| - n] == a + b[..|b| - n]
  {
  }

  /** base64url_encode */
  method EncodeBytes(z: Scheme, input: seq<Byte>) returns (output: seq<Byte>)
    ensures output == Encode(z, input)
  {
    var i, n := 0, |input|;
    output := [];
    assert input[0..] == input && output + EncodeFull(z, input) == EncodeFull(z, input);
    while i < n
      invariant i <= n && EncodeFull(z, input) == output + EncodeFull(z, input[i..])
    {
      var start := i;
      var a := input[i];
      i := i + 1;
      var b: Byte := 0;
      if i < n {
        b := input[i];
        i := i + 1;
      }
      var c: Byte := 0;
      if i < n {
        c := input[i];
        i := i + 1;
      }
      EncodeStep(z, input, start, i, output);
      output := output + Flat(z.split(a, b, c));
    }
    assert output + [] == output;
    CutOff(z, input);
    output := output[..|output| - (3 - n % 3) % 3];
  }

  lemma EncodeStep(z: Scheme, input: seq<Byte>, i: nat, next: nat, output: seq<Byte>)
    requires i < |input| && next == if i + 3 <= |input| then i + 3 else |input|
    ensures output + EncodeFull(z, input[i..]) ==
            (output + Flat(z.split(input[i], At(input, i + 1), At(input, i + 2)))) + EncodeFull(z, input[next..])
  {
  }

  /** The three bytes of the group that starts at offset i. */
  function JoinedAt(z: Scheme, input: seq<Byte>, i: nat): (r: seq<Byte>) {
    var (a, b) := (ValueAt(z, input, i), ValueAt(z, input, i + 1));
    Bytes3(z.join(a, b, ValueAt(z, input, i + 2), ValueAt(z, input, i + 3)))
  }

  /** Bytes a group may still write once g groups of a text of len characters are decoded. */
  lemma RoomForGroup(len: nat, g: nat)
    requires 4 * g < len
    ensures var padding := if len % 4 == 2 then 2 else if len % 4 == 3 then 1 else 0;
            var limit := len * 3 / 4 + padding;
            if len - 4 * g >= 2 then 3 * g + 3 <= limit else 3 * g == limit
  {
  }

  /** base64url_decode: the written buffer and the length reported for it. */
  method DecodeText(z: Scheme, input: seq<Byte>) returns (buffer: seq<Byte>, outLen: nat)
    ensures buffer == DecodeBuffer(z, input) && outLen == |input| * 3 / 4
  {
    var len := |input|;
    var padding := if len % 4 == 2 then 2 else if len % 4 == 3 then 1 else 0;
    var limit := len * 3 / 4 + padding;
    var i := 0;
    ghost var g := 0;
    buffer := [];
    assert input[0..] == input && buffer + DecodeBuffer(z, input) == DecodeBuffer(z, input);
    while i < len
      invariant i <= len && (i < len ==> i == 4 * g && |buffer| == 3 * g)
      invariant DecodeBuffer(z, input) == buffer + DecodeBuffer(z, input[i..])
    {
      var bytes := JoinedAt(z, input, i);
      var next := if i + 4 <= len then i + 4 else len;
      RoomForGroup(len, g);
      GroupStep(z, input, i, next, bytes, buffer);
      buffer := Write(buffer, bytes, limit);
      i, g := next, g + 1;
    }
    assert buffer + [] == buffer;
    outLen := len * 3 / 4;
  }

  lemma GroupStep(z: Scheme, input: seq<Byte>, i: nat, next: nat, bytes: seq<Byte>, buffer: seq<Byte>)
    requires i < |input| && next == if i + 4 <= |input| then i + 4 else |input|
    requires bytes == JoinedAt(z, input, i)
    ensures buffer + DecodeBuffer(z, input[i..]) ==
            (if |input| - i >= 2 then buffer + bytes else buffer) + DecodeBuffer(z, input[next..])
  {
  }

  /** The three guarded writes at the end of the decoding loop's body. */
  method Write(buffer: seq<Byte>, bytes: seq<Byte>, limit: nat) returns (r: seq<Byte>)
    requires |bytes| == 3 && |buffer| <= limit
    ensures |buffer| + 3 <= limit ==> r == buffer + bytes
    ensures |buffer| == limit ==> r == buffer
  {
    r := buffer;
    for k := 0 to 3
      invariant |r| == (if |buffer| + k <= limit then |buffer| + k else limit)
      invariant r == buffer + bytes[..|r| - |buffer|]
    {
      if |r| < limit {
        r := r + [bytes[k]];
      }
    }
  }

  // ---- Decoding undoes encoding ----

  function Zeros(n: nat): (r: seq<Byte>) {
    seq(n, _ => 0)
  }

  lemma {:induction false} EncodedLength(z: Scheme, x: seq<Byte>)
    ensures |Encode(z, x)| * 3 / 4 == |x|
  {
    if |x| <= 3 {
    } else {
      EncodedLength(z, x[3..]);
    }
  }

  lemma LastGroup(z: Scheme, x: seq<Byte>)
    requires Sound(z) && 1 <= |x| <= 3
    ensures DecodeGroup(z, Encode(z, x)) == x + Zeros(3 - |x|)
  {
  }

  lemma FullGroup(z: Scheme, x: seq<Byte>, rest: seq<Byte>)
    requires Sound(z) && |x| == 3
    ensures DecodeGroup(z, Flat(z.split(x[0], x[1], x[2])) + rest) == x
  {
  }

  /** The decoder's buffer holds the original bytes followed only by zeros, and the length it reports
    * is the original one. */
  lemma {:induction false} DecodeUndoesEncode(z: Scheme, x: seq<Byte>)
    requires Sound(z)
    ensures DecodeBuffer(z, Encode(z, x)) == x + Zeros(Surplus(|x|))
    ensures |Encode(z, x)| * 3 / 4 == |x|
    decreases |x|
  {
    EncodedLength(z, x);
    if 0 < |x| <= 3 {
      LastGroup(z, x);
      assert DecodeBuffer(z, Encode(z, x)) == DecodeGroup(z, Encode(z, x)) + [];
    } else if |x| > 3 {
      DecodeUndoesEncode(z, x[3..]);
      FullGroup(z, x[..3], Encode(z, x[3..]));
      EncodedNonEmpty(z, x[3..]);
      OneGroupMore(z, x, Flat(z.split(x[0], x[1], x[2])), Encode(z, x[3..]));
    }
  }

  lemma OneGroupMore(z: Scheme, x: seq<Byte>, quad: seq<Byte>, rest: seq<Byte>)
    requires |x| > 3 && |quad| == 4 && rest != []
    requires DecodeGroup(z, quad + rest) == x[..3]
    requires DecodeBuffer(z, rest) == x[3..] + Zeros(Surplus(|x[3..]|))
    ensures DecodeBuffer(z, quad + rest) == x + Zeros(Surplus(|x|))
  {
    assert (quad + rest)[4..] == rest;
    assert x + Zeros(Surplus(|x|)) == x[..3] + (x[3..] + Zeros(Surplus(|x[3..]|)));
  }

  lemma EncodedNonEmpty(z: Scheme, x: seq<Byte>)
    requires x != []
    ensures |Encode(z, x)| >= 2
  {
  }

  /** The encoding never contains a dot or a NUL. */
  lemma {:induction false} EncodedAlphabet(x: seq<Byte>)
    ensures forall k :: 0 <= k < |Encode(BASE64URL, x)| ==>
              Encode(BASE64URL, x)[k] != 46 && Encode(BASE64URL, x)[k] != 0
  {
    if x == [] {
    } else {
      var (a, b, c) := (x[0], At(x, 1), At(x, 2));
      SplitChars(a, b, c, Weigh(a, 0x1_0000) + Weigh(b, 0x100) + c);
      assert forall k :: 0 <= k < 4 ==> Flat(Split(a, b, c))[k] in Flat(Split(a, b, c));
      if |x| > 3 {
        EncodedAlphabet(x[3..]);
      }
    }
  }

  // ---- The alphabet of section 5 of RFC 4648 ----

  /** Letter v of the alphabet. */
  function Letter(v: nat): (c: char)
    requires v < 64
  {
    if v < 26 then 'A' + v as char
    else if v < 52 then 'a' + (v - 26) as char
    else if v < 62 then '0' + (v - 52) as char
    else if v == 62 then '-'
    else '_'
  }

  /** Three bytes become the letters of their 24 bits, six at a time, highest first. */
  lemma GroupIsLetters(a: Byte, b: Byte, c: Byte)
    ensures var (q, t) := (Split(a, b, c), a * 65536 + b * 256 + c);
            && t < 64 * 64 * 64 * 64
            && q.c0 == Letter(t / (64 * 64 * 64)) as int && q.c1 == Letter(t / (64 * 64) % 64) as int
            && q.c2 == Letter(t / 64 % 64) as int && q.c3 == Letter(t % 64) as int
  {
    var t := Weigh(a, 0x1_0000) + Weigh(b, 0x100) + c;
    Quotients(a, b, c, t);
    Regrouped(t);
  }

  /** The decoding table is the alphabet backwards, with the largest 32-bit number for every other byte. */
  lemma ValueExactly(c: Byte, v: nat)
    requires v < 64
    ensures Value(c) == v <==> c == Letter(v) as int
    ensures Value(c) < 64 || Value(c) == 0xFFFF_FFFF
  {
  }

  lemma ThreeBytesOf(t: nat)
    ensures t % 0x100_0000 == t / 65536 % 256 * 65536 + t / 256 % 256 * 256 + t % 256
  {
    assert t / 65536 == t / 256 / 256 && t / 0x100_0000 == t / 65536 / 256;
  }

  /** Four values become the three bytes of their number, cut to 24 bits. */
  lemma JoinedMeans(a: nat, b: nat, c: nat, d: nat)
    ensures var (r, t) := (Joined(a, b, c, d), (a * 64 * 64 * 64 + b * 64 * 64 + c * 64 + d) % 0x1_0000_0000);
            r.b0 * 65536 + r.b1 * 256 + r.b2 == t % 0x100_0000
  {
    var t := (a * 262144 + b * 4096 + c * 64 + d) % 0x1_0000_0000;
    ThreeBytesOf(t);
  }
}
