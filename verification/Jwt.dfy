/** The session tokens of src/utils/jwt.c. The keyed hash is a parameter: any function of secret and text. */
module Jwt {
  import opened Bytes
  import opened Base64Url
  import opened Options
  import opened Searching

  type Mac = (seq<Byte>, seq<Byte>) -> seq<Byte>

  const DOT: Byte := 46
  const PAYLOAD_LEN := 256

  /** {"alg":"HS256","typ":"JWT"} */
  const HEADER: seq<Byte> := [123, 34, 97, 108, 103, 34, 58, 34, 72, 83, 50, 53, 54, 34, 44,
                              34, 116, 121, 112, 34, 58, 34, 74, 87, 84, 34, 125]
  /** "sub":" */
  const SUB_KEY: seq<Byte> := [34, 115, 117, 98, 34, 58, 34]
  /** ","iat": */
  const IAT_PART: seq<Byte> := [34, 44, 34, 105, 97, 116, 34, 58]
  /** "exp": */
  const EXP_KEY: seq<Byte> := [34, 101, 120, 112, 34, 58]

  // ---- The C library's numbers and searches ----

  function Digits(n: nat): (r: seq<Byte>)
    ensures r != [] && forall k :: 0 <= k < |r| ==> 48 <= r[k] <= 57
  {
    if n < 10 then [48 + n] else Digits(n / 10) + [48 + n % 10]
  }

  /** %ld */
  function Decimal(n: int): (r: seq<Byte>)
    ensures r != [] && forall k :: 0 <= k < |r| ==> r[k] == 45 || 48 <= r[k] <= 57
  {
    if n < 0 then [45] + Digits(-n) else Digits(n)
  }

  function ParseDigits(s: seq<Byte>, acc: int): (n: int) {
    if s != [] && 48 <= s[0] <= 57 then ParseDigits(s[1..], acc * 10 + Digit(s[0])) else acc
  }

  function Digit(b: int): int {
    b - 48
  }

  /** atol on text that starts with a digit or a minus sign. */
  function ParseLong(s: seq<Byte>): (n: int) {
    if s != [] && s[0] == 45 then -ParseDigits(s[1..], 0) else ParseDigits(s, 0)
  }

  lemma {:induction false} ParseInPieces(a: seq<Byte>, b: seq<Byte>, acc: int)
    requires forall k :: 0 <= k < |a| ==> 48 <= a[k] <= 57
    ensures ParseDigits(a + b, acc) == ParseDigits(b, ParseDigits(a, acc))
    decreases |a|
  {
    if a == [] {
      assert a + b == b;
    } else {
      assert (a + b)[1..] == a[1..] + b;
      ParseInPieces(a[1..], b, acc * 10 + Digit(a[0]));
    }
  }

  lemma {:induction false} ParseOfDigits(n: nat)
    ensures ParseDigits(Digits(n), 0) == n
  {
    if n >= 10 {
      ParseOfDigits(n / 10);
      ParseInPieces(Digits(n / 10), [48 + n % 10], 0);
      assert [48 + n % 10][1..] == [];
    } else {
      assert [48 + n][1..] == [];
    }
  }

  lemma ParseOfDigitsThen(n: nat, rest: seq<Byte>)
    requires rest != [] && !(48 <= rest[0] <= 57)
    ensures ParseDigits(Digits(n) + rest, 0) == n
  {
    ParseOfDigits(n);
    ParseInPieces(Digits(n), rest, 0);
  }

  lemma ParseSigned(digits: seq<Byte>, rest: seq<Byte>)
    ensures ParseLong([45] + digits + rest) == -ParseDigits(digits + rest, 0)
  {
    assert ([45] + digits + rest)[1..] == digits + rest;
  }

  lemma ParseUnsigned(digits: seq<Byte>, rest: seq<Byte>)
    requires digits != [] && digits[0] != 45
    ensures ParseLong(digits + rest) == ParseDigits(digits + rest, 0)
  {
    assert (digits + rest)[0] == digits[0];
  }

  /** Reading back a printed number, whatever follows it, as long as that is not a digit. */
  lemma ParseOfDecimal(n: int, rest: seq<Byte>)
    requires rest != [] && !(48 <= rest[0] <= 57)
    ensures ParseLong(Decimal(n) + rest) == n
  {
    if n < 0 {
      ParseOfDigitsThen(-n, rest);
      ParseSigned(Digits(-n), rest);
    } else {
      ParseOfDigitsThen(n, rest);
      ParseUnsigned(Digits(n), rest);
    }
  }

  /** strstr from offset i: the first place at which the pattern stands. */
  function Find(s: seq<Byte>, pattern: seq<Byte>, i: nat): (r: Option<nat>)
    requires i <= |s|
    ensures r.Some? ==> i <= r.value <= |s| && pattern <= s[r.value..]
    decreases |s| - i
  {
    if pattern <= s[i..] then Some(i) else if i == |s| then None else Find(s, pattern, i + 1)
  }

  /** The contents of a buffer as a C string. */
  function UpToNul(s: seq<Byte>): (r: seq<Byte>) {
    if s == [] || s[0] == 0 then [] else [s[0]] + UpToNul(s[1..])
  }

  // ---- Tokens ----

  /** {"sub":"<username>","iat":<now>,"exp":<expiry>}, before it is cut to its buffer. */
  function Payload(username: seq<Byte>, issued: int, expires: int): (r: seq<Byte>) {
    ([123] + SUB_KEY + username + IAT_PART) + (Decimal(issued) + [44] + (EXP_KEY + Decimal(expires) + [125]))
  }

  function CutTo(s: seq<Byte>, length: nat): (r: seq<Byte>)
    requires length > 0
  {
    if |s| < length then s else s[..length - 1]
  }

  function Dotted(a: seq<Byte>, b: seq<Byte>): (r: seq<Byte>) {
    a + [DOT] + b
  }

  function Sign(mac: Mac, secret: seq<Byte>, header: seq<Byte>, payload: seq<Byte>): (token: seq<Byte>) {
    var signed := Dotted(Encode(BASE64URL, header), Encode(BASE64URL, payload));
    Dotted(signed, Encode(BASE64URL, mac(secret, signed)))
  }

  /** jwt_generate */
  function Generate(mac: Mac, secret: seq<Byte>, username: seq<Byte>, now: int, lifetime: int): (token: seq<Byte>) {
    Sign(mac, secret, HEADER, CutTo(Payload(username, now, now + lifetime), PAYLOAD_LEN))
  }

  /** The expiry a payload names. */
  function Expiry(json: seq<Byte>): (r: Option<int>) {
    var exp := Find(json, EXP_KEY, 0);
    if exp.None? then None else Some(ParseLong(json[exp.value + |EXP_KEY|..]))
  }

  /** The username a payload names. */
  function Subject(json: seq<Byte>): (r: Option<seq<Byte>>) {
    var sub := Find(json, SUB_KEY, 0);
    if sub.None? then None
    else
      var start := sub.value + |SUB_KEY|;
      var end := Find(json, [QUOTE], start);
      if end.None? then None else Some(json[start..end.value])
  }

  /** What jwt_verify makes of a payload whose signature was right. */
  function Judge(json: seq<Byte>, now: int): (r: (bool, Option<seq<Byte>>)) {
    if Expiry(json).Some? && now > Expiry(json).value then (false, None) else (true, Subject(json))
  }

  datatype Parts = Parts(header: seq<Byte>, payload: seq<Byte>, signature: seq<Byte>)

  /** The token cut at its first two dots. */
  function Cut(token: seq<Byte>): (r: Option<Parts>) {
    var dot1 := Find(token, [DOT], 0);
    if dot1.None? then None
    else
      var dot2 := Find(token, [DOT], dot1.value + 1);
      if dot2.None? then None
      else Some(Parts(token[..dot1.value], token[dot1.value + 1..dot2.value], token[dot2.value + 1..]))
  }

  /** jwt_verify. The decoder writes no terminator of its own, so the decoded text goes on with the bytes
    * found behind the written ones, up to the first NUL. */
  function Verify(mac: Mac, secret: seq<Byte>, token: seq<Byte>, beyond: seq<Byte>, now: int)
    : (r: (bool, Option<seq<Byte>>))
  {
    match Cut(token)
    case None => (false, None)
    case Some(parts) =>
      if Encode(BASE64URL, mac(secret, Dotted(parts.header, parts.payload))) != parts.signature then (false, None)
      else Judge(UpToNul(DecodeBuffer(BASE64URL, parts.payload) + beyond), now)
  }

  // ---- Verify accepts what Generate issues ----

  lemma Mismatch(s: seq<Byte>, pattern: seq<Byte>, j: nat, w: nat)
    requires j <= |s| && w < |pattern| && j + w < |s| && s[j + w] != pattern[w]
    ensures !(pattern <= s[j..])
  {
  }

  /** The first place at which the pattern stands is the one found. */
  lemma {:induction false} FindIs(s: seq<Byte>, pattern: seq<Byte>, i: nat, k: nat)
    requires i <= k <= |s| && pattern <= s[k..] && forall j :: i <= j < k ==> !(pattern <= s[j..])
    ensures Find(s, pattern, i) == Some(k)
    decreases k - i
  {
    if i == k {
    } else {
      FindIs(s, pattern, i + 1, k);
    }
  }

  predicate QuoteFree(username: seq<Byte>) {
    forall k :: 0 <= k < |username| ==> username[k] != QUOTE
  }

  /** The layout of a payload and whatever follows it, position by position; x is where the last comma
    * stands. */
  predicate Layout(p: seq<Byte>, u: seq<Byte>, issued: seq<Byte>, expires: seq<Byte>, x: nat) {
    var n := |u|;
    && x == 16 + n + |issued|
    && |p| >= x + 7 + |expires| + 1
    && p[..8] == [123] + SUB_KEY && p[8..8 + n] == u && p[8 + n..16 + n] == IAT_PART
    && p[16 + n..x] == issued && p[x] == 44
    && p[x + 1..x + 7] == EXP_KEY && p[x + 7..x + 7 + |expires| + 1] == expires + [125]
  }

  lemma PayloadLayout(u: seq<Byte>, issued: int, expires: int)
    ensures Layout(Payload(u, issued, expires), u, Decimal(issued), Decimal(expires), 16 + |u| + |Decimal(issued)|)
  {
    var (i, e) := (Decimal(issued), Decimal(expires));
    var a := FrontHalf(u);
    var b := BackHalf(i, e);
    LayoutOfHalves(u, i, e, a, b);
  }

  lemma FrontHalf(u: seq<Byte>) returns (a: seq<Byte>)
    ensures a == [123] + SUB_KEY + u + IAT_PART
    ensures |a| == 16 + |u| && a[..8] == [123] + SUB_KEY && a[8..8 + |u|] == u && a[8 + |u|..] == IAT_PART
  {
    a := [123] + SUB_KEY + u + IAT_PART;
  }

  lemma BackHalf(i: seq<Byte>, e: seq<Byte>) returns (b: seq<Byte>)
    ensures b == i + [44] + (EXP_KEY + e + [125])
    ensures |b| == |i| + 7 + |e| + 1 && b[..|i|] == i && b[|i|..|i| + 1] == [44]
    ensures b[|i| + 1..] == EXP_KEY + e + [125] && b[|i| + 1..][..6] == EXP_KEY && b[|i| + 1..][6..] == e + [125]
  {
    b := i + [44] + (EXP_KEY + e + [125]);
  }

  lemma SliceOfPrefix(p: seq<Byte>, rest: seq<Byte>, lo: nat, hi: nat)
    requires lo <= hi <= |p|
    ensures (p + rest)[lo..hi] == p[lo..hi]
  {
  }

  lemma LayoutGoesOn(p: seq<Byte>, rest: seq<Byte>, u: seq<Byte>, issued: seq<Byte>, expires: seq<Byte>, x: nat)
    requires Layout(p, u, issued, expires, x)
    ensures Layout(p + rest, u, issued, expires, x)
  {
    var n := |u|;
    SliceOfPrefix(p, rest, 0, 8);
    assert p[0..8] == p[..8] && (p + rest)[0..8] == (p + rest)[..8];
    SliceOfPrefix(p, rest, 8, 8 + n);
    SliceOfPrefix(p, rest, 8 + n, 16 + n);
    SliceOfPrefix(p, rest, 16 + n, x);
    SliceOfPrefix(p, rest, x + 1, x + 7);
    SliceOfPrefix(p, rest, x + 7, x + 7 + |expires| + 1);
  }

  lemma LayoutOfHalves(u: seq<Byte>, i: seq<Byte>, e: seq<Byte>, a: seq<Byte>, b: seq<Byte>)
    requires |a| == 16 + |u| && a[..8] == [123] + SUB_KEY && a[8..8 + |u|] == u && a[8 + |u|..] == IAT_PART
    requires |b| == |i| + 7 + |e| + 1 && b[..|i|] == i && b[|i|..|i| + 1] == [44]
    requires b[|i| + 1..] == EXP_KEY + e + [125] && b[|i| + 1..][..6] == EXP_KEY && b[|i| + 1..][6..] == e + [125]
    ensures Layout(a + b, u, i, e, 16 + |u| + |i|)
  {
  }

  /** The fixed bytes around the username. */
  lemma FixedBytes(p: seq<Byte>, u: seq<Byte>, issued: seq<Byte>, expires: seq<Byte>, x: nat)
    requires Layout(p, u, issued, expires, x)
    ensures var n := |u|;
            && p[0] == 123 && p[1] == 34 && p[2] == 115 && p[3] == 117
            && p[4] == 98 && p[5] == 34 && p[6] == 58 && p[7] == 34
            && p[8 + n] == 34 && p[9 + n] == 44 && p[10 + n] == 34 && p[11 + n] == 105
            && p[12 + n] == 97 && p[13 + n] == 116 && p[14 + n] == 34 && p[15 + n] == 58
  {
  }

  /** The expiry key does not stand inside or around a quote-free username. */
  lemma NoKeyAtUsername(p: seq<Byte>, u: seq<Byte>, issued: seq<Byte>, expires: seq<Byte>, x: nat)
    requires Layout(p, u, issued, expires, x) && QuoteFree(u)
    ensures !(EXP_KEY <= p[7..])
  {
    FixedBytes(p, u, issued, expires, x);
    var n := |u|;
    if n == 0 || p[8] != 101 {
      Mismatch(p, EXP_KEY, 7, 1);
    } else if n == 1 || p[9] != 120 {
      Mismatch(p, EXP_KEY, 7, 2);
    } else if n == 2 || p[10] != 112 {
      Mismatch(p, EXP_KEY, 7, 3);
    } else if n == 3 {
      Mismatch(p, EXP_KEY, 7, 5);
    } else {
      assert p[11] == p[8..8 + n][3] == u[3] != QUOTE;
      Mismatch(p, EXP_KEY, 7, 4);
    }
  }

  lemma NoKeyBefore(p: seq<Byte>, u: seq<Byte>, issued: seq<Byte>, expires: seq<Byte>, x: nat, j: nat)
    requires Layout(p, u, issued, expires, x) && QuoteFree(u) && j <= x
    requires forall k :: 0 <= k < |issued| ==> issued[k] != QUOTE
    ensures !(EXP_KEY <= p[j..])
  {
    FixedBytes(p, u, issued, expires, x);
    var n := |u|;
    if j == 7 {
      NoKeyAtUsername(p, u, issued, expires, x);
    } else if j < 8 {
      Mismatch(p, EXP_KEY, j, if j == 1 || j == 5 then 1 else 0);
    } else if j < 8 + n {
      assert p[j] == p[8..8 + n][j - 8] == u[j - 8] != QUOTE;
      Mismatch(p, EXP_KEY, j, 0);
    } else if j < 16 + n {
      Mismatch(p, EXP_KEY, j, if j == 8 + n || j == 10 + n || j == 14 + n then 1 else 0);
    } else if j < x {
      assert p[j] == p[16 + n..x][j - 16 - n] == issued[j - 16 - n] != QUOTE;
      Mismatch(p, EXP_KEY, j, 0);
    } else {
      Mismatch(p, EXP_KEY, j, 0);
    }
  }

  lemma ExpiryFound(p: seq<Byte>, u: seq<Byte>, issued: seq<Byte>, expires: seq<Byte>, x: nat)
    requires Layout(p, u, issued, expires, x) && QuoteFree(u)
    requires forall k :: 0 <= k < |issued| ==> issued[k] != QUOTE
    ensures Find(p, EXP_KEY, 0) == Some(x + 1)
  {
    forall j | 0 <= j < x + 1
      ensures !(EXP_KEY <= p[j..])
    {
      NoKeyBefore(p, u, issued, expires, x, j);
    }
    assert EXP_KEY <= p[x + 1..] by {
      assert p[x + 1..][..6] == p[x + 1..x + 7];
    }
    FindIs(p, EXP_KEY, 0, x + 1);
  }

  lemma SubjectKeyFound(p: seq<Byte>, u: seq<Byte>, issued: seq<Byte>, expires: seq<Byte>, x: nat)
    requires Layout(p, u, issued, expires, x)
    ensures Find(p, SUB_KEY, 0) == Some(1)
  {
    FixedBytes(p, u, issued, expires, x);
    Mismatch(p, SUB_KEY, 0, 0);
    assert SUB_KEY <= p[1..] by {
      assert p[1..][..7] == p[..8][1..] == SUB_KEY;
    }
    FindIs(p, SUB_KEY, 0, 1);
  }

  /** The bytes of the username, one by one, and the quote that follows them. */
  lemma UsernameBytes(p: seq<Byte>, u: seq<Byte>, issued: seq<Byte>, expires: seq<Byte>, x: nat)
    requires Layout(p, u, issued, expires, x)
    ensures forall j :: 8 <= j < 8 + |u| ==> p[j] == u[j - 8]
    ensures p[8 + |u|] == QUOTE
  {
    FixedBytes(p, u, issued, expires, x);
    assert forall j :: 8 <= j < 8 + |u| ==> p[j] == p[8..8 + |u|][j - 8];
  }

  /** The first quote from offset i on. */
  lemma QuoteFound(p: seq<Byte>, i: nat, q: nat)
    requires i <= q < |p| && p[q] == QUOTE && forall j :: i <= j < q ==> p[j] != QUOTE
    ensures Find(p, [QUOTE], i) == Some(q)
  {
    forall j | i <= j < q
      ensures !([QUOTE] <= p[j..])
    {
      Mismatch(p, [QUOTE], j, 0);
    }
    FindIs(p, [QUOTE], i, q);
  }

  /** Reading stops at the first quote from the username on: the username's own, if it has one, or the one
    * that follows it. */
  lemma SubjectFound(p: seq<Byte>, u: seq<Byte>, issued: seq<Byte>, expires: seq<Byte>, x: nat, q: nat)
    requires Layout(p, u, issued, expires, x) && q <= |u| && (q < |u| ==> u[q] == QUOTE)
    requires forall k :: 0 <= k < q ==> u[k] != QUOTE
    ensures Subject(p) == Some(u[..q])
  {
    SubjectKeyFound(p, u, issued, expires, x);
    UsernameBytes(p, u, issued, expires, x);
    QuoteFound(p, 8, 8 + q);
    assert p[8..8 + q] == u[..q];
    SubjectIs(p, q);
  }

  lemma SubjectIs(json: seq<Byte>, q: nat)
    requires 8 + q <= |json| && Find(json, SUB_KEY, 0) == Some(1) && Find(json, [QUOTE], 8) == Some(8 + q)
    ensures Subject(json) == Some(json[8..8 + q])
  {
  }

  lemma ExpiryIs(json: seq<Byte>, x: nat)
    requires x + 7 <= |json| && Find(json, EXP_KEY, 0) == Some(x + 1)
    ensures Expiry(json) == Some(ParseLong(json[x + 7..]))
  {
  }

  lemma JudgeByLayout(p: seq<Byte>, u: seq<Byte>, issued: seq<Byte>, expires: seq<Byte>, x: nat)
    requires Layout(p, u, issued, expires, x) && QuoteFree(u)
    requires forall k :: 0 <= k < |issued| ==> issued[k] != QUOTE
    ensures Expiry(p) == Some(ParseLong(p[x + 7..])) && Subject(p) == Some(u)
  {
    ExpiryFound(p, u, issued, expires, x);
    ExpiryIs(p, x);
    SubjectFound(p, u, issued, expires, x, |u|);
    assert u[..|u|] == u;
  }

  lemma ExpiryRead(p: seq<Byte>, u: seq<Byte>, issued: seq<Byte>, expires: int, x: nat)
    requires Layout(p, u, issued, Decimal(expires), x)
    ensures ParseLong(p[x + 7..]) == expires
  {
    var m := x + 7 + |Decimal(expires)|;
    var both := p[x + 7..m + 1];
    assert both == Decimal(expires) + [125];
    assert p[x + 7..m] == both[..m - x - 7] == Decimal(expires);
    assert p[m] == both[m - x - 7] == 125;
    assert p[x + 7..] == p[x + 7..m] + p[m..];
    ParseOfDecimal(expires, p[m..]);
  }

  /** An issued payload and what follows it, known only by its layout. */
  lemma IssuedLayout(username: seq<Byte>, issued: int, expires: int, rest: seq<Byte>)
    returns (json: seq<Byte>, i: seq<Byte>, x: nat)
    ensures json == Payload(username, issued, expires) + rest && i == Decimal(issued)
    ensures Layout(json, username, i, Decimal(expires), x)
  {
    i, x := Decimal(issued), 16 + |username| + |Decimal(issued)|;
    json := Payload(username, issued, expires) + rest;
    PayloadLayout(username, issued, expires);
    LayoutGoesOn(Payload(username, issued, expires), rest, username, i, Decimal(expires), x);
  }

  /** An issued payload, whatever follows it in memory, is accepted with its username until it expires. */
  lemma JudgeIssued(username: seq<Byte>, issued: int, expires: int, rest: seq<Byte>, now: int)
    requires QuoteFree(username)
    ensures Judge(Payload(username, issued, expires) + rest, now)
         == if now <= expires then (true, Some(username)) else (false, None)
  {
    var json, i, x := IssuedLayout(username, issued, expires, rest);
    JudgeByLayout(json, username, i, Decimal(expires), x);
    ExpiryRead(json, username, i, expires, x);
  }

  /** Of a username that holds a quote only the part before it is named. */
  lemma QuotedNotNamed(username: seq<Byte>, issued: int, expires: int, rest: seq<Byte>, now: int)
    requires !QuoteFree(username)
    ensures Judge(Payload(username, issued, expires) + rest, now) != (true, Some(username))
  {
    var json, i, x := IssuedLayout(username, issued, expires, rest);
    var q := First(username, (b: Byte) => b == QUOTE);
    SubjectFound(json, username, i, Decimal(expires), x, q);
    assert |username[..q]| < |username|;
  }

  lemma {:induction false} UpToNulOf(s: seq<Byte>, rest: seq<Byte>)
    requires NulFree(s)
    ensures UpToNul(s + rest) == s + UpToNul(rest)
    decreases |s|
  {
    if s == [] {
      assert s + rest == rest;
    } else {
      assert (s + rest)[0] == s[0] && (s + rest)[1..] == s[1..] + rest;
      UpToNulOf(s[1..], rest);
    }
  }

  predicate DotFree(s: seq<Byte>) {
    forall k :: 0 <= k < |s| ==> s[k] != DOT
  }

  lemma FirstDot(s: seq<Byte>, i: nat, n: nat)
    requires i + n < |s| && s[i + n] == DOT && DotFree(s[i..i + n])
    ensures Find(s, [DOT], i) == Some(i + n)
  {
    forall j | i <= j < i + n
      ensures !([DOT] <= s[j..])
    {
      assert s[j] == s[i..i + n][j - i] != DOT;
      Mismatch(s, [DOT], j, 0);
    }
    FindIs(s, [DOT], i, i + n);
  }

  /** A token is cut at its dots into exactly the parts it was made of. */
  lemma TokenParts(h: seq<Byte>, p: seq<Byte>, sig: seq<Byte>)
    requires DotFree(h) && DotFree(p)
    ensures Cut(Dotted(Dotted(h, p), sig)) == Some(Parts(h, p, sig))
  {
    var token := Dotted(Dotted(h, p), sig);
    TokenSlices(h, p, sig, token);
    CutAt(token, |h|, |p|);
  }

  lemma CutAt(token: seq<Byte>, n: nat, m: nat)
    requires n + 1 + m < |token| && token[n] == DOT && token[n + 1 + m] == DOT
    requires DotFree(token[..n]) && DotFree(token[n + 1..n + 1 + m])
    ensures Cut(token) == Some(Parts(token[..n], token[n + 1..n + 1 + m], token[n + 1 + m + 1..]))
  {
    assert token[0..0 + n] == token[..n];
    FirstDot(token, 0, n);
    FirstDot(token, n + 1, m);
    CutFrom(token, n, n + 1 + m);
  }

  lemma CutFrom(token: seq<Byte>, a: nat, b: nat)
    requires a < |token| && Find(token, [DOT], 0) == Some(a) && Find(token, [DOT], a + 1) == Some(b) && b < |token|
    ensures Cut(token) == Some(Parts(token[..a], token[a + 1..b], token[b + 1..]))
  {
  }

  lemma TokenSlices(h: seq<Byte>, p: seq<Byte>, sig: seq<Byte>, token: seq<Byte>)
    requires token == Dotted(Dotted(h, p), sig)
    ensures |token| == |h| + 1 + |p| + 1 + |sig| && token[|h|] == DOT && token[|h| + 1 + |p|] == DOT
    ensures token[..|h|] == h && token[|h| + 1..|h| + 1 + |p|] == p && token[|h| + 1 + |p| + 1..] == sig
  {
  }

  lemma NulFreeConcat(a: seq<Byte>, b: seq<Byte>)
    requires NulFree(a) && NulFree(b)
    ensures NulFree(a + b)
  {
  }

  lemma PayloadNulFree(username: seq<Byte>, issued: int, expires: int)
    requires NulFree(username)
    ensures NulFree(Payload(username, issued, expires))
  {
    var (i, e) := (Decimal(issued), Decimal(expires));
    NulFreeConcat([123] + SUB_KEY, username);
    NulFreeConcat([123] + SUB_KEY + username, IAT_PART);
    NulFreeConcat(i, [44]);
    NulFreeConcat(EXP_KEY, e);
    NulFreeConcat(EXP_KEY + e, [125]);
    NulFreeConcat(i + [44], EXP_KEY + e + [125]);
    NulFreeConcat([123] + SUB_KEY + username + IAT_PART, i + [44] + (EXP_KEY + e + [125]));
  }

  /** A correctly signed token is judged by its decoded payload. */
  lemma SignedTokenJudged(mac: Mac, secret: seq<Byte>, h: seq<Byte>, p: seq<Byte>, beyond: seq<Byte>, now: int)
    requires DotFree(h) && DotFree(p)
    ensures Verify(mac, secret, Dotted(Dotted(h, p), Encode(BASE64URL, mac(secret, Dotted(h, p)))), beyond, now)
         == Judge(UpToNul(DecodeBuffer(BASE64URL, p) + beyond), now)
  {
    TokenParts(h, p, Encode(BASE64URL, mac(secret, Dotted(h, p))));
  }

  /** What is read behind a decoded payload: nothing when its last group was short, for that leaves a zero;
    * otherwise whatever stands there. */
  function Behind(payload: seq<Byte>, beyond: seq<Byte>): (rest: seq<Byte>) {
    if Surplus(|payload|) > 0 then [] else UpToNul(beyond)
  }

  lemma ZerosEnd(n: nat, beyond: seq<Byte>)
    ensures UpToNul(Zeros(n) + beyond) == if n > 0 then [] else UpToNul(beyond)
  {
    if n == 0 {
      assert Zeros(0) + beyond == beyond;
    } else {
      assert (Zeros(n) + beyond)[0] == 0;
    }
  }

  lemma DecodedPayload(payload: seq<Byte>, beyond: seq<Byte>)
    requires NulFree(payload)
    ensures UpToNul(DecodeBuffer(BASE64URL, Encode(BASE64URL, payload)) + beyond) == payload + Behind(payload, beyond)
  {
    var zeros := Zeros(Surplus(|payload|));
    GroupIsSound();
    DecodeUndoesEncode(BASE64URL, payload);
    Associate(payload, zeros, beyond);
    UpToNulOf(payload, zeros + beyond);
    ZerosEnd(Surplus(|payload|), beyond);
  }

  /** Verifying a signed payload judges exactly that payload and what is read behind it. */
  lemma SignedPayloadJudged(mac: Mac, secret: seq<Byte>, header: seq<Byte>, payload: seq<Byte>,
                            beyond: seq<Byte>, now: int)
    requires NulFree(payload)
    ensures Verify(mac, secret, Sign(mac, secret, header, payload), beyond, now)
         == Judge(payload + Behind(payload, beyond), now)
  {
    EncodedAlphabet(header);
    EncodedAlphabet(payload);
    SignedTokenJudged(mac, secret, Encode(BASE64URL, header), Encode(BASE64URL, payload), beyond, now);
    DecodedPayload(payload, beyond);
  }

  lemma GenerateUncut(mac: Mac, secret: seq<Byte>, username: seq<Byte>, now: int, lifetime: int, p: seq<Byte>)
    requires p == Payload(username, now, now + lifetime) && |p| < PAYLOAD_LEN
    ensures Generate(mac, secret, username, now, lifetime) == Sign(mac, secret, HEADER, p)
  {
  }

  lemma JudgedPayload(username: seq<Byte>, issued: int, expires: int, beyond: seq<Byte>, later: int, p: seq<Byte>)
    requires NulFree(username) && p == Payload(username, issued, expires)
    ensures NulFree(p)
    ensures QuoteFree(username) ==>
              Judge(p + Behind(p, beyond), later) == if later <= expires then (true, Some(username)) else (false, None)
    ensures !QuoteFree(username) ==> Judge(p + Behind(p, beyond), later) != (true, Some(username))
  {
    PayloadNulFree(username, issued, expires);
    if QuoteFree(username) {
      JudgeIssued(username, issued, expires, Behind(p, beyond), later);
    } else {
      QuotedNotNamed(username, issued, expires, Behind(p, beyond), later);
    }
  }

  /** The two parts of an issued token, known only by how they are signed and judged. */
  lemma IssuedParts(mac: Mac, secret: seq<Byte>, username: seq<Byte>, now: int, lifetime: int,
                    beyond: seq<Byte>, later: int)
    returns (header: seq<Byte>, p: seq<Byte>)
    requires NulFree(username) && |Payload(username, now, now + lifetime)| < PAYLOAD_LEN
    ensures Generate(mac, secret, username, now, lifetime) == Sign(mac, secret, header, p) && NulFree(p)
    ensures QuoteFree(username) ==>
              Judge(p + Behind(p, beyond), later) ==
                if later <= now + lifetime then (true, Some(username)) else (false, None)
    ensures !QuoteFree(username) ==> Judge(p + Behind(p, beyond), later) != (true, Some(username))
  {
    header, p := HEADER, Payload(username, now, now + lifetime);
    GenerateUncut(mac, secret, username, now, lifetime, p);
    JudgedPayload(username, now, now + lifetime, beyond, later, p);
  }

  /** Whatever the keyed hash, and whatever stands in memory behind the decoded payload: a token issued to a
    * quote-free username whose payload fits its buffer is accepted, with that username, exactly until it
    * expires. */
  lemma IssuedTokenAccepted(mac: Mac, secret: seq<Byte>, username: seq<Byte>, now: int, lifetime: int,
                            beyond: seq<Byte>, later: int)
    requires NulFree(username) && QuoteFree(username) && |Payload(username, now, now + lifetime)| < PAYLOAD_LEN
    ensures Verify(mac, secret, Generate(mac, secret, username, now, lifetime), beyond, later)
         == if later <= now + lifetime then (true, Some(username)) else (false, None)
  {
    var header, payload := IssuedParts(mac, secret, username, now, lifetime, beyond, later);
    SignedPayloadJudged(mac, secret, header, payload, beyond, later);
  }

  /** The exact condition for every username: its token names it back if and only if it holds no quote and
    * the token has not expired. */
  lemma IssuedTokenNamesExactly(mac: Mac, secret: seq<Byte>, username: seq<Byte>, now: int, lifetime: int,
                                beyond: seq<Byte>, later: int)
    requires NulFree(username) && |Payload(username, now, now + lifetime)| < PAYLOAD_LEN
    ensures Verify(mac, secret, Generate(mac, secret, username, now, lifetime), beyond, later)
              == (true, Some(username)) <==>
            QuoteFree(username) && later <= now + lifetime
  {
    var header, payload := IssuedParts(mac, secret, username, now, lifetime, beyond, later);
    SignedPayloadJudged(mac, secret, header, payload, beyond, later);
  }

  // ---- Verify accepts nothing else ----

  lemma PatternFirst(s: seq<Byte>, b: Byte, i: nat)
    requires i <= |s|
    ensures [b] <= s[i..] <==> i < |s| && s[i] == b
  {
    if i < |s| && s[i] == b {
      assert s[i..][..1] == [b];
    }
  }

  /** A byte that is found stands there for the first time. */
  lemma {:induction false} FoundByte(s: seq<Byte>, b: Byte, i: nat)
    requires i <= |s|
    ensures match Find(s, [b], i)
            case None => forall j :: i <= j < |s| ==> s[j] != b
            case Some(k) => i <= k < |s| && s[k] == b && forall j :: i <= j < k ==> s[j] != b
    decreases |s| - i
  {
    PatternFirst(s, b, i);
    if i < |s| && s[i] != b {
      FoundByte(s, b, i + 1);
    }
  }

  /** Two cuts at dots put together again. */
  lemma DotsRejoin(token: seq<Byte>, a: nat, b: nat)
    requires a < b < |token| && token[a] == DOT && token[b] == DOT
    ensures token == Dotted(Dotted(token[..a], token[a + 1..b]), token[b + 1..])
  {
    assert token[..a] + [DOT] == token[..a + 1];
    assert token[..a + 1] + token[a + 1..b] == token[..b];
    assert token[..b] + [DOT] == token[..b + 1];
  }

  /** A token is cut into parts exactly when it is made of dot-free ones. */
  lemma CutRejoins(token: seq<Byte>)
    ensures match Cut(token)
            case Some(parts) =>
              && DotFree(parts.header) && DotFree(parts.payload)
              && token == Dotted(Dotted(parts.header, parts.payload), parts.signature)
            case None =>
              forall i, j :: 0 <= i < j < |token| ==> token[i] != DOT || token[j] != DOT
  {
    FoundByte(token, DOT, 0);
    var first := Find(token, [DOT], 0);
    if first.Some? {
      FoundByte(token, DOT, first.value + 1);
      var second := Find(token, [DOT], first.value + 1);
      if second.Some? {
        DotsRejoin(token, first.value, second.value);
      }
    }
  }

  /** The token is header and payload, dot-free, and the encoded keyed hash of the two. */
  ghost predicate SignedAs(mac: Mac, secret: seq<Byte>, token: seq<Byte>, header: seq<Byte>, payload: seq<Byte>) {
    && DotFree(header) && DotFree(payload)
    && token == Dotted(Dotted(header, payload), Encode(BASE64URL, mac(secret, Dotted(header, payload))))
  }

  /** The payload, decoded and read up to a NUL, does not name an expiry that has passed. */
  predicate Unexpired(payload: seq<Byte>, beyond: seq<Byte>, now: int) {
    var expiry := Expiry(UpToNul(DecodeBuffer(BASE64URL, payload) + beyond));
    expiry.None? || now <= expiry.value
  }

  lemma SignedIsAccepted(mac: Mac, secret: seq<Byte>, token: seq<Byte>, beyond: seq<Byte>, now: int,
                         header: seq<Byte>, payload: seq<Byte>)
    requires SignedAs(mac, secret, token, header, payload)
    ensures Verify(mac, secret, token, beyond, now) ==
              if Unexpired(payload, beyond, now)
              then (true, Subject(UpToNul(DecodeBuffer(BASE64URL, payload) + beyond))) else (false, None)
  {
    SignedTokenJudged(mac, secret, header, payload, beyond, now);
  }

  lemma AcceptedIsSigned(mac: Mac, secret: seq<Byte>, token: seq<Byte>, beyond: seq<Byte>, now: int)
    returns (header: seq<Byte>, payload: seq<Byte>)
    requires Verify(mac, secret, token, beyond, now).0
    ensures SignedAs(mac, secret, token, header, payload)
  {
    CutRejoins(token);
    var parts := Cut(token).value;
    header, payload := parts.header, parts.payload;
  }

  /** Verifying accepts exactly the tokens signed with this secret whose payload has not expired; nothing is
    * read out of any other. */
  lemma VerifiedExactly(mac: Mac, secret: seq<Byte>, token: seq<Byte>, beyond: seq<Byte>, now: int)
    ensures Verify(mac, secret, token, beyond, now).0 <==>
            exists header, payload ::
              SignedAs(mac, secret, token, header, payload) && Unexpired(payload, beyond, now)
    ensures !Verify(mac, secret, token, beyond, now).0 ==> Verify(mac, secret, token, beyond, now).1.None?
  {
    if Verify(mac, secret, token, beyond, now).0 {
      var header, payload := AcceptedIsSigned(mac, secret, token, beyond, now);
      SignedIsAccepted(mac, secret, token, beyond, now, header, payload);
    }
    if header, payload :| SignedAs(mac, secret, token, header, payload) && Unexpired(payload, beyond, now) {
      SignedIsAccepted(mac, secret, token, beyond, now, header, payload);
    }
  }

  // ---- The texts themselves ----

  function Ascii(s: string): (r: seq<Byte>)
    requires forall k :: 0 <= k < |s| ==> s[k] < 128 as char
  {
    seq(|s|, k requires 0 <= k < |s| => s[k] as int)
  }

  lemma TextOfHeader()
    ensures HEADER == Ascii("{\"alg\":\"HS256\",\"typ\":\"JWT\"}")
  {
  }

  lemma TextsOfPayload()
    ensures [123] + SUB_KEY == Ascii("{\"sub\":\"") && IAT_PART == Ascii("\",\"iat\":")
    ensures [44] + EXP_KEY == Ascii(",\"exp\":") && [125] == Ascii("}")
  {
  }

  lemma Reassociate(a: seq<Byte>, u: seq<Byte>, b: seq<Byte>, i: seq<Byte>, x: seq<Byte>, c: seq<Byte>, e: seq<Byte>,
                    d: seq<Byte>)
    ensures (a + u + b) + (i + x + (c + e + d)) == a + u + b + i + (x + c) + e + d
  {
  }

  /** The header and the payload of a token, written out. */
  lemma TokenTexts(username: seq<Byte>, issued: int, expires: int)
    ensures HEADER == Ascii("{\"alg\":\"HS256\",\"typ\":\"JWT\"}")
    ensures Payload(username, issued, expires) ==
              Ascii("{\"sub\":\"") + username + Ascii("\",\"iat\":") + Decimal(issued)
            + Ascii(",\"exp\":") + Decimal(expires) + Ascii("}")
  {
    TextOfHeader();
    TextsOfPayload();
    Reassociate([123] + SUB_KEY, username, IAT_PART, Decimal(issued), [44], EXP_KEY, Decimal(expires), [125]);
  }

  /** A number is written with a sign exactly when it is negative, and without leading zeros. */
  lemma DecimalShape(n: int)
    ensures Decimal(n)[0] == 45 <==> n < 0
    ensures n >= 10 ==> Decimal(n)[0] != 48
  {
    if n >= 10 {
      NoLeadingZero(n);
    }
  }

  lemma {:induction false} NoLeadingZero(n: nat)
    requires n > 0
    ensures Digits(n)[0] != 48
  {
    if n >= 10 {
      NoLeadingZero(n / 10);
    }
  }

  /** A payload that does not fit its buffer of 256 bytes is signed as its first 255. */
  lemma PayloadCut(mac: Mac, secret: seq<Byte>, username: seq<Byte>, now: int, lifetime: int, kept: seq<Byte>)
    requires kept <= Payload(username, now, now + lifetime) && |kept| <= 255
    requires |kept| == 255 || kept == Payload(username, now, now + lifetime)
    ensures Generate(mac, secret, username, now, lifetime) == Sign(mac, secret, HEADER, kept)
  {
    assert CutTo(Payload(username, now, now + lifetime), PAYLOAD_LEN) == kept;
  }
}
