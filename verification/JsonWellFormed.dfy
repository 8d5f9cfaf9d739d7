/** What the two JSON decoders do to UTF-8: the translator's (src/translator.c) keeps every text well formed,
  * the API's (src/host/json_api.c) exactly those without a lone surrogate escape. */
module JsonWellFormed {
  import opened Bytes
  import opened Options
  import opened JsonStrings
  import Utf8

  // ---- Readers that treat whole characters alike ----

  /** An ASCII byte that is no backslash before a byte outside ASCII. */
  predicate AsciiAt(s: seq<Byte>, i: nat)
    requires i < |s|
  {
    s[i] < 0x80 && !(s[i] == BACKSLASH && i + 1 < |s| && s[i + 1] >= 0x80)
  }

  /** A reader of s that copies bytes outside ASCII, and refuses or drops a backslash before one. */
  ghost predicate CopiesWide(read: Reader, s: seq<Byte>) {
    forall i: nat {:trigger read(i)} | i < |s| && s[i] != QUOTE ::
      && (s[i] >= 0x80 ==> read(i) == Some(Item([s[i]], i + 1)))
      && (s[i] < 0x80 && !AsciiAt(s, i) && read(i).Some? ==> read(i) == Some(Item([s[i + 1]], i + 2)))
  }

  /** An item read from ASCII alone that stands for well-formed text. */
  ghost predicate AsciiItem(s: seq<Byte>, i: nat, item: Item) {
    && i < item.next <= |s|
    && Utf8.WellFormed(item.bytes)
    && forall k :: i <= k < item.next ==> s[k] < 0x80
  }

  lemma ScalarWellFormed(cp: nat)
    requires Utf8.IsScalar(cp)
    ensures Utf8.WellFormed(Utf8.Encode(cp))
  {
    Utf8.EncodingIsUnit(cp, []);
    assert Utf8.Encode(cp) + [] == Utf8.Encode(cp);
    assert Utf8.Encode(cp)[|Utf8.Encode(cp)|..] == [];
  }

  lemma HexIsAscii(s: seq<Byte>, i: nat)
    requires Hex4(s, i).Some?
    ensures forall k :: i <= k < i + 4 ==> s[k] < 0x80
  {
  }

  lemma {:induction false} RunPassesThrough(read: Reader, s: seq<Byte>, i: nat, next: nat)
    requires CopiesWide(read, s) && i <= next <= |s| && forall k :: i <= k < next ==> s[k] >= 0x80
    ensures Decode(read, s, i) == Prepend(s[i..next], Decode(read, s, next))
    decreases next - i
  {
    if i == next {
      assert s[i..next] == [];
      Nothing(Decode(read, s, i));
    } else {
      RunPassesThrough(read, s, i + 1, next);
      Regroup([s[i]], s[i + 1..next], Decode(read, s, next));
      assert [s[i]] + s[i + 1..next] == s[i..next];
    }
  }

  lemma AsciiUnit(t: seq<Byte>)
    requires t != [] && t[0] < 0x80 && Utf8.WellFormed(t)
    ensures Utf8.WellFormed(t[1..])
  {
    assert Utf8.UnitLength(t) == 1;
  }

  /** Skipping ASCII bytes of well-formed text leaves well-formed text. */
  lemma {:induction false} SkipAscii(s: seq<Byte>, i: nat, next: nat)
    requires i <= next <= |s| && Utf8.WellFormed(s[i..]) && forall k :: i <= k < next ==> s[k] < 0x80
    ensures Utf8.WellFormed(s[next..])
    decreases next - i
  {
    if i == next {
    } else {
      AsciiUnit(s[i..]);
      assert s[i..][1..] == s[i + 1..];
      SkipAscii(s, i + 1, next);
    }
  }

  /** A wide character at the front of well-formed text. */
  lemma WideCharacter(s: seq<Byte>, j: nat) returns (next: nat)
    requires j < |s| && Utf8.WellFormed(s[j..]) && s[j] >= 0x80
    ensures j < next <= |s|
    ensures Utf8.WellFormed(s[j..next]) && Utf8.WellFormed(s[next..])
    ensures forall k :: j <= k < next ==> s[k] >= 0x80
  {
    var rest := s[j..];
    var n := Utf8.UnitLength(rest);
    next := j + n;
    assert forall k :: j <= k < next ==> s[k] == rest[k - j] && s[j..next][k - j] == rest[k - j];
    assert rest[n..] == s[next..] && s[j..next][n..] == [];
  }

  /** Decoding from i starts with a well-formed chunk and goes on at next, at a character boundary. */
  ghost predicate Begins(read: Reader, s: seq<Byte>, i: nat, chunk: seq<Byte>, next: nat) {
    && i < next <= |s|
    && Utf8.WellFormed(s[next..])
    && Utf8.WellFormed(chunk)
    && Decode(read, s, i) == Prepend(chunk, Decode(read, s, next))
  }

  lemma AdvanceWide(read: Reader, s: seq<Byte>, j: nat) returns (chunk: seq<Byte>, next: nat)
    requires CopiesWide(read, s) && j < |s| && s[j] >= 0x80 && Utf8.WellFormed(s[j..])
    ensures Begins(read, s, j, chunk, next)
    ensures forall k :: j <= k < next ==> s[k] >= 0x80
  {
    next := WideCharacter(s, j);
    RunPassesThrough(read, s, j, next);
    chunk := s[j..next];
  }

  lemma AdvanceEscaped(read: Reader, s: seq<Byte>, i: nat) returns (chunk: seq<Byte>, next: nat)
    requires CopiesWide(read, s) && i + 1 < |s| && s[i] == BACKSLASH && s[i + 1] >= 0x80
    requires read(i).Some? && Utf8.WellFormed(s[i + 1..])
    ensures Begins(read, s, i, chunk, next)
  {
    chunk, next := AdvanceWide(read, s, i + 1);
    BackslashDropped(read, s, i);
  }

  /** A backslash before a byte outside ASCII, if it is not refused, is dropped. */
  lemma BackslashDropped(read: Reader, s: seq<Byte>, i: nat)
    requires CopiesWide(read, s) && i + 1 < |s| && s[i] == BACKSLASH && s[i + 1] >= 0x80 && read(i).Some?
    ensures Decode(read, s, i) == Decode(read, s, i + 1)
  {
  }

  lemma AdvanceAscii(read: Reader, s: seq<Byte>, i: nat, item: Item)
    requires i < |s| && s[i] != QUOTE && read(i) == Some(item) && AsciiItem(s, i, item) && Utf8.WellFormed(s[i..])
    ensures Begins(read, s, i, item.bytes, item.next)
  {
    SkipAscii(s, i, item.next);
    DecodeItem(read, s, i, item);
  }

  lemma DecodeItem(read: Reader, s: seq<Byte>, i: nat, item: Item)
    requires i < |s| && s[i] != QUOTE && read(i) == Some(item) && i < item.next <= |s|
    ensures Decode(read, s, i) == Prepend(item.bytes, Decode(read, s, item.next))
  {
  }

  // ---- The translator keeps text well formed ----

  /** A reader of s that also turns ASCII into well-formed text only. */
  ghost predicate KeepsText(read: Reader, s: seq<Byte>) {
    && CopiesWide(read, s)
    && forall i: nat {:trigger read(i)} | i < |s| && s[i] != QUOTE && AsciiAt(s, i) ::
         read(i).Some? ==> AsciiItem(s, i, read(i).value)
  }

  lemma UnicodeItemWellFormed(s: seq<Byte>, i: nat)
    requires UnicodeItem(Translator, s, i).Some?
    ensures var item := UnicodeItem(Translator, s, i).value;
            Utf8.WellFormed(item.bytes) && forall k :: i <= k < item.next ==> s[k] < 0x80
  {
    var v := Hex4(s, i).value;
    HexIsAscii(s, i);
    ScalarWellFormed(0xFFFD);
    if IsHigh(v) && At(s, i + 4) == BACKSLASH && At(s, i + 5) == LETTER_U {
      var second := Hex4(s, i + 6);
      HexIsAscii(s, i + 6);
      if IsLow(second.value) {
        ScalarWellFormed(FromPair(v, second.value));
      }
    } else if !IsHigh(v) && !IsLow(v) {
      ScalarWellFormed(v);
    }
  }

  lemma AsciiRead(s: seq<Byte>, i: nat)
    requires i < |s| && AsciiAt(s, i) && NextItem(Translator, s, i).Some?
    ensures AsciiItem(s, i, NextItem(Translator, s, i).value)
  {
    if s[i] == BACKSLASH && s[i + 1] == LETTER_U {
      UnicodeItemWellFormed(s, i + 2);
    } else {
      assert NextItem(Translator, s, i).value.bytes[1..] == [];
    }
  }

  lemma TranslatorKeepsText(s: seq<Byte>)
    ensures KeepsText(Reading(Translator, s), s)
  {
    var read := Reading(Translator, s);
    forall i: nat | i < |s| && AsciiAt(s, i) && read(i).Some?
      ensures AsciiItem(s, i, read(i).value)
    {
      AsciiRead(s, i);
    }
  }

  /** One character further. */
  lemma Advance(read: Reader, s: seq<Byte>, i: nat) returns (chunk: seq<Byte>, next: nat)
    requires KeepsText(read, s) && i < |s| && s[i] != QUOTE && read(i).Some? && Utf8.WellFormed(s[i..])
    ensures Begins(read, s, i, chunk, next)
  {
    if s[i] >= 0x80 {
      chunk, next := AdvanceWide(read, s, i);
    } else if AsciiAt(s, i) {
      chunk, next := read(i).value.bytes, read(i).value.next;
      AdvanceAscii(read, s, i, read(i).value);
    } else {
      SkipAscii(s, i, i + 1);
      chunk, next := AdvanceEscaped(read, s, i);
    }
  }

  lemma {:induction false} ReadingKeepsWellFormed(read: Reader, s: seq<Byte>, i: nat)
    requires KeepsText(read, s) && i <= |s| && Utf8.WellFormed(s[i..]) && Decode(read, s, i).Some?
    ensures Utf8.WellFormed(Decode(read, s, i).value.bytes)
    decreases |s| - i
  {
    if s[i] == QUOTE {
    } else {
      var chunk, next := Advance(read, s, i);
      ReadingKeepsWellFormed(read, s, next);
      Utf8.WellFormedConcat(chunk, Decode(read, s, next).value.bytes);
    }
  }

  /** Well-formed UTF-8 in, well-formed UTF-8 out, surrogate escapes of every kind included. */
  lemma DecodeKeepsWellFormed(s: seq<Byte>)
    requires Utf8.IsEncoding(s) && Decode(Reading(Translator, s), s, 0).Some?
    ensures Utf8.IsEncoding(Decode(Reading(Translator, s), s, 0).value.bytes)
  {
    TranslatorKeepsText(s);
    Utf8.WellFormedIsEncoding(s);
    assert s[0..] == s;
    ReadingKeepsWellFormed(Reading(Translator, s), s, 0);
    Utf8.WellFormedIsEncoding(Decode(Reading(Translator, s), s, 0).value.bytes);
  }

  // ---- The API passes lone surrogates through ----

  /** An escape of a low surrogate stands at offset j. */
  predicate LowEscapeAt(s: seq<Byte>, j: nat) {
    At(s, j) == BACKSLASH && At(s, j + 1) == LETTER_U && Hex4(s, j + 2).Some? && IsLow(Hex4(s, j + 2).value)
  }

  /** At offset i stands the escape of a surrogate that is not one half of a pair. */
  predicate LoneAt(s: seq<Byte>, i: nat) {
    && At(s, i) == BACKSLASH && At(s, i + 1) == LETTER_U && Hex4(s, i + 2).Some?
    && var v := Hex4(s, i + 2).value;
       IsLow(v) || (IsHigh(v) && !LowEscapeAt(s, i + 6))
  }

  /** The decoder meets such an escape on its way from offset i to the closing quote. */
  predicate MeetsLone(read: Reader, s: seq<Byte>, i: nat)
    decreases |s| - i
  {
    i < |s| && s[i] != QUOTE &&
    (LoneAt(s, i) ||
     (read(i).Some? && i < read(i).value.next <= |s| && MeetsLone(read, s, read(i).value.next)))
  }

  /** Bytes no well-formed text starts with: a three-byte form of a surrogate. */
  predicate Surrogate(bytes: seq<Byte>) {
    |bytes| >= 3 && bytes[0] == 0xED && bytes[1] >= 0xA0
  }

  lemma SurrogateIllFormed(bytes: seq<Byte>, rest: seq<Byte>)
    requires Surrogate(bytes)
    ensures !Utf8.WellFormed(bytes + rest)
  {
    assert (bytes + rest)[0] == 0xED && (bytes + rest)[1] >= 0xA0;
    assert Utf8.UnitLength(bytes + rest) == 0;
  }

  lemma EncodedSurrogate(v: nat)
    requires IsHigh(v) || IsLow(v)
    ensures Surrogate(Utf8.Encode(v))
  {
  }

  /** A reader that copies wide bytes, refuses a backslash before one, and turns ASCII into well-formed text
    * except for lone surrogates, which it passes through. */
  ghost predicate PassesLone(read: Reader, s: seq<Byte>) {
    && CopiesWide(read, s)
    && forall i: nat {:trigger read(i)} | i < |s| && s[i] != QUOTE && s[i] < 0x80 && read(i).Some? ::
         if LoneAt(s, i) then i < read(i).value.next <= |s| && Surrogate(read(i).value.bytes)
         else AsciiItem(s, i, read(i).value)
  }

  /** What the API makes of the escape of a lone surrogate, of a pair, and of a scalar value. */
  lemma UnicodeItemLone(s: seq<Byte>, i: nat)
    requires UnicodeItem(Api, s, i + 2).Some? && LoneAt(s, i)
    ensures Surrogate(UnicodeItem(Api, s, i + 2).value.bytes)
  {
    EncodedSurrogate(Hex4(s, i + 2).value);
  }

  lemma UnicodeItemPair(s: seq<Byte>, i: nat)
    requires Hex4(s, i + 2).Some? && IsHigh(Hex4(s, i + 2).value) && LowEscapeAt(s, i + 6)
    ensures UnicodeItem(Api, s, i + 2).Some?
    ensures var item := UnicodeItem(Api, s, i + 2).value;
            Utf8.WellFormed(item.bytes) && forall k :: i + 2 <= k < item.next ==> s[k] < 0x80
  {
    HexIsAscii(s, i + 2);
    HexIsAscii(s, i + 8);
    ScalarWellFormed(FromPair(Hex4(s, i + 2).value, Hex4(s, i + 8).value));
  }

  lemma UnicodeItemScalar(s: seq<Byte>, i: nat)
    requires UnicodeItem(Api, s, i + 2).Some? && Utf8.IsScalar(Hex4(s, i + 2).value)
    ensures var item := UnicodeItem(Api, s, i + 2).value;
            Utf8.WellFormed(item.bytes) && forall k :: i + 2 <= k < item.next ==> s[k] < 0x80
  {
    HexIsAscii(s, i + 2);
    ScalarWellFormed(Hex4(s, i + 2).value);
  }

  lemma UnicodeItemApi(s: seq<Byte>, i: nat)
    requires UnicodeItem(Api, s, i + 2).Some? && At(s, i) == BACKSLASH && At(s, i + 1) == LETTER_U
    ensures var item := UnicodeItem(Api, s, i + 2).value;
            if LoneAt(s, i) then Surrogate(item.bytes)
            else Utf8.WellFormed(item.bytes) && forall k :: i + 2 <= k < item.next ==> s[k] < 0x80
  {
    if LoneAt(s, i) {
      UnicodeItemLone(s, i);
    } else if IsHigh(Hex4(s, i + 2).value) {
      UnicodeItemPair(s, i);
    } else {
      UnicodeItemScalar(s, i);
    }
  }

  lemma ApiRead(s: seq<Byte>, i: nat)
    requires i < |s| && s[i] < 0x80 && NextItem(Api, s, i).Some?
    ensures var item := NextItem(Api, s, i).value;
            if LoneAt(s, i) then i < item.next <= |s| && Surrogate(item.bytes) else AsciiItem(s, i, item)
  {
    if s[i] == BACKSLASH && s[i + 1] == LETTER_U {
      UnicodeItemApi(s, i);
    } else {
      assert NextItem(Api, s, i).value.bytes[1..] == [];
    }
  }

  lemma ApiPassesLone(s: seq<Byte>)
    ensures PassesLone(Reading(Api, s), s)
  {
    var read := Reading(Api, s);
    forall i: nat | i < |s| && s[i] < 0x80 && read(i).Some?
      ensures if LoneAt(s, i) then i < read(i).value.next <= |s| && Surrogate(read(i).value.bytes)
              else AsciiItem(s, i, read(i).value)
    {
      ApiRead(s, i);
    }
  }

  /** A run of wide bytes holds no escape. */
  lemma {:induction false} RunMeetsNone(read: Reader, s: seq<Byte>, i: nat, next: nat)
    requires CopiesWide(read, s) && i <= next <= |s| && forall k :: i <= k < next ==> s[k] >= 0x80
    ensures MeetsLone(read, s, i) <==> MeetsLone(read, s, next)
    decreases next - i
  {
    if i == next {
    } else {
      RunMeetsNone(read, s, i + 1, next);
    }
  }

  lemma ChunkIsNeutral(chunk: seq<Byte>, rest: seq<Byte>)
    requires Utf8.WellFormed(chunk)
    ensures Utf8.WellFormed(chunk + rest) <==> Utf8.WellFormed(rest)
  {
    if Utf8.WellFormed(rest) {
      Utf8.WellFormedConcat(chunk, rest);
    }
    if Utf8.WellFormed(chunk + rest) {
      Utf8.WellFormedSplit(chunk, rest);
    }
  }

  /** One character further, if no lone surrogate stands here. */
  lemma AdvanceApi(read: Reader, s: seq<Byte>, i: nat) returns (chunk: seq<Byte>, next: nat)
    requires PassesLone(read, s) && i < |s| && s[i] != QUOTE && read(i).Some? && Utf8.WellFormed(s[i..])
    requires !LoneAt(s, i)
    ensures Begins(read, s, i, chunk, next) && (MeetsLone(read, s, i) <==> MeetsLone(read, s, next))
  {
    if s[i] >= 0x80 {
      chunk, next := AdvanceWide(read, s, i);
      RunMeetsNone(read, s, i, next);
    } else {
      chunk, next := read(i).value.bytes, read(i).value.next;
      AdvanceAscii(read, s, i, read(i).value);
    }
  }

  lemma LoneSpoils(read: Reader, s: seq<Byte>, i: nat)
    requires PassesLone(read, s) && i < |s| && s[i] != QUOTE && LoneAt(s, i) && Decode(read, s, i).Some?
    ensures !Utf8.WellFormed(Decode(read, s, i).value.bytes)
  {
    var item := read(i).value;
    DecodeItem(read, s, i, item);
    SurrogateIllFormed(item.bytes, Decode(read, s, item.next).value.bytes);
  }

  lemma {:induction false} WellFormedUnlessLone(read: Reader, s: seq<Byte>, i: nat)
    requires PassesLone(read, s) && i <= |s| && Utf8.WellFormed(s[i..]) && Decode(read, s, i).Some?
    ensures Utf8.WellFormed(Decode(read, s, i).value.bytes) <==> !MeetsLone(read, s, i)
    decreases |s| - i
  {
    if s[i] == QUOTE {
    } else if LoneAt(s, i) {
      LoneSpoils(read, s, i);
    } else {
      var chunk, next := AdvanceApi(read, s, i);
      WellFormedUnlessLone(read, s, next);
      ChunkIsNeutral(chunk, Decode(read, s, next).value.bytes);
    }
  }

  /** The exact condition for the API: of a well-formed request the decoded literal is well formed if and only
    * if the literal holds no lone surrogate escape. */
  lemma ApiWellFormedExactly(input: seq<Byte>)
    requires Utf8.IsEncoding(input) && At(input, 0) == QUOTE && Decode(Reading(Api, input), input, 1).Some?
    ensures Utf8.IsEncoding(Decode(Reading(Api, input), input, 1).value.bytes) <==>
            !MeetsLone(Reading(Api, input), input, 1)
  {
    ApiPassesLone(input);
    Utf8.WellFormedIsEncoding(input);
    AsciiUnit(input);
    WellFormedUnlessLone(Reading(Api, input), input, 1);
    Utf8.WellFormedIsEncoding(Decode(Reading(Api, input), input, 1).value.bytes);
  }
}
