/** Terminal escape sequences are swapped for tokens before a message is translated and swapped back
  * afterwards (src/translation_helpers.c). */
module AnsiPlaceholders {
  import opened Bytes
  import opened Options

  const ESC: Byte := 0x1B
  const MAX_PLACEHOLDERS := 32
  const SEQUENCE_LEN := 64

  /** The token "[[ANSIk]]". */
  function Token(k: nat): (t: seq<Byte>)
    requires k < MAX_PLACEHOLDERS
    ensures 9 <= |t| <= 10
    ensures t[..6] == [91, 91, 65, 78, 83, 73]
    ensures forall j :: 2 <= j < |t| ==> t[j] != 91 && t[j] != ESC
  {
    [91, 91, 65, 78, 83, 73] + (if k < 10 then [48 + k] else [48 + k / 10, 48 + k % 10]) + [93, 93]
  }

  /** A sanitized text and the sequences its tokens stand for, in order of their numbers. */
  datatype Prepared = Prepared(text: seq<Byte>, sequences: seq<seq<Byte>>)

  /** Offset after the parameters and the final byte of a control sequence scanned up to j. */
  function FinalByte(m: seq<Byte>, j: nat): (end: nat)
    requires j <= |m|
    ensures j <= end <= |m|
    decreases |m| - j
  {
    if j == |m| then j else if 64 <= m[j] <= 126 then j + 1 else FinalByte(m, j + 1)
  }

  /** Offset after the escape sequence that starts at offset i. */
  function SequenceEnd(m: seq<Byte>, i: nat): (end: nat)
    requires i < |m|
    ensures i < end <= |m|
  {
    if At(m, i + 1) == 91 then FinalByte(m, i + 2)
    else if i + 1 < |m| then i + 2
    else i + 1
  }

  /** What preparing the message from offset i adds, with the next token number given; None when a
    * limit on the number or the length of sequences is hit. */
  function PrepareFrom(m: seq<Byte>, i: nat, stored: nat): (r: Option<Prepared>)
    requires i <= |m|
    ensures r.Some? ==> stored + |r.value.sequences| <= MAX_PLACEHOLDERS || r.value.sequences == []
    decreases |m| - i
  {
    if i == |m| then Some(Prepared([], []))
    else if m[i] == ESC then
      var end := SequenceEnd(m, i);
      if stored >= MAX_PLACEHOLDERS || end - i >= SEQUENCE_LEN then None
      else Join(Token(stored), [m[i..end]], PrepareFrom(m, end, stored + 1))
    else Join([m[i]], [], PrepareFrom(m, i + 1, stored))
  }

  function Join(text: seq<Byte>, sequences: seq<seq<Byte>>, rest: Option<Prepared>): (r: Option<Prepared>) {
    if rest.None? then None else Some(Prepared(text + rest.value.text, sequences + rest.value.sequences))
  }

  predicate StartsWithToken(t: seq<Byte>, k: nat)
    requires k < MAX_PLACEHOLDERS
  {
    Token(k) <= t
  }

  /** The number of the token below count that t starts with; count when there is none. */
  ghost function TokenAt(t: seq<Byte>, count: nat): (k: nat)
    requires count <= MAX_PLACEHOLDERS
    ensures k <= count
    ensures k < count ==> StartsWithToken(t, k)
    ensures k == count ==> forall j :: 0 <= j < count ==> !StartsWithToken(t, j)
  {
    if exists k :: 0 <= k < count && StartsWithToken(t, k) then
      var k :| 0 <= k < count && StartsWithToken(t, k); k
    else count
  }

  ghost function Restore(t: seq<Byte>, sequences: seq<seq<Byte>>): (r: seq<Byte>)
    requires |sequences| <= MAX_PLACEHOLDERS
  {
    if t == [] then []
    else
      var k := TokenAt(t, |sequences|);
      if k < |sequences| then sequences[k] + Restore(t[|Token(k)|..], sequences)
      else [t[0]] + Restore(t[1..], sequences)
  }

  // ---- The loops ----

  /** The inner scan over one escape sequence. */
  method ScanSequence(m: seq<Byte>, start: nat) returns (end: nat)
    requires start < |m|
    ensures end == SequenceEnd(m, start)
  {
    end := start + 1;
    if end < |m| && m[end] == 91 {
      end := end + 1;
      while end < |m|
        invariant start + 2 <= end <= |m|
        invariant FinalByte(m, start + 2) == FinalByte(m, end)
      {
        var ch := m[end];
        end := end + 1;
        if 64 <= ch <= 126 {
          return;
        }
      }
    } else if end < |m| {
      end := end + 1;
    }
  }

  /** translation_prepare_text: fails when a limit is hit or the sanitized text does not fit. */
  method PrepareText(m: seq<Byte>, sanitizedLen: nat) returns (r: Option<Prepared>)
    ensures var p := PrepareFrom(m, 0, 0);
            r == if p.Some? && |p.value.text| < sanitizedLen then p else None
  {
    if sanitizedLen == 0 {
      return None;
    }
    var i, text, sequences := 0, [], [];
    Nothing(PrepareFrom(m, 0, 0));
    while i < |m|
      invariant i <= |m| && |text| < sanitizedLen && |sequences| <= MAX_PLACEHOLDERS
      invariant PrepareFrom(m, 0, 0) == Join(text, sequences, PrepareFrom(m, i, |sequences|))
      decreases |m| - i
    {
      if m[i] == ESC {
        if |sequences| >= MAX_PLACEHOLDERS {
          return None;
        }
        var end := ScanSequence(m, i);
        if end - i >= SEQUENCE_LEN || |text| + |Token(|sequences|)| >= sanitizedLen {
          return None;
        }
        Regroup(text, Token(|sequences|), sequences, [m[i..end]], PrepareFrom(m, end, |sequences| + 1));
        text, sequences, i := text + Token(|sequences|), sequences + [m[i..end]], end;
      } else {
        if |text| + 1 >= sanitizedLen {
          return None;
        }
        Regroup(text, [m[i]], sequences, [], PrepareFrom(m, i + 1, |sequences|));
        assert sequences + [] == sequences;
        text, i := text + [m[i]], i + 1;
      }
    }
    assert text + [] == text && sequences + [] == sequences;
    return Some(Prepared(text, sequences));
  }

  lemma Nothing(rest: Option<Prepared>)
    ensures Join([], [], rest) == rest
  {
    if rest.Some? {
      assert [] + rest.value.text == rest.value.text && [] + rest.value.sequences == rest.value.sequences;
    }
  }

  lemma Regroup(a: seq<Byte>, b: seq<Byte>, c: seq<seq<Byte>>, d: seq<seq<Byte>>, rest: Option<Prepared>)
    ensures Join(a, c, Join(b, d, rest)) == Join(a + b, c + d, rest)
  {
    if rest.Some? {
      assert a + (b + rest.value.text) == (a + b) + rest.value.text;
      assert c + (d + rest.value.sequences) == (c + d) + rest.value.sequences;
    }
  }

  /** translation_restore_text: fails exactly when the restored text does not fit. */
  method RestoreText(t: seq<Byte>, outputLen: nat, sequences: seq<seq<Byte>>) returns (r: Option<seq<Byte>>)
    requires |sequences| <= MAX_PLACEHOLDERS
    ensures var text := Restore(t, sequences);
            r == if |text| < outputLen then Some(text) else None
  {
    if outputLen == 0 {
      return None;
    }
    var i, output := 0, [];
    assert t[0..] == t && output + Restore(t, sequences) == Restore(t, sequences);
    while i < |t|
      invariant i <= |t| && |output| < outputLen
      invariant Restore(t, sequences) == output + Restore(t[i..], sequences)
      decreases |t| - i
    {
      var piece, next := NextPiece(t, i, sequences);
      if |output| + |piece| >= outputLen {
        return None;
      }
      Associate(output, piece, Restore(t[next..], sequences));
      output, i := output + piece, next;
    }
    assert output + [] == output;
    return Some(output);
  }

  /** The sequence standing for the token at offset i, or the byte there. */
  method NextPiece(t: seq<Byte>, i: nat, sequences: seq<seq<Byte>>) returns (piece: seq<Byte>, next: nat)
    requires i < |t| && |sequences| <= MAX_PLACEHOLDERS
    ensures i < next <= |t| && Restore(t[i..], sequences) == piece + Restore(t[next..], sequences)
  {
    var k := FindToken(t[i..], |sequences|);
    if k < |sequences| {
      piece, next := sequences[k], i + |Token(k)|;
    } else {
      piece, next := [t[i]], i + 1;
    }
    assert t[i..][next - i..] == t[next..];
  }

  /** The inner loop over the tokens; at most one can match, so the first match is the match. */
  method FindToken(t: seq<Byte>, count: nat) returns (k: nat)
    requires count <= MAX_PLACEHOLDERS
    ensures k == TokenAt(t, count)
  {
    k := 0;
    while k < count && !StartsWithToken(t, k)
      invariant 0 <= k <= count
      invariant forall j :: 0 <= j < k ==> !StartsWithToken(t, j)
    {
      k := k + 1;
    }
    if k < count {
      TokensPrefixFree(t, k, TokenAt(t, count));
    }
  }

  // ---- Restoring undoes preparing ----

  /** Tokens are prefix-free: no text starts with two different ones. */
  lemma TokensPrefixFree(t: seq<Byte>, j: nat, k: nat)
    requires j < MAX_PLACEHOLDERS && k < MAX_PLACEHOLDERS && StartsWithToken(t, j) && StartsWithToken(t, k)
    ensures j == k
  {
    var (a, b) := (Token(j), Token(k));
    assert a[6] == t[6] == b[6] && a[7] == t[7] == b[7];
  }

  /** Scanning the message as prepare does, no plain byte is the start of a literal token numbered
    * below count. */
  ghost predicate Clean(m: seq<Byte>, i: nat, count: nat)
    requires i <= |m| && count <= MAX_PLACEHOLDERS
    decreases |m| - i
  {
    if i == |m| then true
    else if m[i] == ESC then Clean(m, SequenceEnd(m, i), count)
    else TokenAt(m[i..], count) == count && Clean(m, i + 1, count)
  }

  /** Distance from i to the next escape sequence, or to the end. */
  function PlainRun(m: seq<Byte>, i: nat): (d: nat)
    requires i <= |m|
    ensures i + d <= |m| && (i + d < |m| ==> m[i + d] == ESC)
    ensures forall j :: i <= j < i + d ==> m[j] != ESC
    decreases |m| - i
  {
    if i == |m| || m[i] == ESC then 0 else 1 + PlainRun(m, i + 1)
  }

  /** Plain bytes are copied; the sanitized text then ends or goes on with a token. */
  lemma {:induction false} PlainRunCopied(m: seq<Byte>, i: nat, stored: nat)
    requires i <= |m| && PrepareFrom(m, i, stored).Some?
    ensures var (t, d) := (PrepareFrom(m, i, stored).value.text, PlainRun(m, i));
            && d <= |t| && t[..d] == m[i..i + d]
            && (|t| > d ==> stored < MAX_PLACEHOLDERS && Token(stored) <= t[d..])
    decreases |m| - i
  {
    if i >= |m| || m[i] == ESC {
    } else {
      PlainRunCopied(m, i + 1, stored);
      OneMore(m[i], PrepareFrom(m, i + 1, stored).value.text, m, i, PlainRun(m, i));
    }
  }

  lemma OneMore(b: Byte, rest: seq<Byte>, m: seq<Byte>, i: nat, d: nat)
    requires 1 <= d <= |rest| + 1 && i + d <= |m| && b == m[i] && rest[..d - 1] == m[i + 1..i + d]
    ensures ([b] + rest)[..d] == m[i..i + d] && ([b] + rest)[d..] == rest[d - 1..]
  {
  }

  /** No token straddles the border between plain text and a token: at a plain byte, the sanitized
    * text starts with exactly the literal tokens the message itself starts with there. */
  lemma NoStraddling(m: seq<Byte>, i: nat, stored: nat, k: nat)
    requires i < |m| && m[i] != ESC && PrepareFrom(m, i, stored).Some? && k < MAX_PLACEHOLDERS
    ensures StartsWithToken(PrepareFrom(m, i, stored).value.text, k) <==> StartsWithToken(m[i..], k)
  {
    var (t, d) := (PrepareFrom(m, i, stored).value.text, PlainRun(m, i));
    PlainRunCopied(m, i, stored);
    Straddling(t, m[i..], d, k, stored);
  }

  lemma TokenBytes(k: nat)
    requires k < MAX_PLACEHOLDERS
    ensures Token(k)[0] == 91 && Token(k)[1] == 91
  {
  }

  lemma Straddling(t: seq<Byte>, rest: seq<Byte>, d: nat, k: nat, stored: nat)
    requires 1 <= d <= |t| && d <= |rest| && t[..d] == rest[..d] && k < MAX_PLACEHOLDERS
    requires |t| > d ==> stored < MAX_PLACEHOLDERS && Token(stored) <= t[d..]
    requires |rest| > d ==> rest[d] == ESC
    ensures StartsWithToken(t, k) <==> StartsWithToken(rest, k)
  {
    var token := Token(k);
    TokenBytes(k);
    if |token| <= d {
      assert t[..|token|] == t[..d][..|token|] && rest[..|token|] == rest[..d][..|token|];
    } else {
      if |t| > d {
        TokenBytes(stored);
        assert t[d] == t[d..][0] == 91 && t[d + 1] == t[d..][1] == 91;
        assert token[d] != t[d] || token[d + 1] != t[d + 1];
      }
      if |rest| > d {
        assert token[d] != rest[d];
      }
    }
  }

  /** The sanitized text holds no escape byte. */
  lemma {:induction false} SanitizedHasNoEscape(m: seq<Byte>, i: nat, stored: nat)
    requires i <= |m| && PrepareFrom(m, i, stored).Some?
    ensures ESC !in PrepareFrom(m, i, stored).value.text
    decreases |m| - i
  {
    if i >= |m| {
    } else {
      if m[i] == ESC {
        SanitizedHasNoEscape(m, SequenceEnd(m, i), stored + 1);
        var token := Token(stored);
        assert token[..6][0] != ESC && token[..6][1] != ESC;
      } else {
        SanitizedHasNoEscape(m, i + 1, stored);
      }
    }
  }

  /** From any point of the scan on: restoring gives the message back exactly when the rest is clean. */
  lemma {:induction false} RestoreExactFrom(m: seq<Byte>, i: nat, all: seq<seq<Byte>>, stored: nat)
    requires i <= |m| && PrepareFrom(m, i, stored).Some?
    requires |all| <= MAX_PLACEHOLDERS && stored <= |all| && all[stored..] == PrepareFrom(m, i, stored).value.sequences
    requires forall k :: 0 <= k < |all| ==> all[k] != [] && all[k][0] == ESC
    ensures Restore(PrepareFrom(m, i, stored).value.text, all) == m[i..] <==> Clean(m, i, |all|)
    decreases |m| - i
  {
    if i >= |m| {
    } else {
      if m[i] == ESC {
        assert all[stored + 1..] == all[stored..][1..];
        RestoreExactFrom(m, SequenceEnd(m, i), all, stored + 1);
        RestoreEscape(m, i, all, stored);
      } else {
        RestoreExactFrom(m, i + 1, all, stored);
        RestorePlain(m, i, all, stored);
      }
    }
  }

  lemma RestoreEscape(m: seq<Byte>, i: nat, all: seq<seq<Byte>>, stored: nat)
    requires i < |m| && m[i] == ESC && PrepareFrom(m, i, stored).Some? && stored < |all| <= MAX_PLACEHOLDERS
    requires all[stored] == m[i..SequenceEnd(m, i)]
    requires var end := SequenceEnd(m, i);
             Restore(PrepareFrom(m, end, stored + 1).value.text, all) == m[end..] <==> Clean(m, end, |all|)
    ensures Restore(PrepareFrom(m, i, stored).value.text, all) == m[i..] <==> Clean(m, i, |all|)
  {
    var end := SequenceEnd(m, i);
    var text, tail := PrepareAtEscape(m, i, stored);
    TokenCase(text, tail, all, stored, m[i..], m[end..]);
    CleanAtEscape(m, i, |all|);
  }

  /** The text of a message that goes on with an escape sequence, and the text behind it. */
  lemma PrepareAtEscape(m: seq<Byte>, i: nat, stored: nat) returns (text: seq<Byte>, tail: seq<Byte>)
    requires i < |m| && m[i] == ESC && PrepareFrom(m, i, stored).Some?
    ensures stored < MAX_PLACEHOLDERS && PrepareFrom(m, SequenceEnd(m, i), stored + 1).Some?
    ensures text == PrepareFrom(m, i, stored).value.text
    ensures tail == PrepareFrom(m, SequenceEnd(m, i), stored + 1).value.text && text == Token(stored) + tail
  {
    text, tail := PrepareFrom(m, i, stored).value.text, PrepareFrom(m, SequenceEnd(m, i), stored + 1).value.text;
  }

  lemma CleanAtEscape(m: seq<Byte>, i: nat, count: nat)
    requires i < |m| && m[i] == ESC && count <= MAX_PLACEHOLDERS
    ensures Clean(m, i, count) <==> Clean(m, SequenceEnd(m, i), count)
  {
  }

  lemma TokenCase(text: seq<Byte>, tail: seq<Byte>, all: seq<seq<Byte>>, k: nat, whole: seq<Byte>, rest: seq<Byte>)
    requires k < |all| <= MAX_PLACEHOLDERS && text == Token(k) + tail && whole == all[k] + rest
    ensures Restore(text, all) == whole <==> Restore(tail, all) == rest
  {
    RestoreToken(tail, all, k);
    SamePrefix(all[k], Restore(tail, all), rest);
  }

  lemma SamePrefix(a: seq<Byte>, b: seq<Byte>, c: seq<Byte>)
    ensures a + b == a + c <==> b == c
  {
    assert (a + b)[|a|..] == b && (a + c)[|a|..] == c;
  }

  lemma RestoreToken(rest: seq<Byte>, all: seq<seq<Byte>>, k: nat)
    requires k < |all| <= MAX_PLACEHOLDERS
    ensures Restore(Token(k) + rest, all) == all[k] + Restore(rest, all)
  {
    var t := Token(k) + rest;
    assert StartsWithToken(t, k);
    TokensPrefixFree(t, TokenAt(t, |all|), k);
    assert t[|Token(k)|..] == rest;
  }

  lemma RestorePlain(m: seq<Byte>, i: nat, all: seq<seq<Byte>>, stored: nat)
    requires i < |m| && m[i] != ESC && PrepareFrom(m, i, stored).Some? && |all| <= MAX_PLACEHOLDERS
    requires forall k :: 0 <= k < |all| ==> all[k] != [] && all[k][0] == ESC
    requires Restore(PrepareFrom(m, i + 1, stored).value.text, all) == m[i + 1..] <==> Clean(m, i + 1, |all|)
    ensures Restore(PrepareFrom(m, i, stored).value.text, all) == m[i..] <==> Clean(m, i, |all|)
  {
    var t := PrepareFrom(m, i, stored).value.text;
    var rest := PrepareFrom(m, i + 1, stored).value.text;
    assert t[1..] == rest && t[0] == m[i];
    var k := TokenAt(t, |all|);
    var literal := TokenAt(m[i..], |all|);
    if k < |all| {
      NoStraddling(m, i, stored, k);
      assert literal < |all|;
      assert Restore(t, all)[0] == ESC != m[i..][0];
    } else {
      if literal < |all| {
        NoStraddling(m, i, stored, literal);
      }
      assert Restore(t, all) == [m[i]] + Restore(rest, all);
      assert m[i..] == [m[i]] + m[i + 1..];
      SamePrefix([m[i]], Restore(rest, all), m[i + 1..]);
    }
  }

  lemma {:induction false} SequencesStartWithEscape(m: seq<Byte>, i: nat, stored: nat)
    requires i <= |m| && PrepareFrom(m, i, stored).Some?
    ensures forall s :: s in PrepareFrom(m, i, stored).value.sequences ==> s != [] && s[0] == ESC
    decreases |m| - i
  {
    if i >= |m| {
    } else {
      if m[i] == ESC {
        SequencesStartWithEscape(m, SequenceEnd(m, i), stored + 1);
      } else {
        SequencesStartWithEscape(m, i + 1, stored);
      }
    }
  }

  /** Restoring a prepared message gives it back if and only if its plain text holds no literal token
    * with the number of one of its own escape sequences. */
  lemma RestoreUndoesPrepareExactly(m: seq<Byte>)
    requires PrepareFrom(m, 0, 0).Some?
    ensures var p := PrepareFrom(m, 0, 0).value;
            && |p.sequences| <= MAX_PLACEHOLDERS
            && ESC !in p.text
            && (Restore(p.text, p.sequences) == m <==> Clean(m, 0, |p.sequences|))
  {
    var p := PrepareFrom(m, 0, 0).value;
    SequencesStartWithEscape(m, 0, 0);
    SanitizedHasNoEscape(m, 0, 0);
    assert p.sequences[0..] == p.sequences && m[0..] == m;
    assert forall k :: 0 <= k < |p.sequences| ==> p.sequences[k] in p.sequences;
    RestoreExactFrom(m, 0, p.sequences, 0);
  }

  // ---- A message that is not restored ----

  lemma {:induction false} PlainBytesStoreNothing(m: seq<Byte>, i: nat, j: nat, stored: nat)
    requires i <= j <= |m| && PrepareFrom(m, j, stored).Some? && forall k :: i <= k < j ==> m[k] != ESC
    ensures PrepareFrom(m, i, stored).Some?
    ensures PrepareFrom(m, i, stored).value.sequences == PrepareFrom(m, j, stored).value.sequences
    decreases j - i
  {
    if i == j {
    } else {
      PlainBytesStoreNothing(m, i + 1, j, stored);
    }
  }

  /** A message that starts with the literal token of one of its own sequences is not restored. */
  lemma LeadingTokenLost(m: seq<Byte>, k: nat)
    requires PrepareFrom(m, 0, 0).Some? && k < |PrepareFrom(m, 0, 0).value.sequences|
    requires k < MAX_PLACEHOLDERS && StartsWithToken(m, k)
    ensures var p := PrepareFrom(m, 0, 0).value;
            |p.sequences| <= MAX_PLACEHOLDERS && Restore(p.text, p.sequences) != m
  {
    RestoreUndoesPrepareExactly(m);
    assert m[0] == Token(k)[0] && m[0..] == m;
  }

  /** For example "[[ANSI0]]" followed by the escape sequence ESC [ m. */
  lemma LiteralTokenExample(m: seq<Byte>)
    requires m == [91, 91, 65, 78, 83, 73, 48, 93, 93, ESC, 91, 109]
    ensures PrepareFrom(m, 0, 0).Some?
    ensures var p := PrepareFrom(m, 0, 0).value;
            |p.sequences| == 1 && Restore(p.text, p.sequences) != m
  {
    assert SequenceEnd(m, 9) == FinalByte(m, 11) == 12;
    assert PrepareFrom(m, 9, 0) == Join(Token(0), [m[9..12]], PrepareFrom(m, 12, 1));
    PlainBytesStoreNothing(m, 0, 9, 0);
    assert Token(0) == m[..9];
    LeadingTokenLost(m, 0);
  }

  // ---- What is taken out, and when preparing fails ----

  predicate IsFinal(b: Byte) {
    64 <= b <= 126
  }

  /** The shape of an escape sequence: ESC and one byte, or ESC, "[", bytes that are not final ones, and a final
    * one; or less of either, at the end of the text. */
  predicate SequenceShape(q: seq<Byte>, atEnd: bool) {
    && q != [] && q[0] == ESC
    && if |q| > 1 && q[1] == 91 then
         if forall j :: 2 <= j < |q| ==> !IsFinal(q[j]) then atEnd
         else IsFinal(q[|q| - 1]) && |q| > 2 && forall j :: 2 <= j < |q| - 1 ==> !IsFinal(q[j])
       else |q| == 2 || (|q| == 1 && atEnd)
  }

  lemma {:induction false} FinalShape(m: seq<Byte>, j: nat)
    requires j <= |m|
    ensures var end := FinalByte(m, j);
            if forall k :: j <= k < |m| ==> !IsFinal(m[k]) then end == |m|
            else j < end && IsFinal(m[end - 1]) && forall k :: j <= k < end - 1 ==> !IsFinal(m[k])
    decreases |m| - j
  {
    if j == |m| || IsFinal(m[j]) {
    } else {
      FinalShape(m, j + 1);
    }
  }

  /** What is taken out at an escape byte has that shape. */
  lemma TakenShape(m: seq<Byte>, i: nat)
    requires i < |m| && m[i] == ESC
    ensures SequenceShape(m[i..SequenceEnd(m, i)], SequenceEnd(m, i) == |m|)
  {
    var (end, q) := (SequenceEnd(m, i), m[i..SequenceEnd(m, i)]);
    if At(m, i + 1) == 91 {
      FinalShape(m, i + 2);
      assert forall k :: i <= k < end ==> m[k] == q[k - i];
      if k :| i + 2 <= k < |m| && IsFinal(m[k]) {
        assert q[end - 1 - i] == m[end - 1];
        forall j | 2 <= j < |q| - 1
          ensures !IsFinal(q[j])
        {
          assert q[j] == m[j + i];
        }
      }
    }
  }

  /** All escape sequences of the message from offset i on, in order. */
  function Sequences(m: seq<Byte>, i: nat): (r: seq<seq<Byte>>)
    requires i <= |m|
    decreases |m| - i
  {
    if i == |m| then []
    else if m[i] == ESC then [m[i..SequenceEnd(m, i)]] + Sequences(m, SequenceEnd(m, i))
    else Sequences(m, i + 1)
  }

  ghost predicate AllShort(sequences: seq<seq<Byte>>) {
    forall k :: 0 <= k < |sequences| ==> |sequences[k]| < 64
  }

  lemma ShortFirst(q: seq<Byte>, rest: seq<seq<Byte>>)
    ensures AllShort([q] + rest) <==> |q| < 64 && AllShort(rest)
  {
    var all := [q] + rest;
    assert all[0] == q && forall k :: 0 <= k < |rest| ==> rest[k] == all[k + 1];
  }

  /** Preparing succeeds exactly when there are at most 32 sequences, each shorter than 64 bytes, and then stores
    * all of them. */
  lemma {:induction false} PreparesExactly(m: seq<Byte>, i: nat, stored: nat)
    requires i <= |m| && stored <= 32
    ensures PrepareFrom(m, i, stored).Some? <==> stored + |Sequences(m, i)| <= 32 && AllShort(Sequences(m, i))
    ensures PrepareFrom(m, i, stored).Some? ==> PrepareFrom(m, i, stored).value.sequences == Sequences(m, i)
    decreases |m| - i
  {
    if i == |m| {
    } else if m[i] == ESC {
      var end := SequenceEnd(m, i);
      ShortFirst(m[i..end], Sequences(m, end));
      if stored < 32 {
        PreparesExactly(m, end, stored + 1);
      }
    } else {
      PreparesExactly(m, i + 1, stored);
    }
  }

  /** The token is the number, in decimal without leading zeros, between "[[ANSI" and "]]". */
  lemma TokenText(k: nat)
    requires k < 32
    ensures var (t, n) := (Token(k), |Token(k)|);
            && t[..6] == ['[' as int, '[' as int, 'A' as int, 'N' as int, 'S' as int, 'I' as int]
            && t[n - 2..] == [']' as int, ']' as int]
            && (if k < 10 then n == 9 && t[6] - '0' as int == k
                else n == 10 && '1' as int <= t[6] <= '9' as int && '0' as int <= t[7] <= '9' as int
                     && (t[6] - '0' as int) * 10 + (t[7] - '0' as int) == k)
  {
  }
}
