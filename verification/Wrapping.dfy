/** Wrapping a message into display lines (src/display_model.c).
  *
  * A message is a buffer of memory: its text, a NUL, and whatever stands behind it; past its end there is
  * another NUL. It is read as a row of glyphs up to the NUL at which the cursor stops. Where each glyph starts
  * and how many columns it takes is a reading of the text, and the line breaking is stated over any such
  * reading. */
module Wrapping {
  import opened Bytes
  import Utf8

  const NEWLINE: Byte := 10
  const LINE_TEXT_MAX := 4096

  datatype DisplayLine = DisplayLine(messageId: nat, subline: nat, text: seq<Byte>)

  /** The columns a glyph takes and the offset after it. */
  datatype Glyph = Glyph(cols: nat, next: nat)

  type Reading = nat -> Glyph

  // ---- utf8_char_width ----

  /** Bytes a multi-byte sequence announces by its first byte; 1 for any other byte. */
  function Announced(b: Byte): (n: nat)
    ensures 1 <= n <= 4
  {
    if 0xC0 <= b < 0xE0 then 2 else if 0xE0 <= b < 0xF0 then 3 else if 0xF0 <= b < 0xF8 then 4 else 1
  }

  /** The ranges of three-byte code points shown two columns wide. */
  predicate IsWide3(cp: int) {
    || 0x1100 <= cp <= 0x115F || cp == 0x2329 || cp == 0x232A
    || 0x2E80 <= cp <= 0x303E || 0x3040 <= cp <= 0xA4CF || 0xAC00 <= cp <= 0xD7A3
    || 0xF900 <= cp <= 0xFAFF || 0xFE10 <= cp <= 0xFE6F || 0xFF01 <= cp <= 0xFF60 || 0xFFE0 <= cp <= 0xFFE6
  }

  /** The low bits of a byte below a power of two, times a weight. */
  function Part(b: int, modulus: int, weight: int): int
    requires modulus > 0
  {
    b % modulus * weight
  }

  function MultiByteColumns(a: Byte, b: Byte, c: Byte, d: Byte): (cols: nat) {
    if Announced(a) == 3 then
      if IsWide3(Part(a, 16, 4096) + Part(b, 64, 64) + Part(c, 64, 1)) then 2 else 1
    else if Announced(a) == 4 then
      if 0x20000 <= Part(a, 8, 262144) + Part(b, 64, 4096) + Part(c, 64, 64) + Part(d, 64, 1) <= 0x2FFFD then 2 else 1
    else 1
  }

  /** Offset after the parameter bytes and the final byte of a control sequence scanned up to j. */
  function ControlEnd(text: seq<Byte>, j: nat): (end: nat)
    requires j <= |text|
    ensures j <= end <= |text|
    decreases |text| - j
  {
    if At(text, j) == 0 then j else if 0x20 <= text[j] < 0x40 then ControlEnd(text, j + 1) else j + 1
  }

  /** Bytes of an announced sequence of n that are present: up to the first that is no tail byte. */
  function Present(text: seq<Byte>, i: nat, k: nat, n: nat): (len: nat)
    requires 1 <= k <= n
    ensures k <= len <= n
    decreases n - k
  {
    if k == n || At(text, i + k) == 0 then n
    else if !Utf8.IsTail(At(text, i + k)) then k
    else Present(text, i, k + 1, n)
  }

  function GlyphAt(text: seq<Byte>, i: nat): (g: Glyph)
    requires i < |text|
    ensures i < g.next
  {
    if text[i] == 0x1B && At(text, i + 1) == 0x5B then Glyph(0, ControlEnd(text, i + 2))
    else if text[i] < 0x80 then Glyph(if text[i] >= 0x20 then 1 else 0, i + 1)
    else
      Glyph(MultiByteColumns(text[i], At(text, i + 1), At(text, i + 2), At(text, i + 3)),
            i + Present(text, i, 1, Announced(text[i])))
  }

  method CharWidth(text: seq<Byte>, i: nat) returns (cols: nat, next: nat)
    requires At(text, i) != 0
    ensures Glyph(cols, next) == GlyphAt(text, i)
  {
    if text[i] == 0x1B && At(text, i + 1) == 0x5B {
      next := i + 2;
      while At(text, next) != 0 && 0x20 <= At(text, next) < 0x40
        invariant i + 2 <= next <= |text| && ControlEnd(text, i + 2) == ControlEnd(text, next)
        decreases |text| - next
      {
        next := next + 1;
      }
      if At(text, next) != 0 {
        next := next + 1;
      }
      return 0, next;
    }
    if text[i] < 0x80 {
      return if text[i] >= 0x20 then 1 else 0, i + 1;
    }
    var n := Announced(text[i]);
    cols := MultiByteColumns(text[i], At(text, i + 1), At(text, i + 2), At(text, i + 3));
    var k, len := 1, n;
    while k < len && At(text, i + k) != 0
      invariant 1 <= k <= len <= n
      invariant len == n ==> Present(text, i, 1, n) == Present(text, i, k, n)
      invariant len < n ==> k == len == Present(text, i, 1, n)
      decreases len - k
    {
      if !Utf8.IsTail(At(text, i + k)) {
        len := k;
      } else {
        k := k + 1;
      }
    }
    next := i + len;
  }

  // ---- What the cursor passes ----

  /** Where a cursor at offset i finally meets a NUL, going from glyph to glyph. */
  function Stop(text: seq<Byte>, i: nat): (stop: nat)
    ensures i <= stop && At(text, stop) == 0
    decreases if i < |text| then |text| - i else 0
  {
    if At(text, i) == 0 then i else Stop(text, GlyphAt(text, i).next)
  }

  function MemoryOf(text: seq<Byte>): nat -> Byte {
    (i: nat) => At(text, i)
  }

  /** The bytes of memory from offset i up to end. */
  function Copied(at: nat -> Byte, i: nat, end: nat): (r: seq<Byte>)
    requires i <= end
    ensures |r| == end - i && forall k :: 0 <= k < end - i ==> r[k] == at(i + k)
  {
    seq<Byte>(end - i, k requires 0 <= k < end - i => at(i + k))
  }

  /** All bytes the cursor passes. */
  function Seen(text: seq<Byte>): (r: seq<Byte>) {
    Copied(MemoryOf(text), 0, Stop(text, 0))
  }

  /** The glyph at i of a text that ends at stop; a NUL that the cursor jumps over counts for nothing. */
  function GlyphUpTo(text: seq<Byte>, i: nat, stop: nat): (g: Glyph) {
    if i >= stop then Glyph(0, i)
    else if At(text, i) == 0 then Glyph(0, i + 1)
    else
      var g := GlyphAt(text, i);
      Glyph(g.cols, if g.next < stop then g.next else stop)
  }

  function ReadingOf(text: seq<Byte>): (r: Reading) {
    (i: nat) => GlyphUpTo(text, i, Stop(text, 0))
  }

  /** Glyphs follow one another inside the text. */
  ghost predicate Proper(read: Reading, text: seq<Byte>) {
    forall i: nat :: i < |text| ==> i < read(i).next <= |text|
  }

  lemma SeenIsProper(text: seq<Byte>)
    ensures Proper(ReadingOf(text), Seen(text))
  {
  }

  // ---- display_model_wrap_line ----

  /** Where the line starting at some offset ends, scanned up to i with col columns taken. */
  function LineEnd(read: Reading, text: seq<Byte>, width: nat, i: nat, col: nat): (end: nat)
    requires i <= |text|
    ensures i <= end <= |text|
    decreases |text| - i
  {
    if i == |text| || text[i] == NEWLINE then i
    else
      var g := read(i);
      if !(i < g.next <= |text|) || (col + g.cols > width && col > 0) then i
      else if g.cols > width && col == 0 then g.next
      else LineEnd(read, text, width, g.next, col + g.cols)
  }

  /** What the line buffer holds at the end: a glyph that would overflow it is left out. */
  function LineText(read: Reading, text: seq<Byte>, width: nat, i: nat, col: nat, buffer: seq<Byte>): (r: seq<Byte>)
    requires i <= |text|
    decreases |text| - i
  {
    if i == |text| || text[i] == NEWLINE then buffer
    else
      var g := read(i);
      if !(i < g.next <= |text|) || (col + g.cols > width && col > 0) then buffer
      else
        var buffer' := if |buffer| + (g.next - i) < LINE_TEXT_MAX - 1 then buffer + text[i..g.next] else buffer;
        if g.cols > width && col == 0 then buffer'
        else LineText(read, text, width, g.next, col + g.cols, buffer')
  }

  /** Where the next line starts: past a newline, if that is what ended this one. */
  function NextStart(read: Reading, text: seq<Byte>, width: nat, i: nat): (next: nat)
    requires i <= |text|
    ensures i <= next <= |text|
  {
    var end := LineEnd(read, text, width, i, 0);
    if end < |text| && text[end] == NEWLINE then end + 1 else end
  }

  /** The lines from offset i on, at most capacity of them. */
  function WrapFrom(read: Reading, text: seq<Byte>, width: nat, id: nat, i: nat, sub: nat, capacity: nat)
    : (r: seq<DisplayLine>)
    requires i <= |text|
    ensures |r| <= capacity
    decreases capacity
  {
    if i == |text| || capacity == 0 then []
    else
      var rest := WrapFrom(read, text, width, id, NextStart(read, text, width, i), sub + 1, capacity - 1);
      [DisplayLine(id, sub, LineText(read, text, width, i, 0, []))] + rest
  }

  function Wrap(text: seq<Byte>, width: nat, id: nat, capacity: nat): (r: seq<DisplayLine>)
    ensures |r| <= capacity
  {
    if width == 0 || capacity == 0 then []
    else
      var lines := WrapFrom(ReadingOf(text), Seen(text), width, id, 0, 0, capacity);
      if lines == [] then [DisplayLine(id, 0, [])] else lines
  }

  /** The byte at i, if it announces a multi-byte sequence, is followed by all of it. */
  predicate CompleteAt(text: seq<Byte>, i: nat)
    requires i < |text|
  {
    var end := i + Announced(text[i]);
    end <= |text| && forall k :: i < k < end ==> Utf8.IsTail(text[k])
  }

  predicate Complete(text: seq<Byte>) {
    forall i :: 0 <= i < |text| ==> CompleteAt(text, i)
  }

  /** Text that passes the UTF-8 validator has only complete sequences. */
  lemma {:induction false} WellFormedIsComplete(text: seq<Byte>)
    requires Utf8.WellFormed(text)
    ensures Complete(text)
    decreases |text|
  {
    if text == [] {
    } else {
      var n := Utf8.UnitLength(text);
      WellFormedIsComplete(text[n..]);
      forall i | 0 <= i < |text|
        ensures CompleteAt(text, i)
      {
        if i >= n {
          CompleteInTail(text, n, i);
        }
      }
    }
  }

  lemma CompleteInTail(text: seq<Byte>, n: nat, i: nat)
    requires n <= i < |text| && CompleteAt(text[n..], i - n)
    ensures CompleteAt(text, i)
  {
  }

  lemma {:induction false} AllPresent(text: seq<Byte>, i: nat, k: nat, n: nat)
    requires 1 <= k <= n && i + n <= |text| && forall j :: i + k <= j < i + n ==> Utf8.IsTail(text[j])
    ensures Present(text, i, k, n) == n
    decreases n - k
  {
    if k == n {
    } else {
      AllPresent(text, i, k + 1, n);
    }
  }

  /** The sequence announced at i runs into the end of the text. */
  predicate CutShort(text: seq<Byte>, i: nat)
    requires i < |text|
  {
    i + Announced(text[i]) > |text| && forall k :: i < k < |text| ==> Utf8.IsTail(text[k])
  }

  /** No sequence the cursor meets from offset i on runs into the terminator. */
  predicate Contained(text: seq<Byte>, i: nat)
    decreases if i < |text| then |text| - i else 0
  {
    i >= |text| || (!CutShort(text, i) && Contained(text, GlyphAt(text, i).next))
  }

  lemma {:induction false} PresentInside(text: CString, i: nat, k: nat, n: nat)
    requires 1 <= k <= n && i + k <= |text|
    ensures i + Present(text, i, k, n) > |text| <==>
            i + n > |text| && forall j :: i + k <= j < |text| ==> Utf8.IsTail(text[j])
    decreases n - k
  {
    if k == n || i + k == |text| {
    } else if Utf8.IsTail(text[i + k]) {
      PresentInside(text, i, k + 1, n);
    }
  }

  /** A glyph ends inside the text exactly when it is not cut short. */
  lemma GlyphInside(text: CString, i: nat)
    requires i < |text|
    ensures i < GlyphAt(text, i).next <= |text| <==> !CutShort(text, i)
  {
    PresentInside(text, i, 1, Announced(text[i]));
  }

  lemma {:induction false} StopExactly(text: CString, i: nat)
    requires i <= |text|
    ensures Stop(text, i) == |text| <==> Contained(text, i)
    decreases |text| - i
  {
    if i == |text| {
    } else {
      GlyphInside(text, i);
      if CutShort(text, i) {
      } else {
        StopExactly(text, GlyphAt(text, i).next);
      }
    }
  }

  /** The cursor passes exactly the text, and stops at its terminator, if and only if it meets no sequence
    * that runs into the terminator. */
  lemma SeenExactly(text: CString)
    ensures Seen(text) == text <==> Contained(text, 0)
  {
    StopExactly(text, 0);
    if Stop(text, 0) == |text| {
      assert forall k :: 0 <= k < |text| ==> Seen(text)[k] == text[k];
    } else {
      assert |Seen(text)| != |text|;
    }
  }

  /** Complete text is passed as it stands, and every glyph of it as GlyphAt says. */
  lemma CompleteIsSeen(text: CString)
    requires Complete(text)
    ensures Stop(text, 0) == |text| && Seen(text) == text
    ensures forall i: nat :: i < |text| ==> ReadingOf(text)(i) == GlyphAt(text, i)
  {
    forall i: nat | i < |text|
      ensures GlyphAt(text, i).next <= |text|
    {
      assert CompleteAt(text, i);
      GlyphInside(text, i);
    }
    StopInside(text, 0);
    assert forall k :: 0 <= k < |text| ==> Seen(text)[k] == text[k];
  }

  lemma {:induction false} StopInside(text: CString, i: nat)
    requires i <= |text| && forall k: nat :: k < |text| ==> GlyphAt(text, k).next <= |text|
    ensures Stop(text, i) == |text|
    decreases |text| - i
  {
    if i == |text| {
    } else {
      StopInside(text, GlyphAt(text, i).next);
    }
  }

  // ---- The loops ----

  /** A place the cursor comes by. */
  predicate OnPath(text: seq<Byte>, i: nat) {
    Stop(text, i) == Stop(text, 0)
  }

  /** At such a place the reading is the glyph itself, and the next one is such a place again. */
  lemma PathStep(text: seq<Byte>, i: nat)
    requires OnPath(text, i)
    ensures i <= |Seen(text)| && (At(text, i) == 0 <==> i == |Seen(text)|)
    ensures i < |Seen(text)| ==>
              && Seen(text)[i] == text[i] && ReadingOf(text)(i) == GlyphAt(text, i)
              && OnPath(text, GlyphAt(text, i).next) && GlyphAt(text, i).next <= |Seen(text)|
  {
  }

  /** A cursor's way through memory: the bytes and the glyphs it finds there, and what they amount to, the text
    * it passes, the reading of that text and the places it comes by. */
  datatype Passage = Passage(at: nat -> Byte, glyph: Reading, seen: seq<Byte>, read: Reading, path: nat -> bool)

  ghost predicate Follows(p: Passage) {
    && p.path(0)
    && (forall k :: 0 <= k < |p.seen| ==> p.seen[k] == p.at(k))
    && (forall i: nat {:trigger p.path(i)} :: p.path(i) ==> i <= |p.seen| && (p.at(i) == 0 <==> i == |p.seen|))
    && (forall i: nat {:trigger p.path(i), p.glyph(i)} :: p.path(i) && i < |p.seen| ==>
          && p.read(i) == p.glyph(i) && i < p.glyph(i).next <= |p.seen| && p.path(p.glyph(i).next)
          && (p.at(i) == NEWLINE ==> p.glyph(i).next == i + 1))
  }

  function PassageOf(text: seq<Byte>): (p: Passage) {
    Passage(MemoryOf(text), (i: nat) => if i < |text| then GlyphAt(text, i) else Glyph(0, i),
            Seen(text), ReadingOf(text), (i: nat) => OnPath(text, i))
  }

  lemma TextFollows(text: seq<Byte>)
    ensures Follows(PassageOf(text))
  {
    var p := PassageOf(text);
    forall i: nat | OnPath(text, i)
      ensures i <= |p.seen| && (At(text, i) == 0 <==> i == |p.seen|)
      ensures i < |p.seen| ==>
                p.read(i) == p.glyph(i) && i < p.glyph(i).next <= |p.seen| && OnPath(text, p.glyph(i).next)
    {
      PathStep(text, i);
    }
  }

  /** The inner loop: fill one line buffer. */
  method OneLine(p: Passage, width: nat, start: nat) returns (buffer: seq<Byte>, cursor: nat)
    requires Follows(p) && p.path(start)
    ensures buffer == LineText(p.read, p.seen, width, start, 0, [])
    ensures cursor == LineEnd(p.read, p.seen, width, start, 0) && p.path(cursor)
  {
    var col: nat := 0;
    buffer, cursor := [], start;
    while p.at(cursor) != 0 && p.at(cursor) != NEWLINE
      invariant p.path(cursor) && start <= cursor <= |p.seen|
      invariant LineText(p.read, p.seen, width, start, 0, []) == LineText(p.read, p.seen, width, cursor, col, buffer)
      invariant LineEnd(p.read, p.seen, width, start, 0) == LineEnd(p.read, p.seen, width, cursor, col)
      decreases |p.seen| - cursor
    {
      var prev := cursor;
      var cw := p.glyph(prev).cols;
      cursor := p.glyph(prev).next;
      if col + cw > width && col > 0 {
        cursor := prev;
        return;
      }
      assert Copied(p.at, prev, cursor) == p.seen[prev..cursor];
      if |buffer| + (cursor - prev) < LINE_TEXT_MAX - 1 {
        buffer := buffer + Copied(p.at, prev, cursor);
      }
      if cw > width && col == 0 {
        return;
      }
      col := col + cw;
    }
  }

  /** One pass of the outer loop: a line, and the newline that ends it if there is one. */
  method NextLine(p: Passage, width: nat, id: nat, start: nat, sub: nat) returns (line: DisplayLine, next: nat)
    requires Follows(p) && p.path(start)
    ensures line == DisplayLine(id, sub, LineText(p.read, p.seen, width, start, 0, []))
    ensures next == NextStart(p.read, p.seen, width, start) && p.path(next)
  {
    var buffer, end := OneLine(p, width, start);
    line := DisplayLine(id, sub, buffer);
    next := end;
    if p.at(end) == NEWLINE {
      assert p.glyph(end).next == end + 1;
      next := end + 1;
    }
  }

  /** The outer loop: line after line until the text or the room for lines runs out. */
  method AllLines(p: Passage, width: nat, id: nat, capacity: nat) returns (lines: seq<DisplayLine>)
    requires Follows(p)
    ensures lines == WrapFrom(p.read, p.seen, width, id, 0, 0, capacity)
  {
    lines := [];
    var cursor: nat := 0;
    ghost var whole := WrapFrom(p.read, p.seen, width, id, 0, 0, capacity);
    assert whole == lines + whole;
    while p.at(cursor) != 0 && |lines| < capacity
      invariant p.path(cursor) && cursor <= |p.seen| && |lines| <= capacity
      invariant whole == lines + WrapFrom(p.read, p.seen, width, id, cursor, |lines|, capacity - |lines|)
      decreases capacity - |lines|
    {
      var line, next := NextLine(p, width, id, cursor, |lines|);
      LineMore(p.read, p.seen, width, id, cursor, lines, capacity, whole, line, next);
      lines, cursor := lines + [line], next;
    }
    NothingLeft(p.read, p.seen, width, id, cursor, lines, capacity);
  }

  /** One more line taken from the ones still to come. */
  lemma LineMore(read: Reading, text: seq<Byte>, width: nat, id: nat, i: nat, lines: seq<DisplayLine>, capacity: nat,
                 whole: seq<DisplayLine>, line: DisplayLine, next: nat)
    requires i < |text| && |lines| < capacity && next == NextStart(read, text, width, i)
    requires line == DisplayLine(id, |lines|, LineText(read, text, width, i, 0, []))
    requires whole == lines + WrapFrom(read, text, width, id, i, |lines|, capacity - |lines|)
    ensures whole == lines + [line]
                   + WrapFrom(read, text, width, id, next, |lines + [line]|, capacity - |lines + [line]|)
  {
  }

  lemma NothingLeft(read: Reading, text: seq<Byte>, width: nat, id: nat, i: nat, lines: seq<DisplayLine>, capacity: nat)
    requires i <= |text| && |lines| <= capacity && (i == |text| || |lines| == capacity)
    ensures lines + WrapFrom(read, text, width, id, i, |lines|, capacity - |lines|) == lines
  {
  }

  /** display_model_wrap_line */
  method WrapLine(text: seq<Byte>, width: nat, id: nat, capacity: nat) returns (lines: seq<DisplayLine>)
    ensures lines == Wrap(text, width, id, capacity)
  {
    if width == 0 || capacity == 0 {
      return [];
    }
    TextFollows(text);
    lines := AllLines(PassageOf(text), width, id, capacity);
    if |lines| == 0 {
      lines := [DisplayLine(id, 0, [])];
    }
  }

  // ---- Sublines ----

  lemma {:induction false} SublinesNumbered(read: Reading, text: seq<Byte>, width: nat, id: nat,
                                            i: nat, sub: nat, capacity: nat, k: nat)
    requires i <= |text| && k < |WrapFrom(read, text, width, id, i, sub, capacity)|
    ensures var line := WrapFrom(read, text, width, id, i, sub, capacity)[k];
            line.messageId == id && line.subline == sub + k
    decreases capacity
  {
    if k == 0 {
    } else {
      SublinesNumbered(read, text, width, id, NextStart(read, text, width, i), sub + 1, capacity - 1, k - 1);
    }
  }

  /** A wrapped message gives at least one line, all tagged with its id and numbered 0, 1, 2, ... */
  lemma WrapNumbered(text: seq<Byte>, width: nat, id: nat, capacity: nat)
    requires width > 0 && capacity > 0
    ensures var lines := Wrap(text, width, id, capacity);
            && 1 <= |lines| <= capacity
            && forall k :: 0 <= k < |lines| ==> lines[k].messageId == id && lines[k].subline == k
  {
    var lines := WrapFrom(ReadingOf(text), Seen(text), width, id, 0, 0, capacity);
    forall k | 0 <= k < |lines|
      ensures lines[k].messageId == id && lines[k].subline == k
    {
      SublinesNumbered(ReadingOf(text), Seen(text), width, id, 0, 0, capacity, k);
    }
  }

  // ---- Conservation ----

  /** Every line of the text from i on, wrapped with no limits, fits its buffer, and there is room for
    * all of them. */
  ghost predicate FitsFrom(read: Reading, text: seq<Byte>, width: nat, i: nat, capacity: nat)
    requires i <= |text|
    decreases capacity
  {
    i == |text| ||
    (capacity > 0 && LineEnd(read, text, width, i, 0) - i < LINE_TEXT_MAX - 1
     && FitsFrom(read, text, width, NextStart(read, text, width, i), capacity - 1))
  }

  /** The text is the given lines in order, each followed by one newline or by nothing. */
  ghost predicate Rejoins(lines: seq<DisplayLine>, t: seq<Byte>) {
    if lines == [] then t == []
    else
      var n := |lines[0].text|;
      && lines[0].text <= t
      && (Rejoins(lines[1..], t[n..]) || (n < |t| && t[n] == NEWLINE && Rejoins(lines[1..], t[n + 1..])))
  }

  /** A line that fits is kept whole. */
  lemma {:induction false} LineKept(read: Reading, text: seq<Byte>, width: nat, i: nat, col: nat, buffer: seq<Byte>)
    requires i <= |text| && |buffer| + (LineEnd(read, text, width, i, col) - i) < LINE_TEXT_MAX - 1
    ensures LineText(read, text, width, i, col, buffer) == buffer + text[i..LineEnd(read, text, width, i, col)]
    decreases |text| - i
  {
    var end := LineEnd(read, text, width, i, col);
    if end > i {
      var g := read(i);
      if g.cols > width && col == 0 {
      } else {
        LineKept(read, text, width, g.next, col + g.cols, buffer + text[i..g.next]);
        assert text[i..end] == text[i..g.next] + text[g.next..end];
      }
    } else {
      assert text[i..end] == [];
    }
  }

  lemma {:induction false} WrapConserves(read: Reading, text: seq<Byte>, width: nat, id: nat,
                                         i: nat, sub: nat, capacity: nat)
    requires i <= |text| && FitsFrom(read, text, width, i, capacity)
    ensures Rejoins(WrapFrom(read, text, width, id, i, sub, capacity), text[i..])
    decreases capacity
  {
    if i >= |text| {
    } else {
      var (end, next) := (LineEnd(read, text, width, i, 0), NextStart(read, text, width, i));
      var rest := WrapFrom(read, text, width, id, next, sub + 1, capacity - 1);
      WrapConserves(read, text, width, id, next, sub + 1, capacity - 1);
      LineKept(read, text, width, i, 0, []);
      OneLineMore(DisplayLine(id, sub, text[i..end]), rest, text, i, end, next);
    }
  }

  lemma OneLineMore(line: DisplayLine, rest: seq<DisplayLine>, text: seq<Byte>, i: nat, end: nat, next: nat)
    requires i <= end <= next <= |text| && line.text == text[i..end] && Rejoins(rest, text[next..])
    requires next == if end < |text| && text[end] == NEWLINE then end + 1 else end
    ensures Rejoins([line] + rest, text[i..])
  {
    var t := text[i..];
    assert t[..end - i] == line.text && t[end - i..] == text[end..] && ([line] + rest)[1..] == rest;
    if next > end {
      assert t[end - i + 1..] == text[next..];
    }
  }

  /** A line always takes something: a glyph or a newline. */
  lemma Progress(read: Reading, text: seq<Byte>, width: nat, i: nat)
    requires Proper(read, text) && i < |text|
    ensures NextStart(read, text, width, i) > i
  {
  }

  /** A text no longer than one line buffer and the line limit always fits. */
  lemma {:induction false} ShortTextFits(read: Reading, text: seq<Byte>, width: nat, i: nat, capacity: nat)
    requires Proper(read, text) && i <= |text| && |text| < LINE_TEXT_MAX - 1 && |text| - i <= capacity
    ensures FitsFrom(read, text, width, i, capacity)
    decreases capacity
  {
    if i >= |text| {
    } else {
      Progress(read, text, width, i);
      ShortTextFits(read, text, width, NextStart(read, text, width, i), capacity - 1);
    }
  }

  /** Wrapping loses nothing of what the cursor passes: it is the lines in order, each optionally followed by
    * a newline. */
  lemma WrappingConservesSeen(text: seq<Byte>, width: nat, id: nat, capacity: nat)
    requires width > 0 && capacity > 0 && FitsFrom(ReadingOf(text), Seen(text), width, 0, capacity)
    ensures Rejoins(Wrap(text, width, id, capacity), Seen(text))
  {
    var seen := Seen(text);
    WrapConserves(ReadingOf(text), seen, width, id, 0, 0, capacity);
    assert seen[0..] == seen;
    if seen == [] {
      var line := DisplayLine(id, 0, []);
      assert [line][1..] == [] && seen[0..] == [];
      assert Rejoins([line], seen);
    }
  }

  /** And nothing of the message, exactly when the cursor passes it as it stands. */
  lemma WrappingConservesText(text: CString, width: nat, id: nat, capacity: nat)
    requires width > 0 && capacity > 0 && FitsFrom(ReadingOf(text), Seen(text), width, 0, capacity)
    ensures Contained(text, 0) ==> Rejoins(Wrap(text, width, id, capacity), text)
    ensures !Contained(text, 0) ==> Rejoins(Wrap(text, width, id, capacity), Seen(text)) && |Seen(text)| > |text|
  {
    SeenExactly(text);
    StopExactly(text, 0);
    StopPast(text, 0);
    WrappingConservesSeen(text, width, id, capacity);
  }

  /** In a text without a NUL the cursor never stops before the end. */
  lemma StopPast(text: CString, i: nat)
    ensures Stop(text, i) >= |text|
  {
  }

  // ---- Width ----

  /** Columns and visible glyphs from i up to end, counted glyph by glyph. */
  function Columns(read: Reading, i: nat, end: nat): (n: nat)
    decreases end - i
  {
    if i >= end || read(i).next <= i then 0 else read(i).cols + Columns(read, read(i).next, end)
  }

  function Visible(read: Reading, i: nat, end: nat): (n: nat)
    decreases end - i
  {
    if i >= end || read(i).next <= i then 0
    else (if read(i).cols > 0 then 1 else 0) + Visible(read, read(i).next, end)
  }

  lemma {:induction false} LineWithin(read: Reading, text: seq<Byte>, width: nat, i: nat, col: nat)
    requires Proper(read, text) && i <= |text| && col <= width
    ensures var end := LineEnd(read, text, width, i, col);
            || col + Columns(read, i, end) <= width
            || (col == 0 && Visible(read, i, end) == 1)
    decreases |text| - i
  {
    if i >= |text| || text[i] == NEWLINE {
    } else {
      var g := read(i);
      if col + g.cols <= width {
        LineWithin(read, text, width, g.next, col + g.cols);
      } else if col == 0 {
        assert Columns(read, g.next, g.next) == 0 && Visible(read, g.next, g.next) == 0;
      }
    }
  }

  /** A glyph that lies inside a slice of a complete text is read there as in the whole text. */
  lemma {:induction false} ControlEndInSlice(text: seq<Byte>, a: nat, e: nat, j: nat)
    requires a <= j <= e <= |text| && ControlEnd(text, j) <= e
    ensures ControlEnd(text[a..e], j - a) == ControlEnd(text, j) - a
    decreases e - j
  {
    if j == e {
    } else {
      assert At(text[a..e], j - a) == At(text, j);
      if 0x20 <= text[j] < 0x40 {
        ControlEndInSlice(text, a, e, j + 1);
      }
    }
  }

  lemma GlyphInSlice(text: seq<Byte>, a: nat, e: nat, i: nat)
    requires a <= i < e <= |text| && CompleteAt(text, i) && GlyphAt(text, i).next <= e
    ensures GlyphAt(text[a..e], i - a) == Glyph(GlyphAt(text, i).cols, GlyphAt(text, i).next - a)
  {
    var slice := text[a..e];
    assert forall k :: a <= k < e ==> slice[k - a] == text[k];
    var n := Announced(text[i]);
    AllPresent(text, i, 1, n);
    if text[i] == 0x1B && At(text, i + 1) == 0x5B {
      assert At(slice, i - a + 1) == 0x5B;
      ControlEndInSlice(text, a, e, i + 2);
    } else if text[i] >= 0x80 {
      AllPresent(slice, i - a, 1, n);
      MissingBytesIgnored(text, slice, a, i);
    }
  }

  /** The columns of a multi-byte sequence depend only on the bytes it announces. */
  lemma MissingBytesIgnored(text: seq<Byte>, slice: seq<Byte>, a: nat, i: nat)
    requires a <= i < |text| && i - a + Announced(text[i]) <= |slice| && i + Announced(text[i]) <= |text|
    requires forall k :: i <= k < i + Announced(text[i]) ==> slice[k - a] == text[k]
    ensures MultiByteColumns(slice[i - a], At(slice, i - a + 1), At(slice, i - a + 2), At(slice, i - a + 3))
         == MultiByteColumns(text[i], At(text, i + 1), At(text, i + 2), At(text, i + 3))
  {
  }

  /** The glyphs from i on end exactly at end. */
  predicate Reaches(read: Reading, i: nat, end: nat)
    decreases end - i
  {
    i == end || (i < read(i).next <= end && Reaches(read, read(i).next, end))
  }

  lemma {:induction false} LineReaches(read: Reading, text: seq<Byte>, width: nat, i: nat, col: nat)
    requires i <= |text|
    ensures Reaches(read, i, LineEnd(read, text, width, i, col))
    decreases |text| - i
  {
    var end := LineEnd(read, text, width, i, col);
    if i < end && !(read(i).cols > width && col == 0) {
      LineReaches(read, text, width, read(i).next, col + read(i).cols);
    }
  }

  /** The second reading is the first, moved down by a and cut off at end. */
  ghost predicate Moved(read: Reading, own: Reading, a: nat, end: nat) {
    forall j: nat {:trigger read(j)} :: a <= j < read(j).next <= end ==>
      own(j - a) == Glyph(read(j).cols, read(j).next - a)
  }

  lemma {:induction false} MovedCounts(read: Reading, own: Reading, a: nat, i: nat, end: nat)
    requires a <= i <= end && Moved(read, own, a, end) && Reaches(read, i, end)
    ensures Columns(own, i - a, end - a) == Columns(read, i, end)
    ensures Visible(own, i - a, end - a) == Visible(read, i, end)
    decreases end - i
  {
    if i == end {
    } else {
      MovedCounts(read, own, a, read(i).next, end);
    }
  }

  lemma SliceReads(text: CString, slice: CString, a: nat, end: nat, j: nat)
    requires a <= j < end <= |text| && slice == text[a..end] && CompleteAt(text, j) && GlyphAt(text, j).next <= end
    ensures ReadingOf(slice)(j - a) == Glyph(GlyphAt(text, j).cols, GlyphAt(text, j).next - a)
  {
    StopPast(slice, 0);
    GlyphInSlice(text, a, end, j);
  }

  /** A slice of complete text reads each glyph that lies inside it as the text does. */
  lemma SliceMoves(text: CString, a: nat, end: nat)
    requires Complete(text) && a <= end <= |text|
    ensures Moved(ReadingOf(text), ReadingOf(text[a..end]), a, end)
  {
    var (read, slice) := (ReadingOf(text), text[a..end]);
    CompleteIsSeen(text);
    forall j: nat | a <= j < read(j).next <= end
      ensures ReadingOf(slice)(j - a) == Glyph(read(j).cols, read(j).next - a)
    {
      assert CompleteAt(text, j) && read(j) == GlyphAt(text, j);
      SliceReads(text, slice, a, end, j);
    }
  }

  /** Counting a line's columns in its own text is counting them in the message. */
  lemma SliceCounts(text: CString, width: nat, i: nat)
    requires Complete(text) && i <= |text|
    ensures var end := LineEnd(ReadingOf(text), text, width, i, 0);
            var own := ReadingOf(text[i..end]);
            && Columns(own, 0, end - i) == Columns(ReadingOf(text), i, end)
            && Visible(own, 0, end - i) == Visible(ReadingOf(text), i, end)
  {
    var end := LineEnd(ReadingOf(text), text, width, i, 0);
    LineReaches(ReadingOf(text), text, width, i, 0);
    SliceMoves(text, i, end);
    MovedCounts(ReadingOf(text), ReadingOf(text[i..end]), i, i, end);
  }

  /** The text takes at most width columns, or holds exactly one glyph that takes any. */
  predicate WithinWidth(t: seq<Byte>, width: nat) {
    Columns(ReadingOf(t), 0, |t|) <= width || Visible(ReadingOf(t), 0, |t|) == 1
  }

  lemma LineBytes(read: Reading, text: seq<Byte>, width: nat, i: nat)
    requires i <= |text| && LineEnd(read, text, width, i, 0) - i < LINE_TEXT_MAX - 1
    ensures LineText(read, text, width, i, 0, []) == text[i..LineEnd(read, text, width, i, 0)]
  {
    LineKept(read, text, width, i, 0, []);
    assert [] + text[i..LineEnd(read, text, width, i, 0)] == text[i..LineEnd(read, text, width, i, 0)];
  }

  lemma LineMeasured(text: CString, width: nat, i: nat)
    requires Complete(text) && i <= |text|
    ensures var (read, end) := (ReadingOf(text), LineEnd(ReadingOf(text), text, width, i, 0));
            Columns(read, i, end) <= width || Visible(read, i, end) == 1
  {
    CompleteIsSeen(text);
    SeenIsProper(text);
    LineWithin(ReadingOf(text), text, width, i, 0);
  }

  /** The bytes of a line, measured as a text of their own. */
  lemma SliceWithin(text: CString, width: nat, i: nat) returns (line: seq<Byte>)
    requires Complete(text) && i <= |text|
    ensures line == text[i..LineEnd(ReadingOf(text), text, width, i, 0)] && WithinWidth(line, width)
  {
    line := text[i..LineEnd(ReadingOf(text), text, width, i, 0)];
    LineMeasured(text, width, i);
    SliceCounts(text, width, i);
  }

  lemma LineTextWithin(text: CString, width: nat, i: nat)
    requires Complete(text) && i <= |text|
    requires LineEnd(ReadingOf(text), text, width, i, 0) - i < LINE_TEXT_MAX - 1
    ensures WithinWidth(LineText(ReadingOf(text), text, width, i, 0, []), width)
  {
    var line := SliceWithin(text, width, i);
    LineBytes(ReadingOf(text), text, width, i);
  }

  lemma {:induction false} LinesWithin(text: CString, width: nat, id: nat, i: nat, sub: nat, capacity: nat, k: nat)
    requires Complete(text) && i <= |text| && FitsFrom(ReadingOf(text), text, width, i, capacity)
    requires k < |WrapFrom(ReadingOf(text), text, width, id, i, sub, capacity)|
    ensures WithinWidth(WrapFrom(ReadingOf(text), text, width, id, i, sub, capacity)[k].text, width)
    decreases capacity
  {
    if k == 0 {
      LineTextWithin(text, width, i);
    } else {
      LinesWithin(text, width, id, NextStart(ReadingOf(text), text, width, i), sub + 1, capacity - 1, k - 1);
    }
  }

  /** Measured on its own bytes, every line takes at most the terminal width, or it holds a single
    * visible glyph that is wider than the terminal. */
  lemma WrappedLinesFitWidth(text: CString, width: nat, id: nat, capacity: nat, k: nat)
    requires Complete(text) && width > 0 && capacity > 0 && FitsFrom(ReadingOf(text), text, width, 0, capacity)
    requires k < |Wrap(text, width, id, capacity)|
    ensures WithinWidth(Wrap(text, width, id, capacity)[k].text, width)
  {
    CompleteIsSeen(text);
    if k < |WrapFrom(ReadingOf(text), text, width, id, 0, 0, capacity)| {
      LinesWithin(text, width, id, 0, 0, capacity, k);
    }
  }
}
