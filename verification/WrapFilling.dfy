/** Lines are filled before they are broken (src/display_model.c): a line ends at the end of the text, at a newline,
  * or where the next glyph no longer fits. */
module WrapFilling {
  import opened Bytes
  import opened Wrapping

  /** The greedy choice, for any reading. */
  lemma {:induction false} LineFilled(read: Reading, text: seq<Byte>, width: nat, i: nat, col: nat)
    requires Proper(read, text) && i <= |text|
    ensures var end := LineEnd(read, text, width, i, col);
            end == |text| || text[end] == NEWLINE || col + Columns(read, i, end) + read(end).cols > width
    decreases |text| - i
  {
    if i == |text| || text[i] == NEWLINE {
    } else {
      var g := read(i);
      if col + g.cols > width && col > 0 {
      } else if g.cols > width && col == 0 {
        assert Columns(read, g.next, g.next) == 0;
      } else {
        LineFilled(read, text, width, g.next, col + g.cols);
        ColumnsFirst(read, i, LineEnd(read, text, width, i, col));
      }
    }
  }

  lemma ColumnsFirst(read: Reading, i: nat, end: nat)
    requires i < read(i).next <= end
    ensures Columns(read, i, end) == read(i).cols + Columns(read, read(i).next, end)
  {
  }

  /** No glyph of a line is a newline. */
  predicate NoNewline(read: Reading, text: seq<Byte>, i: nat, end: nat)
    requires end <= |text|
    decreases end - i
  {
    i < end && i < read(i).next ==> text[i] != NEWLINE && NoNewline(read, text, read(i).next, end)
  }

  lemma {:induction false} LineUnbroken(read: Reading, text: seq<Byte>, width: nat, i: nat, col: nat)
    requires Proper(read, text) && i <= |text|
    ensures NoNewline(read, text, i, LineEnd(read, text, width, i, col))
    decreases |text| - i
  {
    if i == |text| || text[i] == NEWLINE {
    } else {
      var g := read(i);
      if !(col + g.cols > width && col > 0) && !(g.cols > width && col == 0) {
        LineUnbroken(read, text, width, g.next, col + g.cols);
      }
    }
  }

  /** A line never overflows its buffer: 4094 bytes and a terminator fit. */
  lemma {:induction false} LineBounded(read: Reading, text: seq<Byte>, width: nat, i: nat, col: nat, buffer: seq<Byte>)
    requires i <= |text| && |buffer| <= 4094
    ensures |LineText(read, text, width, i, col, buffer)| <= 4094
    decreases |text| - i
  {
    if i == |text| || text[i] == NEWLINE {
    } else {
      var g := read(i);
      if i < g.next <= |text| && !(col + g.cols > width && col > 0) && !(g.cols > width && col == 0) {
        var buffer' := if |buffer| + (g.next - i) < LINE_TEXT_MAX - 1 then buffer + text[i..g.next] else buffer;
        LineBounded(read, text, width, g.next, col + g.cols, buffer');
      }
    }
  }

  /** Where line k of the text starts. */
  function LineStart(read: Reading, text: seq<Byte>, width: nat, i: nat, k: nat): (start: nat)
    requires i <= |text|
    ensures i <= start <= |text|
    decreases k
  {
    if k == 0 then i else LineStart(read, text, width, NextStart(read, text, width, i), k - 1)
  }

  lemma {:induction false} LineAt(read: Reading, text: seq<Byte>, width: nat, id: nat, i: nat, sub: nat,
                                  capacity: nat, k: nat)
    requires i <= |text| && k < |WrapFrom(read, text, width, id, i, sub, capacity)|
    ensures WrapFrom(read, text, width, id, i, sub, capacity)[k].text
         == LineText(read, text, width, LineStart(read, text, width, i, k), 0, [])
    decreases k
  {
    if k == 0 {
    } else {
      LineAt(read, text, width, id, NextStart(read, text, width, i), sub + 1, capacity - 1, k - 1);
    }
  }

  /** Every line of a wrapped message that is not ended by a newline or the end of the text could not have taken
    * the next glyph: the columns of the line and of that glyph together exceed the width. */
  lemma WrappedLinesFilled(text: seq<Byte>, width: nat, id: nat, capacity: nat, k: nat) returns (start: nat, end: nat)
    requires width > 0 && capacity > 0 && Seen(text) != [] && k < |Wrap(text, width, id, capacity)|
    ensures start <= end <= |Seen(text)| && start == LineStart(ReadingOf(text), Seen(text), width, 0, k)
    ensures Wrap(text, width, id, capacity)[k].text == LineText(ReadingOf(text), Seen(text), width, start, 0, [])
    ensures end - start <= 4094 ==> Wrap(text, width, id, capacity)[k].text == Seen(text)[start..end]
    ensures |Wrap(text, width, id, capacity)[k].text| <= 4094
    ensures NoNewline(ReadingOf(text), Seen(text), start, end)
    ensures end == |Seen(text)| || Seen(text)[end] == NEWLINE
         || Columns(ReadingOf(text), start, end) + ReadingOf(text)(end).cols > width
  {
    var (read, seen) := (ReadingOf(text), Seen(text));
    start := LineStart(read, seen, width, 0, k);
    end := LineEnd(read, seen, width, start, 0);
    SeenIsProper(text);
    LineAt(read, seen, width, id, 0, 0, capacity, k);
    LineFilled(read, seen, width, start, 0);
    LineUnbroken(read, seen, width, start, 0);
    LineBounded(read, seen, width, start, 0, []);
    if end - start <= 4094 {
      LineBytes(read, seen, width, start);
    }
  }
}
