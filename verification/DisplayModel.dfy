/** Layout, anchors and scrolling of the display model (src/display_model.c). */
module DisplayModel {
  import opened Bytes
  import opened Wrapping
  import opened Options
  import opened Searching

  /** Lines one message may wrap into. */
  const WRAP_LIMIT := 256
  const INITIAL_CAPACITY := 64

  /** A message and the buffer that holds its text. */
  datatype Message = Message(id: nat, text: seq<Byte>)

  datatype Mode = FollowTail | ManualScroll
  datatype Anchor = Anchor(messageId: nat, subline: nat)

  datatype View = View(mode: Mode, anchor: Anchor, lastStart: nat, lastHeight: nat, hasLast: bool)

  /** The line store may hold stale lines past the first lineCount. */
  datatype Model = Model(storage: seq<DisplayLine>, lineCount: nat, view: View)

  datatype Frame = Frame(first: nat, count: nat, atTail: bool, atHead: bool)

  function Lines(m: Model): (r: seq<DisplayLine>)
    requires m.lineCount <= |m.storage|
  {
    m.storage[..m.lineCount]
  }

  // ---- Layout ----

  function WrapMessage(m: Message, width: nat): (r: seq<DisplayLine>) {
    Wrap(m.text, width, m.id, WRAP_LIMIT)
  }

  function Layout(log: seq<Message>, width: nat): (r: seq<DisplayLine>) {
    if log == [] then [] else Layout(log[..|log| - 1], width) + WrapMessage(log[|log| - 1], width)
  }

  /** Laying out a longer log is laying out the shorter one and appending the new message's lines. */
  lemma LayoutOfAppend(log: seq<Message>, m: Message, width: nat)
    ensures Layout(log + [m], width) == Layout(log, width) + WrapMessage(m, width)
  {
  }

  lemma PrefixGrows(log: seq<Message>, i: nat, width: nat)
    requires i < |log|
    ensures Layout(log[..i + 1], width) == Layout(log[..i], width) + WrapMessage(log[i], width)
  {
    assert log[..i + 1] == log[..i] + [log[i]];
    LayoutOfAppend(log[..i], log[i], width);
  }

  predicate DistinctIds(log: seq<Message>) {
    forall i, j :: 0 <= i < j < |log| ==> log[i].id != log[j].id
  }

  /** Line k of a layout belongs to message m as its subline s. */
  predicate Places(log: seq<Message>, width: nat, k: nat, m: nat, s: nat) {
    && m < |log| && k == |Layout(log[..m], width)| + s && s < |WrapMessage(log[m], width)|
    && k < |Layout(log, width)|
    && Layout(log, width)[k] == WrapMessage(log[m], width)[s]
    && Layout(log, width)[k].messageId == log[m].id && Layout(log, width)[k].subline == s
  }

  /** Every line of a layout belongs to one message, in log order, with sublines 0, 1, 2, ... */
  lemma {:induction false} LayoutGrouped(log: seq<Message>, width: nat, k: nat) returns (m: nat, s: nat)
    requires width > 0 && k < |Layout(log, width)|
    ensures Places(log, width, k, m, s)
    decreases |log|
  {
    var n := |log| - 1;
    var before := log[..n];
    WrapNumbered(log[n].text, width, log[n].id, WRAP_LIMIT);
    if k < |Layout(before, width)| {
      m, s := LayoutGrouped(before, width, k);
      assert before[..m] == log[..m];
    } else {
      m, s := n, k - |Layout(before, width)|;
    }
  }

  // ---- Anchors ----

  function IsLine(a: Anchor): DisplayLine -> bool {
    (line: DisplayLine) => line.messageId == a.messageId && line.subline == a.subline
  }

  function IsOfMessage(id: nat): DisplayLine -> bool {
    (line: DisplayLine) => line.messageId == id
  }

  function IsNotOlder(id: nat): DisplayLine -> bool {
    (line: DisplayLine) => line.messageId >= id
  }

  /** display_model_resolve_anchor: the anchored line, else the first line of its message, else the
    * first of a later one, else the last line. */
  function Resolve(lines: seq<DisplayLine>, a: Anchor): (r: Option<nat>)
    ensures r.None? <==> lines == []
    ensures r.Some? ==> r.value < |lines|
  {
    if lines == [] then None
    else
      var exact := First(lines, IsLine(a));
      var ofMessage := First(lines, IsOfMessage(a.messageId));
      var later := First(lines, IsNotOlder(a.messageId));
      if exact < |lines| then Some(exact)
      else if ofMessage < |lines| then Some(ofMessage)
      else if later < |lines| then Some(later)
      else Some(|lines| - 1)
  }

  // ---- Frames and scrolling ----

  function LastPage(total: nat, viewport: nat): (top: nat) {
    if total > viewport then total - viewport else 0
  }

  function Min(a: nat, b: nat): nat {
    if a < b then a else b
  }

  function Max(a: nat, b: nat): nat {
    if a < b then b else a
  }

  /** The frame display_model_compute_visible cuts out. */
  function VisibleFrame(lines: seq<DisplayLine>, view: View, height: nat): (f: Frame)
    ensures f.first + f.count <= |lines|
  {
    var total := |lines|;
    if total == 0 || height == 0 then Frame(0, 0, true, true)
    else if view.mode == FollowTail then
      var start := LastPage(total, height);
      Frame(start, total - start, true, start == 0)
    else
      var idx := Resolve(lines, view.anchor).value;
      var top := if idx + height > total then LastPage(total, height) else idx;
      var count := Min(total - top, height);
      Frame(top, count, top + count >= total, top == 0)
  }

  /** What it remembers about the frame. */
  function Remembered(lines: seq<DisplayLine>, view: View, height: nat): (v: View) {
    if |lines| == 0 || height == 0 then view.(hasLast := false, lastStart := 0, lastHeight := height)
    else view.(hasLast := true, lastStart := VisibleFrame(lines, view, height).first, lastHeight := height)
  }

  /** display_model_effective_viewport, cut to the number of lines. */
  function Viewport(view: View, fallback: nat, total: nat): (n: nat) {
    Min(if view.lastHeight > 0 then view.lastHeight else Max(fallback, 1), total)
  }

  const TAIL_VIEW := View(FollowTail, Anchor(0, 0), 0, 0, false)

  /** display_model_follow_tail */
  function Followed(view: View): (v: View) {
    TAIL_VIEW.(lastHeight := view.lastHeight)
  }

  function AnchoredAt(m: Model, view: View, idx: nat): (v: View)
    requires idx < |m.storage|
  {
    view.(anchor := Anchor(m.storage[idx].messageId, m.storage[idx].subline))
  }

  /** The line scrolling starts from. */
  function CurrentTop(m: Model, n: nat): (idx: nat)
    requires 0 < m.lineCount <= |m.storage|
  {
    if m.view.mode == FollowTail then
      if m.view.hasLast then m.view.lastStart else LastPage(m.lineCount, Viewport(m.view, n, m.lineCount))
    else Resolve(Lines(m), m.view.anchor).value
  }

  /** The view whose frame is shown: without its anchor being searched for, the last page. */
  function Searched(view: View, searchable: bool): (v: View) {
    if searchable then view else view.(mode := FollowTail)
  }

  /** The line scrolling up starts from when the anchor may not be searched for. */
  function UpTop(m: Model, n: nat, searchable: bool): (idx: nat)
    requires 0 < m.lineCount <= |m.storage|
  {
    if m.view.mode == FollowTail || searchable then CurrentTop(m, n)
    else LastPage(m.lineCount, Viewport(m.view, n, m.lineCount))
  }

  /** Scrolling up n lines from the given top line. */
  function ScrolledFrom(m: Model, top: nat, n: nat): (v: View) {
    var idx := if top >= n then top - n else 0;
    var manual := m.view.(mode := ManualScroll);
    if idx < |m.storage| then AnchoredAt(m, manual, idx) else manual
  }

  /** display_model_scroll_up */
  function ScrolledUp(m: Model, n: nat): (v: View)
    requires m.lineCount <= |m.storage|
  {
    if m.lineCount == 0 || n == 0 then m.view else ScrolledFrom(m, CurrentTop(m, n), n)
  }

  /** display_model_scroll_down */
  function ScrolledDown(m: Model, n: nat): (v: View)
    requires m.lineCount <= |m.storage|
  {
    if m.lineCount == 0 || n == 0 || m.view.mode == FollowTail then m.view
    else
      var total := m.lineCount;
      var lastTop := LastPage(total, Viewport(m.view, n, total));
      var idx := Resolve(Lines(m), m.view.anchor).value + n;
      if lastTop == 0 || idx >= lastTop then Followed(m.view) else AnchoredAt(m, m.view, idx)
  }

  // ---- The model itself ----

  /** The doubling loop of display_model_ensure_capacity. */
  function Grown(capacity: nat, needed: nat): (r: Option<nat>)
    requires capacity > 0
    ensures r.Some? ==> needed <= r.value && capacity <= r.value
    decreases needed - capacity
  {
    if capacity >= needed then Some(capacity)
    else if capacity > SIZE_MAX / 2 then None
    else Grown(2 * capacity, needed)
  }

  /** The size asked for when a store of the given capacity has to hold more lines. */
  function GrownSize(capacity: nat, needed: nat): (r: Option<nat>) {
    Grown(if capacity == 0 then INITIAL_CAPACITY else capacity, needed)
  }

  const BLANK := DisplayLine(0, 0, [])

  class Display {
    var storage: seq<DisplayLine>
    var lineCount: nat
    var lineCapacity: nat
    var layoutWidth: nat
    var dirty: bool
    var view: View

    ghost predicate Valid()
      reads this
    {
      lineCount <= lineCapacity == |storage|
    }

    ghost function State(): (m: Model)
      requires Valid()
      reads this
    {
      Model(storage, lineCount, view)
    }

    /** display_model_init; granted says whether storage could be allocated. */
    method Init(initialCapacity: nat, granted: bool) returns (ok: bool)
      modifies this
      ensures Valid() && Lines(State()) == [] && view == TAIL_VIEW
      ensures ok == granted && lineCapacity == if !ok then 0 else if initialCapacity == 0 then 64 else initialCapacity
    {
      storage, lineCapacity, lineCount, layoutWidth, dirty, view := [], 0, 0, 0, false, TAIL_VIEW;
      if !granted {
        return false;
      }
      var capacity := if initialCapacity == 0 then INITIAL_CAPACITY else initialCapacity;
      storage := seq(capacity, _ => BLANK);
      lineCapacity := capacity;
      return true;
    }

    /** display_model_ensure_capacity; resizable says which sizes the allocator grants. */
    method EnsureCapacity(needed: nat, resizable: nat -> bool) returns (ok: bool)
      requires Valid()
      modifies this`storage, this`lineCapacity
      ensures Valid() && Lines(State()) == old(Lines(State()))
      ensures ok ==> needed <= lineCapacity
      ensures var size := GrownSize(old(lineCapacity), needed);
              && (ok <==> needed <= old(lineCapacity) || (size.Some? && resizable(size.value)))
              && lineCapacity == if ok && needed > old(lineCapacity) then size.value else old(lineCapacity)
    {
      if lineCapacity >= needed {
        return true;
      }
      var newCap := if lineCapacity == 0 then INITIAL_CAPACITY else lineCapacity;
      ghost var start := newCap;
      while newCap < needed
        invariant 0 < newCap && lineCapacity <= newCap && Grown(start, needed) == Grown(newCap, needed)
      {
        if newCap > SIZE_MAX / 2 {
          return false;
        }
        newCap := newCap * 2;
      }
      if !resizable(newCap) {
        return false;
      }
      storage := storage + seq(newCap - lineCapacity, _ => BLANK);
      lineCapacity := newCap;
      return true;
    }

    /** Wrap one message and copy its lines behind the others. */
    method AddLines(m: Message, width: nat, resizable: nat -> bool) returns (ok: bool)
      requires Valid()
      modifies this`storage, this`lineCapacity, this`lineCount
      ensures Valid()
      ensures Lines(State()) == old(Lines(State())) + if ok then WrapMessage(m, width) else []
    {
      var wrapped := WrapLine(m.text, width, m.id, WRAP_LIMIT);
      ok := EnsureCapacity(lineCount + |wrapped|, resizable);
      if ok {
        storage := storage[..lineCount] + wrapped + storage[lineCount + |wrapped|..];
        lineCount := lineCount + |wrapped|;
      }
    }

    /** display_model_append_message: all of the message's lines, or none. */
    method AppendMessage(m: Message, width: nat, resizable: nat -> bool) returns (ok: bool)
      requires Valid()
      modifies this`storage, this`lineCapacity, this`lineCount, this`layoutWidth
      ensures Valid() && (width == 0 ==> !ok)
      ensures Lines(State()) == old(Lines(State())) + if ok then WrapMessage(m, width) else []
      ensures layoutWidth == if ok then width else old(layoutWidth)
    {
      if width == 0 {
        return false;
      }
      ok := AddLines(m, width, resizable);
      if ok {
        layoutWidth := width;
      }
    }

    /** display_model_recompute_layout: the layout of the whole log, or of the messages before the one
      * for which storage ran out. */
    method RecomputeLayout(log: seq<Message>, width: nat, resizable: nat -> bool) returns (ok: bool, ghost laid: nat)
      requires Valid()
      modifies this`storage, this`lineCapacity, this`lineCount, this`layoutWidth, this`dirty
      ensures Valid() && layoutWidth == width && laid <= |log|
      ensures Lines(State()) == if width == 0 then [] else Layout(log[..laid], width)
      ensures ok <==> width == 0 || laid == |log|
      ensures ok ==> !dirty
    {
      lineCount, layoutWidth, laid := 0, width, 0;
      if |log| == 0 || width == 0 {
        dirty := false;
        return true, 0;
      }
      for i := 0 to |log|
        invariant Valid() && layoutWidth == width && laid == i
        invariant Lines(State()) == Layout(log[..i], width)
      {
        ok := AddLines(log[i], width, resizable);
        if !ok {
          return;
        }
        PrefixGrows(log, i, width);
        laid := i + 1;
      }
      dirty := false;
      ok := true;
    }

    /** The incremental path after the full one: when both succeed, the lines are those of laying out the
      * whole longer log. */
    method RecomputeThenAppend(log: seq<Message>, m: Message, width: nat, resizable: nat -> bool) returns (ok: bool)
      requires Valid()
      modifies this`storage, this`lineCapacity, this`lineCount, this`layoutWidth, this`dirty
      ensures Valid()
      ensures ok ==> Lines(State()) == Layout(log + [m], width) && layoutWidth == width
    {
      ghost var laid;
      ok, laid := RecomputeLayout(log, width, resizable);
      if ok {
        ok := AppendMessage(m, width, resizable);
        assert log[..|log|] == log;
        LayoutOfAppend(log, m, width);
      }
    }

    /** One of the scans of display_model_resolve_anchor. */
    method FindFirst(p: DisplayLine -> bool) returns (k: nat)
      requires Valid()
      ensures k == First(Lines(State()), p)
    {
      k := 0;
      while k < lineCount && !p(storage[k])
        invariant k <= lineCount && forall j :: 0 <= j < k ==> !p(storage[j])
      {
        k := k + 1;
      }
      FirstIs(Lines(State()), p, k);
    }

    /** display_model_resolve_anchor; searchable says whether the line store can be viewed as a whole. */
    method ResolveAnchor(a: Anchor, searchable: bool) returns (r: Option<nat>)
      requires Valid()
      ensures r == if searchable then Resolve(Lines(State()), a) else None
    {
      if lineCount == 0 || !searchable {
        return None;
      }
      var k := FindFirst(IsLine(a));
      if k == lineCount {
        k := FindFirst(IsOfMessage(a.messageId));
      }
      if k == lineCount {
        k := FindFirst(IsNotOlder(a.messageId));
      }
      return Some(if k < lineCount then k else lineCount - 1);
    }

    /** display_model_compute_visible; viewable says whether the frame itself can be viewed. An anchor that
      * cannot be searched for shows the last page. */
    method ComputeVisible(height: nat, searchable: bool, viewable: bool) returns (frame: Frame)
      requires Valid()
      modifies this`view
      ensures var (lines, seen) := (old(Lines(State())), Searched(old(view), searchable));
              viewable || lines == [] || height == 0 ==>
                && frame == VisibleFrame(lines, seen, height)
                && view == Remembered(lines, seen, height).(mode := old(view).mode)
      ensures !viewable && lineCount > 0 && height > 0 ==> frame == Frame(0, 0, true, true) && view == old(view)
    {
      if lineCount == 0 || height == 0 {
        view := view.(hasLast := false, lastStart := 0, lastHeight := height);
        return Frame(0, 0, true, true);
      }
      var total := lineCount;
      if view.mode == FollowTail {
        var start := if total > height then total - height else 0;
        frame := Frame(start, total - start, true, start == 0);
      } else {
        var resolved := ResolveAnchor(view.anchor, searchable);
        var top := if resolved.Some? then resolved.value else if total > height then total - height else 0;
        if top + height > total {
          top := if total > height then total - height else 0;
        }
        var count := if total - top > height then height else total - top;
        frame := Frame(top, count, top + count >= total, top == 0);
      }
      if !viewable {
        return Frame(0, 0, true, true);
      }
      view := view.(hasLast := true, lastStart := frame.first, lastHeight := height);
    }

    /** display_model_scroll_up; viewable says whether the line scrolled to can be viewed. */
    method ScrollUp(n: nat, searchable: bool, viewable: bool)
      requires Valid()
      modifies this`view
      ensures lineCount == 0 || n == 0 ==> view == old(view)
      ensures lineCount > 0 && n > 0 ==>
                var top := UpTop(old(State()), n, searchable);
                view == if viewable then ScrolledFrom(old(State()), top, n) else old(view).(mode := ManualScroll)
    {
      if lineCount == 0 || n == 0 {
        return;
      }
      var viewport := Viewport(view, n, lineCount);
      var current := 0;
      if view.mode == FollowTail {
        view := view.(mode := ManualScroll);
        if view.hasLast {
          current := view.lastStart;
        } else if lineCount > viewport {
          current := lineCount - viewport;
        }
      } else {
        var resolved := ResolveAnchor(view.anchor, searchable);
        current := if resolved.Some? then resolved.value else if lineCount > viewport then lineCount - viewport else 0;
      }
      current := if current >= n then current - n else 0;
      if viewable && current < |storage| {
        view := view.(anchor := Anchor(storage[current].messageId, storage[current].subline));
      }
    }

    /** display_model_scroll_down; whatever cannot be viewed makes it follow the tail. */
    method ScrollDown(n: nat, searchable: bool, viewable: bool)
      requires Valid()
      modifies this`view
      ensures view == if lineCount == 0 || n == 0 || old(view).mode == FollowTail then old(view)
                      else if searchable && viewable then ScrolledDown(old(State()), n)
                      else Followed(old(view))
    {
      if lineCount == 0 || n == 0 || view.mode == FollowTail {
        return;
      }
      var resolved := ResolveAnchor(view.anchor, searchable);
      var viewport := Viewport(view, n, lineCount);
      if resolved.None? {
        FollowTailNow();
        return;
      }
      var lastTop := if lineCount > viewport then lineCount - viewport else 0;
      var next := resolved.value + n;
      if lastTop == 0 || next >= lastTop || !viewable {
        FollowTailNow();
      } else {
        view := view.(anchor := Anchor(storage[next].messageId, storage[next].subline));
      }
    }

    /** display_model_follow_tail */
    method FollowTailNow()
      modifies this`view
      ensures view == Followed(old(view))
    {
      view := View(FollowTail, Anchor(0, 0), 0, view.lastHeight, false);
    }
  }
}
