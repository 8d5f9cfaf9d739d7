/** What the display model promises about anchors and paging (include/ssh_chatter/display_model.h). */
module Scrolling {
  import opened Bytes
  import opened Wrapping
  import opened DisplayModel
  import opened Options
  import opened Searching

  // ---- The stable anchor ----

  lemma NowhereInConcat(lines: seq<DisplayLine>, more: seq<DisplayLine>, p: DisplayLine -> bool)
    requires First(lines, p) == |lines| && forall k :: 0 <= k < |more| ==> !p(more[k])
    ensures First(lines + more, p) == |lines + more|
  {
    FirstIs(lines + more, p, |lines + more|);
  }

  /** A line no older than the anchored message is there: the anchor has not run off the end of the log. */
  predicate Held(lines: seq<DisplayLine>, a: Anchor) {
    First(lines, IsNotOlder(a.messageId)) < |lines|
  }

  /** Lines appended later do not move what an anchor resolves to as long as some line is no older than
    * its message, and either the anchored line itself is there or they belong to other messages. */
  lemma ResolveKeeps(lines: seq<DisplayLine>, more: seq<DisplayLine>, a: Anchor)
    requires Held(lines, a)
    requires First(lines, IsLine(a)) < |lines| ||
             forall k :: 0 <= k < |more| ==> more[k].messageId != a.messageId
    ensures Resolve(lines + more, a) == Resolve(lines, a)
  {
    if First(lines, IsLine(a)) < |lines| {
      FirstOfConcat(lines, more, IsLine(a));
    } else {
      NowhereInConcat(lines, more, IsLine(a));
      if First(lines, IsOfMessage(a.messageId)) < |lines| {
        FirstOfConcat(lines, more, IsOfMessage(a.messageId));
      } else {
        NowhereInConcat(lines, more, IsOfMessage(a.messageId));
        FirstOfConcat(lines, more, IsNotOlder(a.messageId));
      }
    }
  }

  /** An anchor newer than every line resolves to the last of them, and to a later one as soon as there
    * is one. */
  lemma RunOffResolves(lines: seq<DisplayLine>, more: seq<DisplayLine>, a: Anchor)
    requires !Held(lines, a) && lines != []
    ensures Resolve(lines, a) == Some(|lines| - 1)
    ensures more != [] ==> Resolve(lines + more, a).value >= |lines|
  {
    var all := lines + more;
    forall k | 0 <= k < |lines|
      ensures !IsNotOlder(a.messageId)(all[k]) && !IsLine(a)(all[k]) && !IsOfMessage(a.messageId)(all[k])
    {
      assert all[k] == lines[k];
    }
    FirstIs(lines, IsLine(a), |lines|);
    FirstIs(lines, IsOfMessage(a.messageId), |lines|);
  }

  /** A new message and the width it is wrapped to. */
  datatype Arrival = Arrival(message: Message, width: nat)

  /** The lines after a run of arrivals, each appended as display_model_append_message does. */
  function AfterArrivals(lines: seq<DisplayLine>, arrivals: seq<Arrival>): (r: seq<DisplayLine>)
    decreases |arrivals|
  {
    if arrivals == [] then lines
    else AfterArrivals(lines + WrapMessage(arrivals[0].message, arrivals[0].width), arrivals[1..])
  }

  function ArrivalsAt(messages: seq<Message>, width: nat): (arrivals: seq<Arrival>) {
    seq(|messages|, i requires 0 <= i < |messages| => Arrival(messages[i], width))
  }

  lemma FirstArrival(lines: seq<DisplayLine>, messages: seq<Message>, width: nat)
    requires messages != []
    ensures AfterArrivals(lines, ArrivalsAt(messages, width))
         == AfterArrivals(lines + WrapMessage(messages[0], width), ArrivalsAt(messages[1..], width))
  {
    assert ArrivalsAt(messages, width)[1..] == ArrivalsAt(messages[1..], width);
  }

  lemma MoveFirst(log: seq<Message>, more: seq<Message>)
    requires more != []
    ensures log + [more[0]] + more[1..] == log + more
  {
  }

  /** Any number of appends gives exactly the full layout of the longer log. */
  lemma {:induction false} ArrivalsAreLayout(log: seq<Message>, more: seq<Message>, width: nat)
    ensures AfterArrivals(Layout(log, width), ArrivalsAt(more, width)) == Layout(log + more, width)
    decreases |more|
  {
    if more == [] {
      assert log + more == log;
    } else {
      LayoutOfAppend(log, more[0], width);
      FirstArrival(Layout(log, width), more, width);
      ArrivalsAreLayout(log + [more[0]], more[1..], width);
      MoveFirst(log, more);
    }
  }

  lemma MessageLinesTagged(m: Message, width: nat)
    ensures forall k :: 0 <= k < |WrapMessage(m, width)| ==> WrapMessage(m, width)[k].messageId == m.id
  {
    if width > 0 {
      WrapNumbered(m.text, width, m.id, WRAP_LIMIT);
    }
  }

  lemma {:induction false} ArrivalsAppend(lines: seq<DisplayLine>, arrivals: seq<Arrival>, id: nat)
    returns (more: seq<DisplayLine>)
    requires forall i :: 0 <= i < |arrivals| ==> arrivals[i].message.id != id
    ensures AfterArrivals(lines, arrivals) == lines + more
    ensures forall k :: 0 <= k < |more| ==> more[k].messageId != id
    decreases |arrivals|
  {
    if arrivals == [] {
      more := [];
    } else {
      var own := WrapMessage(arrivals[0].message, arrivals[0].width);
      MessageLinesTagged(arrivals[0].message, arrivals[0].width);
      var rest := ArrivalsAppend(lines + own, arrivals[1..], id);
      more := own + rest;
      Associate(lines, own, rest);
    }
  }

  lemma SliceOfConcat(lines: seq<DisplayLine>, more: seq<DisplayLine>, lo: nat, hi: nat)
    requires lo <= hi <= |lines|
    ensures (lines + more)[lo..hi] == lines[lo..hi]
  {
  }

  /** A frame that is not clamped to the tail depends on the anchor's line alone. */
  lemma FrameOfAnchor(lines: seq<DisplayLine>, view: View, height: nat)
    requires view.mode == ManualScroll && height > 0 && lines != []
    requires Resolve(lines, view.anchor).value + height <= |lines|
    ensures VisibleFrame(lines, view, height).first == Resolve(lines, view.anchor).value
    ensures VisibleFrame(lines, view, height).count == height
  {
  }

  /** The two frames show the same lines at the same place. */
  predicate SameFrame(lines: seq<DisplayLine>, after: seq<DisplayLine>, view: View, height: nat) {
    var (f, g) := (VisibleFrame(lines, view, height), VisibleFrame(after, view, height));
    && g.first == f.first && g.count == f.count
    && after[g.first..g.first + g.count] == lines[f.first..f.first + f.count]
  }

  lemma ConcatKeepsFrame(lines: seq<DisplayLine>, more: seq<DisplayLine>, view: View, height: nat)
    requires view.mode == ManualScroll && height > 0 && lines != []
    requires Resolve(lines, view.anchor).value + height <= |lines|
    requires Resolve(lines + more, view.anchor) == Resolve(lines, view.anchor)
    ensures SameFrame(lines, lines + more, view, height)
  {
    FrameOfAnchor(lines, view, height);
    FrameOfAnchor(lines + more, view, height);
    var top := Resolve(lines, view.anchor).value;
    SliceOfConcat(lines, more, top, top + height);
  }

  /** In manual mode no arrival moves the screen: while the anchored page lies inside the log, the frame
    * after any run of arrivals of other messages starts at the same line and shows the same lines. */
  lemma ArrivalsDoNotMoveFrame(lines: seq<DisplayLine>, view: View, height: nat, arrivals: seq<Arrival>)
    requires view.mode == ManualScroll && height > 0 && lines != []
    requires Resolve(lines, view.anchor).value + height <= |lines| && Held(lines, view.anchor)
    requires forall i :: 0 <= i < |arrivals| ==> arrivals[i].message.id != view.anchor.messageId
    ensures SameFrame(lines, AfterArrivals(lines, arrivals), view, height)
  {
    var more := ArrivalsAppend(lines, arrivals, view.anchor.messageId);
    ResolveKeeps(lines, more, view.anchor);
    ConcatKeepsFrame(lines, more, view, height);
  }

  lemma RunOffMoves(lines: seq<DisplayLine>, more: seq<DisplayLine>, view: View, height: nat)
    requires view.mode == ManualScroll && height > 0 && lines != [] && more != []
    requires Resolve(lines, view.anchor).value + height <= |lines| && !Held(lines, view.anchor)
    ensures !SameFrame(lines, lines + more, view, height)
  {
    RunOffResolves(lines, more, view.anchor);
    FrameOfAnchor(lines, view, height);
    FrameOfAnchor(lines + more, view, height);
  }

  /** The exact condition: a run of arrivals of other messages leaves the frame alone if and only if some
    * line is no older than the anchored message, or the run adds no line. */
  lemma FrameStaysExactly(lines: seq<DisplayLine>, view: View, height: nat, arrivals: seq<Arrival>)
    requires view.mode == ManualScroll && height > 0 && lines != []
    requires Resolve(lines, view.anchor).value + height <= |lines|
    requires forall i :: 0 <= i < |arrivals| ==> arrivals[i].message.id != view.anchor.messageId
    ensures SameFrame(lines, AfterArrivals(lines, arrivals), view, height) <==>
            Held(lines, view.anchor) || AfterArrivals(lines, arrivals) == lines
  {
    var more := ArrivalsAppend(lines, arrivals, view.anchor.messageId);
    if Held(lines, view.anchor) {
      ArrivalsDoNotMoveFrame(lines, view, height, arrivals);
    } else if more == [] {
      assert lines + more == lines;
    } else {
      RunOffMoves(lines, more, view, height);
    }
  }

  /** What an anchor resolves to: its own line, else the first line of its message, else the first line of a
    * later message, else the last line. */
  lemma ResolveMeans(lines: seq<DisplayLine>, a: Anchor, k: nat)
    requires lines != []
    ensures var (r, line) := (Resolve(lines, a).value, lines[Resolve(lines, a).value]);
            && (k < |lines| && lines[k].messageId == a.messageId && lines[k].subline == a.subline ==>
                  r <= k && line.messageId == a.messageId && line.subline == a.subline)
            && (k < |lines| && lines[k].messageId == a.messageId ==>
                  line.messageId == a.messageId && (line.subline == a.subline || r <= k))
            && (k < |lines| && lines[k].messageId >= a.messageId ==>
                  line.messageId >= a.messageId && (line.messageId == a.messageId || r <= k))
            && (line.messageId < a.messageId ==> r == |lines| - 1)
  {
    if k < |lines| {
      assert IsLine(a)(lines[k]) <==> lines[k].messageId == a.messageId && lines[k].subline == a.subline;
      assert IsOfMessage(a.messageId)(lines[k]) <==> lines[k].messageId == a.messageId;
      assert IsNotOlder(a.messageId)(lines[k]) <==> lines[k].messageId >= a.messageId;
    }
  }

  /** The lines of the first messages stay where they are when more follow. */
  lemma {:induction false} LayoutPrefix(log: seq<Message>, width: nat, n: nat)
    requires n <= |log|
    ensures Layout(log[..n], width) <= Layout(log, width)
    decreases |log|
  {
    if n == |log| {
      assert log[..n] == log;
    } else {
      LayoutPrefix(log[..|log| - 1], width, n);
      assert log[..|log| - 1][..n] == log[..n];
    }
  }

  /** Subline s of message m stands where the earlier messages leave it. */
  lemma LinePlaced(log: seq<Message>, width: nat, m: nat, s: nat) returns (k: nat)
    requires width > 0 && m < |log| && s < |WrapMessage(log[m], width)|
    ensures k == |Layout(log[..m], width)| + s < |Layout(log, width)|
    ensures Layout(log, width)[k].messageId == log[m].id && Layout(log, width)[k].subline == s
  {
    WrapNumbered(log[m].text, width, log[m].id, WRAP_LIMIT);
    LayoutPrefix(log, width, m + 1);
    PrefixGrows(log, m, width);
    k := |Layout(log[..m], width)| + s;
  }

  /** And where a line of the message stands. */
  lemma LineOfMessage(log: seq<Message>, width: nat, m: nat, k: nat)
    requires width > 0 && DistinctIds(log) && m < |log| && k < |Layout(log, width)|
    requires Layout(log, width)[k].messageId == log[m].id
    ensures k == |Layout(log[..m], width)| + Layout(log, width)[k].subline
    ensures Layout(log, width)[k].subline < |WrapMessage(log[m], width)|
  {
    var m', s := LayoutGrouped(log, width, k);
    assert m' == m;
  }

  lemma MessageHasLine(log: seq<Message>, width: nat, m: nat)
    requires width > 0 && m < |log|
    ensures |WrapMessage(log[m], width)| > 0
  {
    WrapNumbered(log[m].text, width, log[m].id, WRAP_LIMIT);
  }

  /** The lines with this message id are the n lines from start on, numbered from 0. */
  ghost predicate MessageLines(lines: seq<DisplayLine>, id: nat, start: nat, n: nat) {
    && 0 < n && start + n <= |lines|
    && (forall k :: start <= k < start + n ==> lines[k].messageId == id && lines[k].subline == k - start)
    && forall k :: 0 <= k < |lines| && lines[k].messageId == id ==> start <= k < start + n
  }

  lemma ResolveInMessage(lines: seq<DisplayLine>, a: Anchor, start: nat, n: nat)
    requires MessageLines(lines, a.messageId, start, n)
    ensures Resolve(lines, a) == Some(start + if a.subline < n then a.subline else 0)
  {
    ResolveMeans(lines, a, start + if a.subline < n then a.subline else 0);
  }

  /** The lines of a layout, and where the lines of message m start and how many they are. */
  lemma LayoutHasMessage(log: seq<Message>, width: nat, m: nat) returns (lines: seq<DisplayLine>, start: nat, n: nat)
    requires width > 0 && DistinctIds(log) && m < |log|
    ensures lines == Layout(log, width) && start == |Layout(log[..m], width)| && n == |WrapMessage(log[m], width)|
    ensures MessageLines(lines, log[m].id, start, n)
  {
    lines, start, n := Layout(log, width), |Layout(log[..m], width)|, |WrapMessage(log[m], width)|;
    OwnLines(log, width, m, lines, start, n);
    NoOtherLines(log, width, m, lines, start, n);
  }

  lemma OwnLines(log: seq<Message>, width: nat, m: nat, lines: seq<DisplayLine>, start: nat, n: nat)
    requires width > 0 && m < |log|
    requires lines == Layout(log, width) && start == |Layout(log[..m], width)| && n == |WrapMessage(log[m], width)|
    ensures 0 < n && start + n <= |lines|
    ensures forall k :: start <= k < start + n ==> lines[k].messageId == log[m].id && lines[k].subline == k - start
  {
    MessageHasLine(log, width, m);
    var last := LinePlaced(log, width, m, n - 1);
    forall k | start <= k < start + n
      ensures lines[k].messageId == log[m].id && lines[k].subline == k - start
    {
      var k' := LinePlaced(log, width, m, k - start);
    }
  }

  lemma NoOtherLines(log: seq<Message>, width: nat, m: nat, lines: seq<DisplayLine>, start: nat, n: nat)
    requires width > 0 && DistinctIds(log) && m < |log|
    requires lines == Layout(log, width) && start == |Layout(log[..m], width)| && n == |WrapMessage(log[m], width)|
    ensures forall k :: 0 <= k < |lines| && lines[k].messageId == log[m].id ==> start <= k < start + n
  {
    forall k | 0 <= k < |lines| && lines[k].messageId == log[m].id
      ensures start <= k < start + n
    {
      LineOfMessage(log, width, m, k);
    }
  }

  /** After laying the log out again, at any width, an anchor of a message in the log resolves to its own
    * subline if the message still has so many, and to the first line of the message otherwise. */
  lemma RelayoutExactly(log: seq<Message>, width: nat, a: Anchor, m: nat)
    returns (lines: seq<DisplayLine>, start: nat, n: nat)
    requires width > 0 && DistinctIds(log) && m < |log| && log[m].id == a.messageId
    ensures lines == Layout(log, width) && start == |Layout(log[..m], width)| && n == |WrapMessage(log[m], width)|
    ensures Resolve(lines, a) == Some(start + if a.subline < n then a.subline else 0)
  {
    lines, start, n := LayoutHasMessage(log, width, m);
    ResolveInMessage(lines, a, start, n);
  }

  /** Laying the log out again, at any width, keeps the anchor on its message while that is in the log. */
  lemma RelayoutKeepsMessage(log: seq<Message>, width: nat, a: Anchor, m: nat)
    requires width > 0 && m < |log| && log[m].id == a.messageId
    ensures var lines := Layout(log, width);
            lines != [] && lines[Resolve(lines, a).value].messageId == a.messageId
  {
    var lines := Layout(log, width);
    var k := MessageShown(log, width, m);
    assert IsOfMessage(a.messageId)(lines[k]);
  }

  /** Every message of the log has a line. */
  lemma {:induction false} MessageShown(log: seq<Message>, width: nat, m: nat) returns (k: nat)
    requires width > 0 && m < |log|
    ensures k < |Layout(log, width)| && Layout(log, width)[k].messageId == log[m].id
    decreases |log|
  {
    var n := |log| - 1;
    WrapNumbered(log[n].text, width, log[n].id, WRAP_LIMIT);
    if m == n {
      k := |Layout(log[..n], width)|;
    } else {
      k := MessageShown(log[..n], width, m);
    }
  }

  // ---- Distinct lines ----

  /** No two lines carry the same message id and subline. */
  predicate DistinctLines(lines: seq<DisplayLine>) {
    forall i, j :: 0 <= i < j < |lines| ==>
      lines[i].messageId != lines[j].messageId || lines[i].subline != lines[j].subline
  }

  lemma LayoutDistinct(log: seq<Message>, width: nat)
    requires width > 0 && DistinctIds(log)
    ensures DistinctLines(Layout(log, width))
  {
    var lines := Layout(log, width);
    forall i, j | 0 <= i < j < |lines|
      ensures lines[i].messageId != lines[j].messageId || lines[i].subline != lines[j].subline
    {
      var m, s := LayoutGrouped(log, width, i);
      var m', s' := LayoutGrouped(log, width, j);
    }
  }

  function Key(line: DisplayLine): Anchor {
    Anchor(line.messageId, line.subline)
  }

  lemma ResolveOwnKey(lines: seq<DisplayLine>, k: nat)
    requires DistinctLines(lines) && k < |lines|
    ensures Resolve(lines, Key(lines[k])) == Some(k)
  {
  }

  // ---- Paging up from the tail ----

  /** One page up: scroll by the height of the screen, then show the frame. */
  function PageUp(m: Model, height: nat): (m': Model)
    requires m.lineCount <= |m.storage|
  {
    var scrolled := m.(view := ScrolledUp(m, height));
    scrolled.(view := Remembered(Lines(scrolled), scrolled.view, height))
  }

  function Paging(height: nat): (step: Model -> Model) {
    (m: Model) => if m.lineCount <= |m.storage| then PageUp(m, height) else m
  }

  function Repeated(step: Model -> Model, m: Model, n: nat): (m': Model) {
    if n == 0 then m else step(Repeated(step, m, n - 1))
  }

  /** Show the tail, then go up n pages. */
  function Pages(m: Model, height: nat, n: nat): (m': Model)
    requires m.lineCount <= |m.storage|
  {
    Repeated(Paging(height), m.(view := Remembered(Lines(m), Followed(m.view), height)), n)
  }

  function PageStart(total: nat, height: nat, n: nat): (top: nat) {
    if n == 0 then LastPage(total, height)
    else Above(PageStart(total, height, n - 1), height)
  }

  /** The line n lines further up, at most the head. */
  function Above(top: nat, n: nat): nat {
    if top >= n then top - n else 0
  }

  /** The screen shows the page that starts at top. */
  ghost predicate Shows(m: Model, height: nat, top: nat) {
    && top <= LastPage(m.lineCount, height) && top < m.lineCount <= |m.storage|
    && m.view.lastHeight == height && m.view.hasLast && m.view.lastStart == top
    && (m.view.mode == ManualScroll ==> m.view.anchor == Key(Lines(m)[top]))
  }

  /** The frame on screen after n pages up. */
  function PageFrame(m: Model, height: nat, n: nat): (f: Frame)
    requires m.lineCount <= |m.storage|
  {
    VisibleFrame(Lines(m), Pages(m, height, n).view, height)
  }

  lemma UpAnchors(m: Model, n: nat)
    requires 0 < m.lineCount <= |m.storage| && n > 0 && Above(CurrentTop(m, n), n) < m.lineCount
    ensures ScrolledUp(m, n) == m.view.(mode := ManualScroll, anchor := Key(Lines(m)[Above(CurrentTop(m, n), n)]))
  {
  }

  lemma ShownIsTop(m: Model, height: nat, top: nat)
    requires height > 0 && Shows(m, height, top) && DistinctLines(Lines(m))
    ensures CurrentTop(m, height) == top
  {
    if m.view.mode == ManualScroll {
      ResolveOwnKey(Lines(m), top);
    }
  }

  /** The frame of an anchor no lower than the last page starts at the anchored line. */
  lemma AnchoredFrame(lines: seq<DisplayLine>, view: View, height: nat, k: nat)
    requires DistinctLines(lines) && k < |lines| && k <= LastPage(|lines|, height) && height > 0
    requires view.mode == ManualScroll && view.anchor == Key(lines[k])
    ensures VisibleFrame(lines, view, height).first == k
  {
    ResolveOwnKey(lines, k);
  }

  lemma PageUpShows(m: Model, height: nat, top: nat)
    requires height > 0 && Shows(m, height, top) && DistinctLines(Lines(m))
    ensures Shows(PageUp(m, height), height, Above(top, height))
    ensures Lines(PageUp(m, height)) == Lines(m) && PageUp(m, height).view.mode == ManualScroll
  {
    ShownIsTop(m, height, top);
    UpAnchors(m, height);
    AnchoredFrame(Lines(m), ScrolledUp(m, height), height, Above(top, height));
  }

  /** A step that shows, for every screen of these lines, the page above. */
  ghost predicate GoesUp(step: Model -> Model, lines: seq<DisplayLine>, height: nat) {
    forall m, top {:trigger step(m), Above(top, height)} :: Shows(m, height, top) && Lines(m) == lines ==>
      && Shows(step(m), height, Above(top, height))
      && Lines(step(m)) == lines
      && step(m).view.mode == ManualScroll
  }

  lemma PagingGoesUp(lines: seq<DisplayLine>, height: nat) returns (step: Model -> Model)
    requires height > 0 && DistinctLines(lines)
    ensures step == Paging(height) && GoesUp(step, lines, height)
  {
    step := Paging(height);
    forall m, top | Shows(m, height, top) && Lines(m) == lines
      ensures Shows(step(m), height, Above(top, height))
      ensures Lines(step(m)) == lines && step(m).view.mode == ManualScroll
    {
      PageUpShows(m, height, top);
    }
  }

  lemma {:induction false} RepeatedShows(step: Model -> Model, m: Model, lines: seq<DisplayLine>, height: nat, n: nat)
    requires GoesUp(step, lines, height) && m.view.mode == FollowTail
    requires Shows(m, height, LastPage(|lines|, height)) && Lines(m) == lines
    ensures Shows(Repeated(step, m, n), height, PageStart(|lines|, height, n))
    ensures Lines(Repeated(step, m, n)) == lines
    ensures Repeated(step, m, n).view.mode == if n == 0 then FollowTail else ManualScroll
  {
    if n == 0 {
    } else {
      RepeatedShows(step, m, lines, height, n - 1);
    }
  }

  lemma TailShows(m: Model, height: nat) returns (shown: Model)
    requires height > 0 && 0 < m.lineCount <= |m.storage|
    ensures shown == m.(view := Remembered(Lines(m), Followed(m.view), height))
    ensures Shows(shown, height, LastPage(m.lineCount, height))
    ensures Lines(shown) == Lines(m) && shown.view.mode == FollowTail
  {
    shown := m.(view := Remembered(Lines(m), Followed(m.view), height));
  }

  /** What the screen shows after n pages up. */
  lemma PagesShow(m: Model, height: nat, n: nat)
    requires height > 0 && 0 < m.lineCount <= |m.storage| && DistinctLines(Lines(m))
    ensures Shows(Pages(m, height, n), height, PageStart(m.lineCount, height, n))
    ensures Lines(Pages(m, height, n)) == Lines(m)
    ensures Pages(m, height, n).view.mode == if n == 0 then FollowTail else ManualScroll
  {
    var tail := TailShows(m, height);
    var step := PagingGoesUp(Lines(m), height);
    RepeatedShows(step, tail, Lines(m), height, n);
  }

  /** Every page up from the tail shows a full screen, starting one screen above the one before. */
  lemma PageFrames(m: Model, height: nat, n: nat)
    requires height > 0 && 0 < m.lineCount <= |m.storage| && DistinctLines(Lines(m))
    ensures PageFrame(m, height, n).first == PageStart(m.lineCount, height, n)
    ensures PageFrame(m, height, n).count == Min(height, m.lineCount)
  {
    PagesShow(m, height, n);
    if n > 0 {
      ResolveOwnKey(Lines(m), PageStart(m.lineCount, height, n));
    }
  }

  lemma {:induction false} PageStartFalls(total: nat, height: nat, n: nat)
    requires height > 0
    ensures PageStart(total, height, n) + n <= LastPage(total, height) || PageStart(total, height, n) == 0
  {
    if n == 0 {
    } else {
      PageStartFalls(total, height, n - 1);
    }
  }

  /** After finitely many pages the head of the log is on screen. */
  lemma PagingReachesHead(m: Model, height: nat)
    requires height > 0 && 0 < m.lineCount <= |m.storage| && DistinctLines(Lines(m))
    ensures PageFrame(m, height, m.lineCount).first == 0 && PageFrame(m, height, m.lineCount).atHead
  {
    PageFrames(m, height, m.lineCount);
    PageStartFalls(m.lineCount, height, m.lineCount);
    PagesShow(m, height, m.lineCount);
    ResolveOwnKey(Lines(m), 0);
  }

  lemma {:induction false} PageWith(total: nat, height: nat, x: nat, from: nat) returns (n: nat)
    requires height > 0 && x < total && x < PageStart(total, height, from) + Min(height, total)
    ensures PageStart(total, height, n) <= x < PageStart(total, height, n) + Min(height, total)
    decreases PageStart(total, height, from)
  {
    if PageStart(total, height, from) <= x {
      n := from;
    } else {
      n := PageWith(total, height, x, from + 1);
    }
  }

  /** No line is skipped: each is on screen on some page. */
  lemma PagingCoversEveryLine(m: Model, height: nat, x: nat) returns (n: nat)
    requires height > 0 && m.lineCount <= |m.storage| && DistinctLines(Lines(m)) && x < m.lineCount
    ensures PageFrame(m, height, n).first <= x < PageFrame(m, height, n).first + PageFrame(m, height, n).count
  {
    n := PageWith(m.lineCount, height, x, 0);
    PageFrames(m, height, n);
  }

  // ---- Up and down again ----

  /** Scrolling up n lines and down n lines. */
  function UpDown(m: Model, n: nat): (m': Model)
    requires m.lineCount <= |m.storage|
  {
    var up := m.(view := ScrolledUp(m, n));
    up.(view := ScrolledDown(up, n))
  }

  lemma DownFrame(m: Model, at: nat, n: nat)
    requires 0 < m.lineCount <= |m.storage| && DistinctLines(Lines(m)) && n > 0 && m.view.lastHeight > 0
    requires m.view.mode == ManualScroll && Resolve(Lines(m), m.view.anchor) == Some(at)
    ensures VisibleFrame(Lines(m), ScrolledDown(m, n), m.view.lastHeight).first
         == Min(at + n, LastPage(m.lineCount, m.view.lastHeight))
  {
    var lastTop := LastPage(m.lineCount, m.view.lastHeight);
    if at + n < lastTop {
      assert ScrolledDown(m, n) == m.view.(anchor := Key(Lines(m)[at + n]));
      ResolveOwnKey(Lines(m), at + n);
    } else {
      assert ScrolledDown(m, n) == Followed(m.view);
    }
  }

  /** The line the anchor resolves to after scrolling up. */
  function UpLine(m: Model, n: nat): (at: nat)
    requires 0 < m.lineCount <= |m.storage|
  {
    Resolve(Lines(m), ScrolledUp(m, n).anchor).value
  }

  /** Scrolling up lands n lines above the top exactly when that line is inside the log. It is not when the
    * top remembered while following the tail lies past the end of a log that has shrunk since. */
  lemma UpLandsExactly(m: Model, n: nat)
    requires 0 < m.lineCount <= |m.storage| && DistinctLines(Lines(m)) && n > 0
    ensures UpLine(m, n) < m.lineCount
    ensures UpLine(m, n) == Above(CurrentTop(m, n), n) <==> Above(CurrentTop(m, n), n) < m.lineCount
  {
    if Above(CurrentTop(m, n), n) < m.lineCount {
      UpAnchors(m, n);
      ResolveOwnKey(Lines(m), Above(CurrentTop(m, n), n));
    }
  }

  /** Where the screen ends up after scrolling up and down again. */
  lemma UpDownTop(m: Model, n: nat)
    requires 0 < m.lineCount <= |m.storage| && DistinctLines(Lines(m)) && n > 0 && m.view.lastHeight > 0
    ensures VisibleFrame(Lines(m), UpDown(m, n).view, m.view.lastHeight).first
         == Min(UpLine(m, n) + n, LastPage(m.lineCount, m.view.lastHeight))
  {
    DownFrame(m.(view := ScrolledUp(m, n)), UpLine(m, n), n);
  }

  /** The top line a view of the model shows on a screen of the last height. */
  function TopLine(m: Model, view: View): (top: nat)
    requires m.lineCount <= |m.storage|
  {
    VisibleFrame(Lines(m), view, m.view.lastHeight).first
  }

  /** The top line on screen: the anchored one, no lower than the last page, or the last page itself. */
  lemma TopShown(m: Model, n: nat)
    requires 0 < m.lineCount <= |m.storage| && m.view.lastHeight > 0
    ensures var last := LastPage(m.lineCount, m.view.lastHeight);
            TopLine(m, m.view) == if m.view.mode == FollowTail then last else Min(CurrentTop(m, n), last)
  {
  }

  /** Scrolling up and down again shows the same top line exactly when the screen was on the last page, or
    * there were enough lines above to scroll; from the tail, when going down again reaches the last page. */
  lemma UpDownReturnsExactly(m: Model, n: nat)
    requires 0 < m.lineCount <= |m.storage| && DistinctLines(Lines(m)) && n > 0 && m.view.lastHeight > 0
    ensures var (c, last) := (CurrentTop(m, n), LastPage(m.lineCount, m.view.lastHeight));
            && (TopLine(m, UpDown(m, n).view) == TopLine(m, m.view) <==>
                if m.view.mode == FollowTail then UpLine(m, n) + n >= last else c >= last || n <= c)
            && (Above(c, n) < m.lineCount ==> UpLine(m, n) + n == Max(c, n))
  {
    UpLandsExactly(m, n);
    UpDownTop(m, n);
    TopShown(m, n);
  }
}
