/** What a frame shows, what is remembered of it, and how far the line store grows (src/display_model.c). */
module Frames {
  import opened Wrapping
  import opened Options
  import opened DisplayModel

  /** n is the smaller of a and b. */
  predicate Smaller(n: nat, a: nat, b: nat) {
    n <= a && n <= b && (n == a || n == b)
  }

  /** A frame is as long as the lines and the height allow. It starts at the anchored line, or ends at the tail
    * when the tail is followed or the page would run past it; the flags say at which end it is. */
  lemma FrameMeans(lines: seq<DisplayLine>, view: View, height: nat, f: Frame)
    requires f == VisibleFrame(lines, view, height)
    ensures Smaller(f.count, |lines|, height) && f.first + f.count <= |lines|
    ensures f.atHead <==> f.first == 0
    ensures f.atTail <==> height == 0 || f.first + f.count == |lines|
    ensures height > 0 && view.mode == FollowTail ==> f.atTail
    ensures height > 0 && view.mode == ManualScroll && lines != [] ==>
              var top := Resolve(lines, view.anchor).value;
              if top + height <= |lines| then f.first == top else f.atTail
  {
  }

  /** A frame that shows a line is remembered with its start, an empty one is forgotten; the height is kept. */
  lemma RememberedMeans(lines: seq<DisplayLine>, view: View, height: nat, v: View)
    requires v == Remembered(lines, view, height)
    ensures v.mode == view.mode && v.anchor == view.anchor && v.lastHeight == height
    ensures v.hasLast <==> lines != [] && height > 0
    ensures v.lastStart == VisibleFrame(lines, view, height).first
  {
  }

  /** The page length that scrolling goes by: the last height, or before any frame the lines to scroll. */
  lemma ViewportMeans(view: View, n: nat, total: nat)
    requires n > 0
    ensures Smaller(Viewport(view, n, total), if view.lastHeight == 0 then n else view.lastHeight, total)
  {
  }

  /** Following the tail again forgets the anchor and the frame, but not the height. */
  lemma FollowedMeans(lines: seq<DisplayLine>, view: View, height: nat, n: nat)
    ensures VisibleFrame(lines, Followed(view), height) == VisibleFrame(lines, view.(mode := FollowTail), height)
    ensures Viewport(Followed(view), n, |lines|) == Viewport(view, n, |lines|)
    ensures Followed(view).mode == FollowTail && !Followed(view).hasLast
  {
  }

  /** Scrolling up without being able to search for the anchor is scrolling up from the tail with no frame
    * remembered; from the tail nothing is searched for. */
  lemma UpWithoutSearch(m: Model, n: nat)
    requires 0 < m.lineCount <= |m.storage| && n > 0
    ensures m.view.mode == FollowTail ==> ScrolledFrom(m, UpTop(m, n, false), n) == ScrolledUp(m, n)
    ensures m.view.mode == ManualScroll ==>
              ScrolledFrom(m, UpTop(m, n, false), n) ==
              ScrolledUp(m.(view := m.view.(mode := FollowTail, hasLast := false)), n).(hasLast := m.view.hasLast)
    ensures ScrolledFrom(m, UpTop(m, n, true), n) == ScrolledUp(m, n)
  {
  }

  /** The largest size a request can name. */
  const LARGEST := 18446744073709551615

  function Doubled(capacity: nat, k: nat): (r: nat)
    decreases k
  {
    if k == 0 then capacity else Doubled(2 * capacity, k - 1)
  }

  lemma {:induction false} DoubledGrows(capacity: nat, k: nat)
    ensures capacity <= Doubled(capacity, k)
    decreases k
  {
    if k > 0 {
      DoubledGrows(2 * capacity, k - 1);
    }
  }

  /** k is the first number of doublings that is enough. */
  ghost predicate FirstEnough(capacity: nat, needed: nat, k: nat) {
    needed <= Doubled(capacity, k) && forall j: nat :: j < k ==> Doubled(capacity, j) < needed
  }

  lemma OneMoreDoubling(capacity: nat, needed: nat, k: nat)
    requires capacity < needed && FirstEnough(2 * capacity, needed, k)
    ensures FirstEnough(capacity, needed, k + 1)
  {
    forall j: nat | j < k + 1 ensures Doubled(capacity, j) < needed {
      if j > 0 {
        assert Doubled(2 * capacity, j - 1) < needed;
      }
    }
  }

  /** The line store grows to the first doubling of its capacity that is large enough, and is refused exactly
    * when that one is past the largest size. */
  lemma {:induction false} GrownExactly(capacity: nat, needed: nat) returns (k: nat)
    requires 0 < capacity
    ensures FirstEnough(capacity, needed, k)
    ensures Grown(capacity, needed) ==
            if needed <= capacity || Doubled(capacity, k) <= LARGEST then Some(Doubled(capacity, k)) else None
    decreases needed - capacity
  {
    if needed <= capacity {
      return 0;
    }
    var rest := GrownExactly(2 * capacity, needed);
    k := rest + 1;
    OneMoreDoubling(capacity, needed, rest);
    DoubledGrows(2 * capacity, rest);
  }
}
