/** How redraw requests accumulate between two presents. */
module RedrawGeometry {
  import opened Geometry

  datatype Mode =
    | Clean
    | Full
    | Scroll
    | Damage(rect: Rect)
    | PageInputFocus(rect: Rect)
    | DamageWithChrome(rect: Rect)
    | AddressFocusChrome
    | AddressFullTextChrome
    | AddressChrome
    | AddressTextChrome
    | NavigationStartChrome
    | StatusChrome
    | Chrome

  predicate CarriesRect(m: Mode) { m.Damage? || m.PageInputFocus? || m.DamageWithChrome? }

  predicate IsChrome(m: Mode) { !m.Clean? && !m.Full? && !m.Scroll? && !CarriesRect(m) }

  predicate IsEmpty(r: Rect) { r.width <= 0.0 || r.height <= 0.0 }

  // ---- the join of two requests ---------------------------------------------------------------------------------------

  /** The hull of two rects; an empty one contributes nothing. */
  function UnionRect(a: Rect, b: Rect): Rect {
    if IsEmpty(a) then b
    else if IsEmpty(b) then a
    else
      var x0 := if a.x < b.x then a.x else b.x;
      var y0 := if a.y < b.y then a.y else b.y;
      var x1 := if a.x + a.width < b.x + b.width then b.x + b.width else a.x + a.width;
      var y1 := if a.y + a.height < b.y + b.height then b.y + b.height else a.y + a.height;
      Rect(x0, y0, x1 - x0, y1 - y0)
  }

  predicate IsAddress(m: Mode) {
    m.AddressChrome? || m.AddressFocusChrome? || m.AddressFullTextChrome? || m.AddressTextChrome?
  }

  /** Two unlike requests for parts of the address bar stay within it; any other unlike pair is the whole chrome. */
  function CombineChrome(a: Mode, b: Mode): (r: Mode)
    requires IsChrome(a) && IsChrome(b)
    ensures IsChrome(r)
  {
    if a == b then a
    else if !IsAddress(a) || !IsAddress(b) then Chrome
    else if a.AddressChrome? || b.AddressChrome? then AddressChrome
    else AddressFullTextChrome
  }

  function Combine(current: Mode, next: Mode): Mode { CombineBy(UnionRect, current, next) }

  /** The join, for any way of taking the hull of two rects. */
  function CombineBy(hull: (Rect, Rect) -> Rect, current: Mode, next: Mode): Mode {
    if current.Clean? then next
    else if next.Clean? then current
    else if current.Scroll? then next
    else if next.Scroll? then current
    else if current.Full? || next.Full? then Full
    else if CarriesRect(current) && CarriesRect(next) then
      if current.DamageWithChrome? || next.DamageWithChrome? then DamageWithChrome(hull(current.rect, next.rect))
      else Damage(hull(current.rect, next.rect))
    else if CarriesRect(current) then DamageWithChrome(current.rect)
    else if CarriesRect(next) then DamageWithChrome(next.rect)
    else CombineChrome(current, next)
  }

  /** What a run of requests leaves to draw, starting from a clean state. */
  function Accumulated(marks: seq<Mode>): Mode {
    if |marks| == 0 then Clean else Combine(Accumulated(marks[..|marks| - 1]), marks[|marks| - 1])
  }

  lemma AccumulatedGrows(marks: seq<Mode>, mode: Mode)
    ensures Accumulated(marks + [mode]) == Combine(Accumulated(marks), mode)
  {
    assert (marks + [mode])[..|marks|] == marks;
  }

  // ---- algebra --------------------------------------------------------------------------------------------------------

  lemma UnionAssociative(a: Rect, b: Rect, c: Rect)
    ensures UnionRect(UnionRect(a, b), c) == UnionRect(a, UnionRect(b, c))
  {}

  lemma CombineAssociative(a: Mode, b: Mode, c: Mode)
    ensures Combine(Combine(a, b), c) == Combine(a, Combine(b, c))
  {
    if CarriesRect(a) && CarriesRect(b) && CarriesRect(c) {
      UnionAssociative(a.rect, b.rect, c.rect);
    }
    CombineByAssociative(UnionRect, a, b, c);
  }

  lemma CombineByAssociative(hull: (Rect, Rect) -> Rect, a: Mode, b: Mode, c: Mode)
    requires CarriesRect(a) && CarriesRect(b) && CarriesRect(c) ==>
               hull(hull(a.rect, b.rect), c.rect) == hull(a.rect, hull(b.rect, c.rect))
    ensures CombineBy(hull, CombineBy(hull, a, b), c) == CombineBy(hull, a, CombineBy(hull, b, c))
  {
    if Yields(a) || Yields(b) || Yields(c) {
      YieldingAssociative(hull, a, b, c);
    } else if IsChrome(a) && IsChrome(b) && IsChrome(c) {
      ChromeAssociative(hull, a, b, c);
    } else if a.Full? || b.Full? || c.Full? {
      FullAssociative(hull, a, b, c);
    } else {
      RectAssociative(hull, a, b, c);
    }
  }

  predicate Yields(m: Mode) { m.Clean? || m.Scroll? }

  lemma YieldingAssociative(hull: (Rect, Rect) -> Rect, a: Mode, b: Mode, c: Mode)
    requires Yields(a) || Yields(b) || Yields(c)
    ensures CombineBy(hull, CombineBy(hull, a, b), c) == CombineBy(hull, a, CombineBy(hull, b, c))
  {}

  lemma FullAssociative(hull: (Rect, Rect) -> Rect, a: Mode, b: Mode, c: Mode)
    requires !Yields(a) && !Yields(b) && !Yields(c) && (a.Full? || b.Full? || c.Full?)
    ensures CombineBy(hull, CombineBy(hull, a, b), c) == CombineBy(hull, a, CombineBy(hull, b, c))
  {}

  lemma RectAssociative(hull: (Rect, Rect) -> Rect, a: Mode, b: Mode, c: Mode)
    requires CarriesRect(a) || IsChrome(a)
    requires CarriesRect(b) || IsChrome(b)
    requires CarriesRect(c) || IsChrome(c)
    requires CarriesRect(a) || CarriesRect(b) || CarriesRect(c)
    requires CarriesRect(a) && CarriesRect(b) && CarriesRect(c) ==>
               hull(hull(a.rect, b.rect), c.rect) == hull(a.rect, hull(b.rect, c.rect))
    ensures CombineBy(hull, CombineBy(hull, a, b), c) == CombineBy(hull, a, CombineBy(hull, b, c))
  {}

  lemma ChromeAssociative(hull: (Rect, Rect) -> Rect, a: Mode, b: Mode, c: Mode)
    requires IsChrome(a) && IsChrome(b) && IsChrome(c)
    ensures CombineBy(hull, CombineBy(hull, a, b), c) == CombineBy(hull, a, CombineBy(hull, b, c))
  {
    var ab, bc := CombineChrome(a, b), CombineChrome(b, c);
    assert CombineBy(hull, a, b) == ab && CombineBy(hull, b, c) == bc;
    assert CombineBy(hull, ab, c) == CombineChrome(ab, c) && CombineBy(hull, a, bc) == CombineChrome(a, bc);
    JoinIsAssociative(a, b, c);
  }

  /** What one chrome request covers of another: the address-bar requests nest, and `Chrome` covers them all. */
  predicate ChromeBelow(a: Mode, b: Mode) {
    || a == b || b.Chrome?
    || (b.AddressChrome? && (a.AddressFullTextChrome? || a.AddressTextChrome? || a.AddressFocusChrome?))
    || (b.AddressFullTextChrome? && (a.AddressTextChrome? || a.AddressFocusChrome?))
  }

  /** The join of two chrome requests is the least that covers both. */
  lemma ChromeJoinIsLeast(a: Mode, b: Mode, upper: Mode)
    requires IsChrome(a) && IsChrome(b) && IsChrome(upper)
    ensures ChromeBelow(CombineChrome(a, b), upper) <==> ChromeBelow(a, upper) && ChromeBelow(b, upper)
  {}

  lemma JoinIsAssociative(a: Mode, b: Mode, c: Mode)
    requires IsChrome(a) && IsChrome(b) && IsChrome(c)
    ensures CombineChrome(CombineChrome(a, b), c) == CombineChrome(a, CombineChrome(b, c))
  {
    var left, right := CombineChrome(CombineChrome(a, b), c), CombineChrome(a, CombineChrome(b, c));
    JoinBelow(a, b, c, left);
    JoinBelow(a, b, c, right);
    assert ChromeBelow(left, right) && ChromeBelow(right, left);
  }

  lemma JoinBelow(a: Mode, b: Mode, c: Mode, upper: Mode)
    requires IsChrome(a) && IsChrome(b) && IsChrome(c) && IsChrome(upper)
    ensures ChromeBelow(CombineChrome(CombineChrome(a, b), c), upper)
            <==> ChromeBelow(CombineChrome(a, CombineChrome(b, c)), upper)
  {
    ChromeJoinIsLeast(a, b, upper);
    ChromeJoinIsLeast(CombineChrome(a, b), c, upper);
    ChromeJoinIsLeast(b, c, upper);
    ChromeJoinIsLeast(a, CombineChrome(b, c), upper);
  }

  lemma CleanIsIdentity(m: Mode)
    ensures Combine(Clean, m) == m && Combine(m, Clean) == m
  {}

  /** The order of two requests matters exactly when both carry an empty rect and the rects differ. */
  lemma CommutesIff(a: Mode, b: Mode)
    ensures Combine(a, b) == Combine(b, a) <==>
            !(CarriesRect(a) && CarriesRect(b) && IsEmpty(a.rect) && IsEmpty(b.rect) && a.rect != b.rect)
  {}

  /** Two empty rects that do not commute: the later one survives. */
  lemma EmptyRectsKeepOrder()
    ensures var a, b := Damage(Rect(0.0, 0.0, 0.0, 0.0)), Damage(Rect(1.0, 0.0, 0.0, 0.0));
            Combine(a, b) == b && Combine(b, a) == a && a != b
  {}

  // ---- order independence ---------------------------------------------------------------------------------------------

  predicate Solid(m: Mode) { CarriesRect(m) ==> !IsEmpty(m.rect) }

  predicate AllSolid(marks: seq<Mode>) { forall i :: 0 <= i < |marks| ==> Solid(marks[i]) }

  lemma {:induction false} AccumulatedSolid(marks: seq<Mode>)
    requires AllSolid(marks)
    ensures Solid(Accumulated(marks))
  {
    if |marks| > 0 {
      AccumulatedSolid(marks[..|marks| - 1]);
    }
  }

  /** Any one request can be moved to the end. */
  lemma {:induction false} MoveLast(marks: seq<Mode>, k: nat)
    requires AllSolid(marks) && k < |marks|
    ensures Accumulated(marks) == Combine(Accumulated(marks[..k] + marks[k + 1..]), marks[k])
  {
    var n := |marks| - 1;
    if k == n {
      assert marks[..k] + marks[k + 1..] == marks[..n];
    } else {
      var x, z, init := marks[k], marks[n], marks[..n];
      var rest := init[..k] + init[k + 1..];
      var whole := marks[..k] + marks[k + 1..];
      MoveLast(init, k);
      assert whole[|whole| - 1] == z && whole[..|whole| - 1] == rest;
      CombineAssociative(Accumulated(rest), x, z);
      CombineAssociative(Accumulated(rest), z, x);
      CommutesIff(x, z);
    }
  }

  lemma Removed(marks: seq<Mode>, k: nat)
    requires k < |marks|
    ensures multiset(marks[..k] + marks[k + 1..]) == multiset(marks) - multiset{marks[k]}
  {
    assert marks == marks[..k] + [marks[k]] + marks[k + 1..];
  }

  lemma PlaceOfLast(marks: seq<Mode>, marks': seq<Mode>) returns (k: nat)
    requires |marks| > 0 && multiset(marks) == multiset(marks')
    ensures k < |marks'| && marks'[k] == marks[|marks| - 1]
    ensures multiset(marks[..|marks| - 1]) == multiset(marks'[..k] + marks'[k + 1..])
  {
    var n := |marks| - 1;
    assert marks[n] in multiset(marks');
    k :| 0 <= k < |marks'| && marks'[k] == marks[n];
    Removed(marks, n);
    Removed(marks', k);
    assert marks[..n] + marks[n + 1..] == marks[..n];
  }

  lemma SolidAsMultiset(marks: seq<Mode>, marks': seq<Mode>)
    requires AllSolid(marks) && multiset(marks) == multiset(marks')
    ensures AllSolid(marks')
  {
    forall i | 0 <= i < |marks'| ensures Solid(marks'[i]) {
      assert marks'[i] in multiset(marks);
    }
  }

  /** Requests that carry no empty rect leave the same mode in whatever order they are made. */
  lemma {:induction false} OrderIndependent(marks: seq<Mode>, marks': seq<Mode>)
    requires AllSolid(marks) && multiset(marks) == multiset(marks')
    ensures Accumulated(marks) == Accumulated(marks')
    decreases |marks|
  {
    if |marks| == 0 {
      assert |multiset(marks')| == 0;
    } else {
      var n := |marks| - 1;
      var k := PlaceOfLast(marks, marks');
      SolidAsMultiset(marks, marks');
      MoveLast(marks', k);
      OrderIndependent(marks[..n], marks'[..k] + marks'[k + 1..]);
    }
  }

  // ---- nothing is lost ------------------------------------------------------------------------------------------------

  predicate Any(p: Mode -> bool, marks: seq<Mode>) {
    |marks| > 0 && (p(marks[|marks| - 1]) || Any(p, marks[..|marks| - 1]))
  }

  lemma {:induction false} AnyIsExists(p: Mode -> bool, marks: seq<Mode>)
    ensures Any(p, marks) <==> exists i :: 0 <= i < |marks| && p(marks[i])
  {
    if |marks| > 0 {
      var init := marks[..|marks| - 1];
      AnyIsExists(p, init);
      if i :| 0 <= i < |init| && p(init[i]) {
        assert p(marks[i]);
      }
      if i :| 0 <= i < |marks| && p(marks[i]) {
        assert i < |init| ==> p(init[i]);
      }
    }
  }

  function RectCount(marks: seq<Mode>): nat {
    if |marks| == 0 then 0
    else RectCount(marks[..|marks| - 1]) + if CarriesRect(marks[|marks| - 1]) then 1 else 0
  }

  predicate IsFull(m: Mode) { m.Full? }

  predicate AsksChrome(m: Mode) { IsChrome(m) || m.DamageWithChrome? }

  predicate IsScroll(m: Mode) { m.Scroll? }

  predicate IsFocus(m: Mode) { m.PageInputFocus? }

  /** The kind of the accumulated mode, whatever the order: `Full` wins; then a rect, with chrome when any request
      asked for chrome, still a focus change only when it is the one rect; then chrome; then a scroll. */
  lemma {:induction false} AccumulatedKind(marks: seq<Mode>)
    ensures var m := Accumulated(marks);
            if Any(IsFull, marks) then m.Full?
            else if Any(CarriesRect, marks) then
              && CarriesRect(m) && RectCount(marks) > 0
              && (m.DamageWithChrome? <==> Any(AsksChrome, marks))
              && (m.PageInputFocus? <==> !Any(AsksChrome, marks) && RectCount(marks) == 1 && Any(IsFocus, marks))
            else RectCount(marks) == 0
                 && (if Any(AsksChrome, marks) then IsChrome(m)
                     else m == if Any(IsScroll, marks) then Scroll else Clean)
  {
    if |marks| > 0 {
      AccumulatedKind(marks[..|marks| - 1]);
      FocusIsRect(marks[..|marks| - 1]);
    }
  }

  lemma {:induction false} FocusIsRect(marks: seq<Mode>)
    ensures Any(IsFocus, marks) ==> Any(CarriesRect, marks)
  {
    if |marks| > 0 {
      FocusIsRect(marks[..|marks| - 1]);
    }
  }

  /** Among chrome requests, the accumulated one is the least that covers each of them. */
  lemma {:induction false} AccumulatedChromeIsLeast(marks: seq<Mode>, upper: Mode)
    requires |marks| > 0 && forall i :: 0 <= i < |marks| ==> IsChrome(marks[i])
    requires IsChrome(upper)
    ensures IsChrome(Accumulated(marks))
    ensures ChromeBelow(Accumulated(marks), upper) <==> forall i :: 0 <= i < |marks| ==> ChromeBelow(marks[i], upper)
  {
    var n := |marks| - 1;
    if n > 0 {
      AccumulatedChromeIsLeast(marks[..n], upper);
      var was, x := Accumulated(marks[..n]), marks[n];
      ChromeJoinIsLeast(was, x, upper);
      assert (forall i :: 0 <= i < |marks[..n]| ==> ChromeBelow(marks[..n][i], upper))
         <==> forall i :: 0 <= i < n ==> ChromeBelow(marks[i], upper);
    } else {
      assert marks[..n] == [];
    }
  }

  /** Every pixel a request asked to repaint is in the accumulated rect, unless everything is repainted. */
  lemma {:induction false} NoDamageLost(marks: seq<Mode>, k: nat, x: int, y: int)
    requires k < |marks| && CarriesRect(marks[k]) && CoversPixel(marks[k].rect, x, y)
    ensures var m := Accumulated(marks); m.Full? || (CarriesRect(m) && CoversPixel(m.rect, x, y))
  {
    var n := |marks| - 1;
    var was, last := Accumulated(marks[..n]), marks[n];
    if k < n {
      NoDamageLost(marks[..n], k, x, y);
      if CarriesRect(was) && CarriesRect(last) { UnionCovers(was.rect, last.rect, x, y); }
    } else if CarriesRect(was) {
      UnionCovers(was.rect, last.rect, x, y);
    }
  }

  lemma UnionCovers(a: Rect, b: Rect, x: int, y: int)
    requires CoversPixel(a, x, y) || CoversPixel(b, x, y)
    ensures CoversPixel(UnionRect(a, b), x, y)
  {}

  /** The accumulated rect holds every marked rect and is the smallest that does. */
  lemma {:induction false} AccumulatedRectIsHull(marks: seq<Mode>, outer: Rect)
    requires AllSolid(marks) && CarriesRect(Accumulated(marks))
    ensures RectContainsRect(outer, Accumulated(marks).rect) <==>
            forall k :: 0 <= k < |marks| && CarriesRect(marks[k]) ==> RectContainsRect(outer, marks[k].rect)
  {
    var n := |marks| - 1;
    var was, last := Accumulated(marks[..n]), marks[n];
    AccumulatedSolid(marks[..n]);
    assert forall k :: 0 <= k < n ==> marks[..n][k] == marks[k];
    if CarriesRect(was) {
      AccumulatedRectIsHull(marks[..n], outer);
      if CarriesRect(last) { HullBound(was.rect, last.rect, outer); }
    } else {
      NoRectSoFar(marks[..n]);
    }
  }

  lemma HullBound(a: Rect, b: Rect, outer: Rect)
    requires !IsEmpty(a) && !IsEmpty(b)
    ensures RectContainsRect(outer, UnionRect(a, b)) <==> RectContainsRect(outer, a) && RectContainsRect(outer, b)
  {}

  lemma NoRectSoFar(marks: seq<Mode>)
    requires !CarriesRect(Accumulated(marks)) && !Accumulated(marks).Full?
    ensures forall k :: 0 <= k < |marks| ==> !CarriesRect(marks[k])
  {}

  // ---- the browser state ----------------------------------------------------------------------------------------------

  /** The part of the browser state that a redraw request touches. */
  class RedrawState {
    var redraw_mode: Mode
    var retained_present: bool
    var navigation_start_retained_sent: bool
    var current_view_retained_sent: bool
    var scroll_viewport_caches: seq<nat>
    ghost var marks: seq<Mode>

    ghost predicate Valid()
      reads this
    {
      redraw_mode == Accumulated(marks)
    }

    constructor ()
      ensures Valid() && marks == [] && redraw_mode == Clean
    {
      redraw_mode, marks := Clean, [];
      retained_present, navigation_start_retained_sent, current_view_retained_sent := false, false, false;
      scroll_viewport_caches := [];
    }

    /** Records one more request and drops what it invalidates. */
    method MarkRedraw(mode: Mode)
      requires Valid()
      modifies this
      ensures Valid() && marks == old(marks) + [mode]
      ensures redraw_mode == Combine(old(redraw_mode), mode) && !retained_present
      ensures navigation_start_retained_sent == (mode.Clean? && old(navigation_start_retained_sent))
      ensures current_view_retained_sent
              == ((mode.Clean? || mode.PageInputFocus?) && old(current_view_retained_sent))
      ensures scroll_viewport_caches == if mode.Clean? then old(scroll_viewport_caches) else []
    {
      retained_present := false;
      if !mode.Clean? {
        navigation_start_retained_sent := false;
        if !mode.PageInputFocus? {
          current_view_retained_sent := false;
        }
        scroll_viewport_caches := [];
      }
      AccumulatedGrows(marks, mode);
      redraw_mode, marks := Combine(redraw_mode, mode), marks + [mode];
    }

    /** A present draws what has accumulated and starts over. */
    method TakeRedraw() returns (mode: Mode)
      requires Valid()
      modifies `redraw_mode, `retained_present, `marks
      ensures Valid() && mode == Accumulated(old(marks)) && marks == []
      ensures redraw_mode == Clean && !retained_present
    {
      mode, retained_present := redraw_mode, false;
      redraw_mode, marks := Clean, [];
    }
  }
}
