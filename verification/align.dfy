/** karm-layout/align.h: alignment flags and how they place an inner
    rectangle inside an outer one along a flow, and how they adjust a
    size request. */
module Alignment {
  import opened Base
  import opened Vecs

  /** The `u16` flag word. */
  type Mask = bv16

  const NONE: Mask := 0
  const START: Mask := 1 << 0
  const TOP: Mask := 1 << 1
  const END: Mask := 1 << 2
  const BOTTOM: Mask := 1 << 3
  const VSTRETCH: Mask := 1 << 4
  const HSTRETCH: Mask := 1 << 5
  const VCENTER: Mask := 1 << 6
  const HCENTER: Mask := 1 << 7
  const COVER: Mask := 1 << 8
  const FIT: Mask := 1 << 9
  const HCLAMP: Mask := 1 << 10
  const VCLAMP: Mask := 1 << 11

  const STRETCH: Mask := HSTRETCH | VSTRETCH
  const VFILL: Mask := VSTRETCH | TOP
  const HFILL: Mask := HSTRETCH | START
  const CENTER: Mask := HCENTER | VCENTER
  const FILL: Mask := VFILL | HFILL
  const CLAMP: Mask := HCLAMP | VCLAMP

  /** The twelve single-bit flags, in bit order. */
  const BASE_FLAGS: seq<Mask> :=
    [START, TOP, END, BOTTOM, VSTRETCH, HSTRETCH, VCENTER, HCENTER, COVER, FIT, HCLAMP, VCLAMP]

  /** `_value & flag` taken as a condition. */
  predicate Has(m: Mask, flag: Mask)
  {
    m & flag != 0
  }

  /** The base flags are twelve distinct bits, the low twelve of the word. */
  lemma BaseFlagsAreBits()
    ensures |BASE_FLAGS| == 12
    ensures forall i | 0 <= i < 12 :: BASE_FLAGS[i] == 1 << i
    ensures forall i, j | 0 <= i < j < 12 :: BASE_FLAGS[i] & BASE_FLAGS[j] == 0
  {
  }

  /** Every composite selects exactly the flags it is the union of: testing
      it tests for any of them, and it is set in full only with all of them. */
  lemma CompositesAreUnions(m: Mask)
    ensures Has(m, STRETCH) <==> Has(m, HSTRETCH) || Has(m, VSTRETCH)
    ensures Has(m, VFILL) <==> Has(m, VSTRETCH) || Has(m, TOP)
    ensures Has(m, HFILL) <==> Has(m, HSTRETCH) || Has(m, START)
    ensures Has(m, CENTER) <==> Has(m, HCENTER) || Has(m, VCENTER)
    ensures Has(m, FILL) <==> Has(m, VFILL) || Has(m, HFILL)
    ensures Has(m, CLAMP) <==> Has(m, HCLAMP) || Has(m, VCLAMP)
    ensures m & FILL == FILL <==> Has(m, VSTRETCH) && Has(m, TOP) && Has(m, HSTRETCH) && Has(m, START)
    ensures m & CENTER == CENTER <==> Has(m, HCENTER) && Has(m, VCENTER)
    ensures !Has(NONE, m)
  {
    assert START == 0x1 && TOP == 0x2 && HSTRETCH == 0x20 && VSTRETCH == 0x10;
    assert HCENTER == 0x80 && VCENTER == 0x40 && HCLAMP == 0x400 && VCLAMP == 0x800;
    assert STRETCH == 0x30 && VFILL == 0x12 && HFILL == 0x21 && FILL == 0x33;
    assert CENTER == 0xC0 && CLAMP == 0xC00;
  }

  /** `Align`: a flag word, 0 by default. */
  datatype Align = Align(value: Mask)

  const DEFAULT := Align(NONE)

  /** `Flow` (flow.h is not part of this model): reads a rectangle's edges,
      centre and extent along the flow's horizontal and vertical axes and
      rewrites its position or extent. */
  datatype Flow<!R> = Flow(
    getStart: R -> int, getEnd: R -> int, getTop: R -> int, getBottom: R -> int,
    getHcenter: R -> int, getVcenter: R -> int,
    getX: R -> int, getY: R -> int, getWidth: R -> int, getHeight: R -> int,
    setX: (R, int) -> R, setY: (R, int) -> R,
    setWidth: (R, int) -> R, setHeight: (R, int) -> R)

  /** What a flow is expected to satisfy: each setter sets the quantity it
      names and keeps the other three. */
  ghost predicate Lawful<R(!new)>(flow: Flow<R>)
  {
    (forall r, v {:trigger flow.setX(r, v)} ::
       (flow.getX(flow.setX(r, v)) == v && flow.getY(flow.setX(r, v)) == flow.getY(r)
        && flow.getWidth(flow.setX(r, v)) == flow.getWidth(r) && flow.getHeight(flow.setX(r, v)) == flow.getHeight(r)))
    && (forall r, v {:trigger flow.setY(r, v)} ::
       (flow.getY(flow.setY(r, v)) == v && flow.getX(flow.setY(r, v)) == flow.getX(r)
        && flow.getWidth(flow.setY(r, v)) == flow.getWidth(r) && flow.getHeight(flow.setY(r, v)) == flow.getHeight(r)))
    && (forall r, v {:trigger flow.setWidth(r, v)} ::
       (flow.getWidth(flow.setWidth(r, v)) == v && flow.getX(flow.setWidth(r, v)) == flow.getX(r)
        && flow.getY(flow.setWidth(r, v)) == flow.getY(r) && flow.getHeight(flow.setWidth(r, v)) == flow.getHeight(r)))
    && (forall r, v {:trigger flow.setHeight(r, v)} ::
       (flow.getHeight(flow.setHeight(r, v)) == v && flow.getX(flow.setHeight(r, v)) == flow.getX(r)
        && flow.getY(flow.setHeight(r, v)) == flow.getY(r) && flow.getWidth(flow.setHeight(r, v)) == flow.getWidth(r)))
  }

  lemma SetXLaws<R(!new)>(flow: Flow<R>, r: R, v: int)
    requires Lawful(flow)
    ensures flow.getX(flow.setX(r, v)) == v
    ensures flow.getY(flow.setX(r, v)) == flow.getY(r) && flow.getWidth(flow.setX(r, v)) == flow.getWidth(r) && flow.getHeight(flow.setX(r, v)) == flow.getHeight(r)
  {
  }

  lemma SetYLaws<R(!new)>(flow: Flow<R>, r: R, v: int)
    requires Lawful(flow)
    ensures flow.getY(flow.setY(r, v)) == v
    ensures flow.getX(flow.setY(r, v)) == flow.getX(r) && flow.getWidth(flow.setY(r, v)) == flow.getWidth(r) && flow.getHeight(flow.setY(r, v)) == flow.getHeight(r)
  {
  }

  lemma SetWidthLaws<R(!new)>(flow: Flow<R>, r: R, v: int)
    requires Lawful(flow)
    ensures flow.getWidth(flow.setWidth(r, v)) == v
    ensures flow.getX(flow.setWidth(r, v)) == flow.getX(r) && flow.getY(flow.setWidth(r, v)) == flow.getY(r) && flow.getHeight(flow.setWidth(r, v)) == flow.getHeight(r)
  {
  }

  lemma SetHeightLaws<R(!new)>(flow: Flow<R>, r: R, v: int)
    requires Lawful(flow)
    ensures flow.getHeight(flow.setHeight(r, v)) == v
    ensures flow.getX(flow.setHeight(r, v)) == flow.getX(r) && flow.getY(flow.setHeight(r, v)) == flow.getY(r) && flow.getWidth(flow.setHeight(r, v)) == flow.getWidth(r)
  {
  }

  /** `clamp` needs a non-empty range, so a clamping alignment needs an
      outer extent that is not negative. */
  predicate ClampDefined<R>(a: Align, flow: Flow<R>, outer: R)
  {
    (Has(a.value, HCLAMP) ==> flow.getWidth(outer) >= 0)
    && (Has(a.value, VCLAMP) ==> flow.getHeight(outer) >= 0)
  }

  /** The inner rectangle after `COVER` and `FIT` (`Rect::cover` and
      `Rect::fit` are passed in). */
  function Fitted<R>(a: Align, cover: (R, R) -> R, fit: (R, R) -> R, inner: R, outer: R): R
  {
    var r := if Has(a.value, COVER) then cover(inner, outer) else inner;
    if Has(a.value, FIT) then fit(r, outer) else r
  }

  /** `START`, `TOP`, `END` and `BOTTOM`, in that order: move the inner
      rectangle against an edge of the outer one. */
  function Place<R>(v: Mask, flow: Flow<R>, r: R, outer: R): R
  {
    var r := if Has(v, START) then flow.setX(r, flow.getStart(outer)) else r;
    var r := if Has(v, TOP) then flow.setY(r, flow.getTop(outer)) else r;
    var r := if Has(v, END) then flow.setX(r, flow.getEnd(outer) - flow.getWidth(r)) else r;
    if Has(v, BOTTOM) then flow.setY(r, flow.getBottom(outer) - flow.getHeight(r)) else r
  }

  /** `HCLAMP`, `VCLAMP`, `HSTRETCH` and `VSTRETCH`, in that order: bound
      or replace the inner extents by the outer ones. */
  function Resize<R>(v: Mask, flow: Flow<R>, r: R, outer: R): R
    requires Has(v, HCLAMP) ==> flow.getWidth(outer) >= 0
    requires Has(v, VCLAMP) ==> flow.getHeight(outer) >= 0
  {
    var r := if Has(v, HCLAMP) then flow.setWidth(r, Clamp(flow.getWidth(r), 0, flow.getWidth(outer))) else r;
    var r := if Has(v, VCLAMP) then flow.setHeight(r, Clamp(flow.getHeight(r), 0, flow.getHeight(outer))) else r;
    var r := if Has(v, HSTRETCH) then flow.setWidth(r, flow.getWidth(outer)) else r;
    if Has(v, VSTRETCH) then flow.setHeight(r, flow.getHeight(outer)) else r
  }

  /** `HCENTER` and `VCENTER`: centre the inner rectangle on the outer
      one's centre, halving the extent as C++ integer division does. */
  function Centre<R>(v: Mask, flow: Flow<R>, r: R, outer: R): R
  {
    var r := if Has(v, HCENTER) then flow.setX(r, flow.getHcenter(outer) - TDiv(flow.getWidth(r), 2)) else r;
    if Has(v, VCENTER) then flow.setY(r, flow.getVcenter(outer) - TDiv(flow.getHeight(r), 2)) else r
  }

  /** `Align::apply`: with no flag the outer rectangle; otherwise every set
      flag rewrites the inner rectangle in turn. */
  function Apply<R>(a: Align, flow: Flow<R>, cover: (R, R) -> R, fit: (R, R) -> R, inner: R, outer: R): R
    requires ClampDefined(a, flow, outer)
  {
    if a.value == NONE then outer
    else
      var r := Fitted(a, cover, fit, inner, outer);
      Centre(a.value, flow, Resize(a.value, flow, Place(a.value, flow, r, outer), outer), outer)
  }

  /** The extent an axis ends with, from the extent `e` after fitting: a
      stretch takes the outer extent, else a clamp bounds it by `[0, outer]`. */
  function FinalExtent(v: Mask, stretch: Mask, clamp: Mask, e: int, outerExtent: int): int
    requires Has(v, clamp) ==> outerExtent >= 0
  {
    if Has(v, stretch) then outerExtent
    else if Has(v, clamp) then Clamp(e, 0, outerExtent)
    else e
  }

  /** The position an axis ends with: the last positioning flag wins, the
      centre over the far edge over the near edge; the far edge is computed
      with the extent before clamping and stretching. */
  function FinalPosition(v: Mask, near: Mask, far: Mask, center: Mask,
                         p: int, e: int, finalExtent: int,
                         nearEdge: int, farEdge: int, middle: int): int
  {
    if Has(v, center) then middle - TDiv(finalExtent, 2)
    else if Has(v, far) then farEdge - e
    else if Has(v, near) then nearEdge
    else p
  }

  /** With no flag set `apply` gives the outer rectangle, whatever the inner. */
  lemma ApplyNone<R>(flow: Flow<R>, cover: (R, R) -> R, fit: (R, R) -> R, inner: R, outer: R)
    ensures Apply(DEFAULT, flow, cover, fit, inner, outer) == outer
  {
  }

  /** Placing keeps the extents and sets the positions the edge flags select. */
  lemma PlaceEffect<R(!new)>(v: Mask, flow: Flow<R>, r: R, outer: R)
    requires Lawful(flow)
    ensures var p := Place(v, flow, r, outer);
      flow.getWidth(p) == flow.getWidth(r) && flow.getHeight(p) == flow.getHeight(r)
      && flow.getX(p) == (if Has(v, END) then flow.getEnd(outer) - flow.getWidth(r)
                          else if Has(v, START) then flow.getStart(outer) else flow.getX(r))
      && flow.getY(p) == (if Has(v, BOTTOM) then flow.getBottom(outer) - flow.getHeight(r)
                          else if Has(v, TOP) then flow.getTop(outer) else flow.getY(r))
  {
    var r1 := r;
    if Has(v, START) { r1 := flow.setX(r, flow.getStart(outer)); SetXLaws(flow, r, flow.getStart(outer)); }
    var r2 := r1;
    if Has(v, TOP) { r2 := flow.setY(r1, flow.getTop(outer)); SetYLaws(flow, r1, flow.getTop(outer)); }
    var r3 := r2;
    if Has(v, END) { r3 := flow.setX(r2, flow.getEnd(outer) - flow.getWidth(r2)); SetXLaws(flow, r2, flow.getEnd(outer) - flow.getWidth(r2)); }
    if Has(v, BOTTOM) { SetYLaws(flow, r3, flow.getBottom(outer) - flow.getHeight(r3)); }
  }

  /** Resizing keeps the positions and sets the extents the clamp and
      stretch flags select. */
  lemma ResizeEffect<R(!new)>(v: Mask, flow: Flow<R>, r: R, outer: R)
    requires Lawful(flow)
    requires Has(v, HCLAMP) ==> flow.getWidth(outer) >= 0
    requires Has(v, VCLAMP) ==> flow.getHeight(outer) >= 0
    ensures var p := Resize(v, flow, r, outer);
      flow.getX(p) == flow.getX(r) && flow.getY(p) == flow.getY(r)
      && flow.getWidth(p) == FinalExtent(v, HSTRETCH, HCLAMP, flow.getWidth(r), flow.getWidth(outer))
      && flow.getHeight(p) == FinalExtent(v, VSTRETCH, VCLAMP, flow.getHeight(r), flow.getHeight(outer))
  {
    var r1 := r;
    if Has(v, HCLAMP) {
      r1 := flow.setWidth(r, Clamp(flow.getWidth(r), 0, flow.getWidth(outer)));
      SetWidthLaws(flow, r, Clamp(flow.getWidth(r), 0, flow.getWidth(outer)));
    }
    var r2 := r1;
    if Has(v, VCLAMP) {
      r2 := flow.setHeight(r1, Clamp(flow.getHeight(r1), 0, flow.getHeight(outer)));
      SetHeightLaws(flow, r1, Clamp(flow.getHeight(r1), 0, flow.getHeight(outer)));
    }
    var r3 := r2;
    if Has(v, HSTRETCH) { r3 := flow.setWidth(r2, flow.getWidth(outer)); SetWidthLaws(flow, r2, flow.getWidth(outer)); }
    if Has(v, VSTRETCH) { SetHeightLaws(flow, r3, flow.getHeight(outer)); }
  }

  /** Centring keeps the extents and moves each centred axis to the middle. */
  lemma CentreEffect<R(!new)>(v: Mask, flow: Flow<R>, r: R, outer: R)
    requires Lawful(flow)
    ensures var p := Centre(v, flow, r, outer);
      flow.getWidth(p) == flow.getWidth(r) && flow.getHeight(p) == flow.getHeight(r)
      && flow.getX(p) == (if Has(v, HCENTER) then flow.getHcenter(outer) - TDiv(flow.getWidth(r), 2) else flow.getX(r))
      && flow.getY(p) == (if Has(v, VCENTER) then flow.getVcenter(outer) - TDiv(flow.getHeight(r), 2) else flow.getY(r))
  {
    var r1 := r;
    if Has(v, HCENTER) {
      r1 := flow.setX(r, flow.getHcenter(outer) - TDiv(flow.getWidth(r), 2));
      SetXLaws(flow, r, flow.getHcenter(outer) - TDiv(flow.getWidth(r), 2));
    }
    if Has(v, VCENTER) { SetYLaws(flow, r1, flow.getVcenter(outer) - TDiv(flow.getHeight(r1), 2)); }
  }

  /** Horizontally, `apply` ends with the extent and position the flags select. */
  lemma ApplyHorizontal<R(!new)>(a: Align, flow: Flow<R>, cover: (R, R) -> R, fit: (R, R) -> R, inner: R, outer: R)
    requires Lawful(flow) && ClampDefined(a, flow, outer) && a.value != NONE
    ensures var f := Fitted(a, cover, fit, inner, outer);
      var w := FinalExtent(a.value, HSTRETCH, HCLAMP, flow.getWidth(f), flow.getWidth(outer));
      var r := Apply(a, flow, cover, fit, inner, outer);
      flow.getWidth(r) == w
      && flow.getX(r) == FinalPosition(a.value, START, END, HCENTER, flow.getX(f), flow.getWidth(f), w,
                                       flow.getStart(outer), flow.getEnd(outer), flow.getHcenter(outer))
  {
    var f := Fitted(a, cover, fit, inner, outer);
    var p := Place(a.value, flow, f, outer);
    PlaceEffect(a.value, flow, f, outer);
    ResizeEffect(a.value, flow, p, outer);
    CentreEffect(a.value, flow, Resize(a.value, flow, p, outer), outer);
  }

  /** Vertically, `apply` ends with the extent and position the flags select. */
  lemma ApplyVertical<R(!new)>(a: Align, flow: Flow<R>, cover: (R, R) -> R, fit: (R, R) -> R, inner: R, outer: R)
    requires Lawful(flow) && ClampDefined(a, flow, outer) && a.value != NONE
    ensures var f := Fitted(a, cover, fit, inner, outer);
      var h := FinalExtent(a.value, VSTRETCH, VCLAMP, flow.getHeight(f), flow.getHeight(outer));
      var r := Apply(a, flow, cover, fit, inner, outer);
      flow.getHeight(r) == h
      && flow.getY(r) == FinalPosition(a.value, TOP, BOTTOM, VCENTER, flow.getY(f), flow.getHeight(f), h,
                                       flow.getTop(outer), flow.getBottom(outer), flow.getVcenter(outer))
  {
    var f := Fitted(a, cover, fit, inner, outer);
    var p := Place(a.value, flow, f, outer);
    PlaceEffect(a.value, flow, f, outer);
    ResizeEffect(a.value, flow, p, outer);
    CentreEffect(a.value, flow, Resize(a.value, flow, p, outer), outer);
  }

  /** Centring wins over the edge flags: a horizontally centred rectangle
      sits on the outer centre, half its final width to the left of it,
      whether or not `START` or `END` is also set. */
  lemma CentreOverridesEdges<R(!new)>(a: Align, flow: Flow<R>, cover: (R, R) -> R, fit: (R, R) -> R, inner: R, outer: R)
    requires Lawful(flow) && ClampDefined(a, flow, outer) && Has(a.value, HCENTER)
    ensures var r := Apply(a, flow, cover, fit, inner, outer);
      flow.getX(r) == flow.getHcenter(outer) - TDiv(flow.getWidth(r), 2)
  {
    ApplyHorizontal(a, flow, cover, fit, inner, outer);
  }

  /** Without centring, `END` puts the fitted rectangle's far side on the
      outer end and otherwise `START` puts it on the outer start. */
  lemma EdgesPlace<R(!new)>(a: Align, flow: Flow<R>, cover: (R, R) -> R, fit: (R, R) -> R, inner: R, outer: R)
    requires Lawful(flow) && ClampDefined(a, flow, outer) && !Has(a.value, HCENTER)
    ensures var f := Fitted(a, cover, fit, inner, outer);
      var r := Apply(a, flow, cover, fit, inner, outer);
      (Has(a.value, END) ==> flow.getX(r) + flow.getWidth(f) == flow.getEnd(outer))
      && (Has(a.value, START) && !Has(a.value, END) ==> flow.getX(r) == flow.getStart(outer))
  {
    if a.value != NONE {
      ApplyHorizontal(a, flow, cover, fit, inner, outer);
    }
  }

  /** `HFILL` without `END` or centring spans the outer rectangle
      horizontally: it starts at the outer start with the outer width. */
  lemma HFillSpans<R(!new)>(a: Align, flow: Flow<R>, cover: (R, R) -> R, fit: (R, R) -> R, inner: R, outer: R)
    requires Lawful(flow) && ClampDefined(a, flow, outer)
    requires a.value & HFILL == HFILL && !Has(a.value, END) && !Has(a.value, HCENTER)
    ensures var r := Apply(a, flow, cover, fit, inner, outer);
      flow.getX(r) == flow.getStart(outer) && flow.getWidth(r) == flow.getWidth(outer)
  {
    assert Has(a.value, START) && Has(a.value, HSTRETCH);
    ApplyHorizontal(a, flow, cover, fit, inner, outer);
  }

  /** A clamped width that is not stretched lies in `[0, outer width]`. */
  lemma ClampBoundsWidth<R(!new)>(a: Align, flow: Flow<R>, cover: (R, R) -> R, fit: (R, R) -> R, inner: R, outer: R)
    requires Lawful(flow) && ClampDefined(a, flow, outer)
    requires Has(a.value, HCLAMP) && !Has(a.value, HSTRETCH)
    ensures var r := Apply(a, flow, cover, fit, inner, outer);
      0 <= flow.getWidth(r) <= flow.getWidth(outer)
  {
    ApplyHorizontal(a, flow, cover, fit, inner, outer);
  }

  /** `Layout::Hint` (hint.h is not part of this model): which size is asked for. */
  datatype Hint = MinHint | PreferredHint | MaxHint

  /** `Align::size`: the size to request for a child of size `inner` in a
      space of size `outer`. */
  function Size(a: Align, inner: Vec2, outer: Vec2, hint: Hint): (r: Vec2)
    ensures hint == MinHint ==> r == (if Has(a.value, COVER) then Zero2 else inner)
    ensures hint == PreferredHint ==> r == (if Has(a.value, COVER) then outer else inner)
    ensures hint == MaxHint ==>
      r.x == (if Has(a.value, COVER) || Has(a.value, HSTRETCH) then outer.x else inner.x)
      && r.y == (if Has(a.value, COVER) || Has(a.value, VSTRETCH) then outer.y else inner.y)
  {
    var s := if Has(a.value, COVER) then (if hint == MinHint then Vec2(0, 0) else outer) else inner;
    var s := if Has(a.value, HSTRETCH) && hint == MaxHint then s.(x := outer.x) else s;
    if Has(a.value, VSTRETCH) && hint == MaxHint then s.(y := outer.y) else s
  }

  /** Sizing twice against the same space changes nothing more. */
  lemma SizeIdempotent(a: Align, inner: Vec2, outer: Vec2, hint: Hint)
    ensures Size(a, Size(a, inner, outer, hint), outer, hint) == Size(a, inner, outer, hint)
  {
  }

  /** Under the maximum hint a stretching alignment asks for all of the space. */
  lemma StretchTakesOuter(a: Align, inner: Vec2, outer: Vec2)
    requires a.value & STRETCH == STRETCH
    ensures Size(a, inner, outer, MaxHint) == outer
  {
    assert Has(a.value, HSTRETCH) && Has(a.value, VSTRETCH);
  }
}
