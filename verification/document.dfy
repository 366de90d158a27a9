/**
 * The document of the canvas editor: an ordered array of text items, where
 * the index of an item is its identity, together with the hit test that maps
 * a canvas point to the item under it.
 */
module Document {

  /** A canvas-relative point (already translated from client coordinates). */
  datatype Point = Point(x: int, y: int)

  /** One placed label; (x, y) is the left end of its baseline. */
  datatype TextItem = TextItem(
    text: string,
    x: int,
    y: int,
    color: string,
    fontSize: int,
    fontFamily: string)

  type Doc = seq<TextItem>

  /** Height of the hit box above the baseline. It is fixed, whatever the item's font size. */
  const HitHeight: int := 20

  /**
   * Whether `p` lies in the hit box of `item`: horizontally from `x` to `x`
   * plus the measured width of its text, vertically from `HitHeight` above
   * the baseline down to the baseline, all bounds inclusive. `width` stands
   * for the canvas's text measurement.
   */
  predicate Contains(item: TextItem, p: Point, width: string -> int) {
    && item.x <= p.x <= item.x + width(item.text)
    && item.y - HitHeight <= p.y <= item.y
  }

  /** The first index at or after `from` whose item contains `p`, or -1 when there is none. */
  function FindHitFrom(doc: Doc, p: Point, width: string -> int, from: nat): (r: int)
    requires from <= |doc|
    ensures r == -1 || from <= r < |doc|
    ensures r == -1 <==> forall k :: from <= k < |doc| ==> !Contains(doc[k], p, width)
    ensures r != -1 ==> Contains(doc[r], p, width)
    ensures r != -1 ==> forall k :: from <= k < r ==> !Contains(doc[k], p, width)
    decreases |doc| - from
  {
    if from == |doc| then -1
    else if Contains(doc[from], p, width) then from
    else FindHitFrom(doc, p, width, from + 1)
  }

  /**
   * The hit test of the click and mouse-down handlers: the lowest index whose
   * item contains `p`, or -1 when no item does.
   */
  function FindHit(doc: Doc, p: Point, width: string -> int): (r: int)
    ensures -1 <= r < |doc|
    ensures r == -1 <==> forall k :: 0 <= k < |doc| ==> !Contains(doc[k], p, width)
    ensures r != -1 ==> Contains(doc[r], p, width)
    ensures r != -1 ==> forall k :: 0 <= k < r ==> !Contains(doc[k], p, width)
  {
    FindHitFrom(doc, p, width, 0)
  }

  /** The document with item `i` placed at `p`; its text, color and font are kept. */
  function MoveItem(doc: Doc, i: nat, p: Point): (r: Doc)
    requires i < |doc|
    ensures |r| == |doc|
    ensures r[i].x == p.x && r[i].y == p.y
    ensures r[i].text == doc[i].text && r[i].color == doc[i].color
    ensures r[i].fontSize == doc[i].fontSize && r[i].fontFamily == doc[i].fontFamily
    ensures forall k :: 0 <= k < |doc| && k != i ==> r[k] == doc[k]
  {
    doc[i := doc[i].(x := p.x, y := p.y)]
  }

  /**
   * Where two hit boxes overlap, the item with the lower index wins, although
   * the later item is drawn on top of it.
   */
  lemma FirstMatchWins(doc: Doc, p: Point, width: string -> int, i: nat, j: nat)
    requires i < j < |doc|
    requires Contains(doc[i], p, width) && Contains(doc[j], p, width)
    ensures 0 <= FindHit(doc, p, width) <= i
  {
  }

  /** The hit test is determined by which items contain the point. */
  lemma FindHitDeterminedByContains(a: Doc, b: Doc, p: Point, width: string -> int)
    requires |a| == |b|
    requires forall k :: 0 <= k < |a| ==> (Contains(a[k], p, width) <==> Contains(b[k], p, width))
    ensures FindHit(a, p, width) == FindHit(b, p, width)
  {
    var ra := FindHit(a, p, width);
    if ra == -1 {
      assert forall k :: 0 <= k < |b| ==> !Contains(b[k], p, width);
    } else {
      assert Contains(b[ra], p, width);
      assert forall k :: 0 <= k < ra ==> !Contains(b[k], p, width);
    }
  }

  /**
   * With the text measurement fixed, an item's font size plays no part in
   * the hit test: the box is 20 high whatever the size. (The measurement
   * itself may depend on a font; that is outside this lemma.)
   */
  lemma HitIgnoresFontSize(doc: Doc, i: nat, size: int, p: Point, width: string -> int)
    requires i < |doc|
    ensures FindHit(doc[i := doc[i].(fontSize := size)], p, width) == FindHit(doc, p, width)
  {
    var changed := doc[i := doc[i].(fontSize := size)];
    assert forall k :: 0 <= k < |doc| ==> (Contains(changed[k], p, width) <==> Contains(doc[k], p, width));
    FindHitDeterminedByContains(changed, doc, p, width);
  }

  /** A second move of the same item overrides the first: positions do not accumulate. */
  lemma MoveItemOverrides(doc: Doc, i: nat, a: Point, b: Point)
    requires i < |doc|
    ensures MoveItem(MoveItem(doc, i, a), i, b) == MoveItem(doc, i, b)
  {
  }

  /** Moving an item to where it already is leaves the document unchanged. */
  lemma MoveItemInPlace(doc: Doc, i: nat)
    requires i < |doc|
    ensures MoveItem(doc, i, Point(doc[i].x, doc[i].y)) == doc
  {
  }
}
