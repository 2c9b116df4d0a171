/** The drawing side of the pipeline (process_document.py): merging the
    character boxes of an entity's span into one rectangle and choosing the
    rectangles drawn on each page. */
module ProcessDocument {
  import opened Wrappers
  import opened Geometry
  import Ocr

  /** An entity as the recogniser reports it: `(text, start, end, label)` (the label is `kind` here),
      with `start` and `end` character offsets into the page text. */
  datatype Entity = Entity(text: string, start: int, end: int, kind: string)

  /** One page's input to the drawing loop: its entities and its box list. */
  type PageData = (seq<Entity>, seq<CharBox>)

  // ---------------------------------------------------------------------
  // Python slicing

  /** Where a slice bound of Python's `s[i:j]` lands in a list of length `n`:
      negative bounds count from the end, and the result is clamped to [0, n]. */
  function ClampIndex(i: int, n: nat): (j: nat)
    ensures j <= n
  {
    if i < 0 then (if i + n < 0 then 0 else i + n)
    else if i > n then n
    else i
  }

  /** `s[start:end]`: never raises, empty when the clamped bounds cross. */
  function PySlice<T>(s: seq<T>, start: int, end: int): (r: seq<T>)
    ensures |r| <= |s|
  {
    var lo := ClampIndex(start, |s|);
    var hi := ClampIndex(end, |s|);
    if lo < hi then s[lo..hi] else []
  }

  /** What the slice of an entity span is: the plain subsequence for a span
      inside the list, clamped at the end for a span running past it, empty
      for a crossed span, and always some contiguous piece of the list. */
  lemma PySliceSemantics<T>(s: seq<T>, start: int, end: int)
    ensures 0 <= start <= end <= |s| ==> PySlice(s, start, end) == s[start..end]
    ensures 0 <= start && |s| <= end ==> PySlice(s, start, end) == s[Min(start, |s|)..]
    ensures 0 <= end <= start ==> PySlice(s, start, end) == []
    ensures exists lo, hi :: 0 <= lo <= hi <= |s| && PySlice(s, start, end) == s[lo..hi]
  {
    var lo := ClampIndex(start, |s|);
    var hi := ClampIndex(end, |s|);
    if lo < hi {
      assert PySlice(s, start, end) == s[lo..hi];
    } else {
      assert PySlice(s, start, end) == s[lo..lo];
    }
  }

  // ---------------------------------------------------------------------
  // The containing rectangle

  /** The min/max fold over a non-empty list of rectangles, started from the
      first one and taking the rest in order. */
  function Hull(rs: seq<Rect>): Rect
    requires |rs| > 0
    decreases |rs|
  {
    if |rs| == 1 then rs[0] else Union(Hull(rs[..|rs| - 1]), rs[|rs| - 1])
  }

  /** `_construct_containing_rectangle` as a value: `None` when no box is
      left after dropping the empty ones, otherwise their hull. */
  function BoundingBox(boxes: seq<CharBox>): (r: Option<Rect>)
    ensures r.None? <==> forall i :: 0 <= i < |boxes| ==> boxes[i].None?
  {
    var kept := Present(boxes);
    if kept == [] then
      assert forall i :: 0 <= i < |boxes| ==> boxes[i] in boxes;
      None
    else
      assert kept[0] in kept;
      Some(Hull(kept))
  }

  lemma {:induction false} HullEncloses(rs: seq<Rect>)
    requires |rs| > 0
    ensures forall r :: r in rs ==> Encloses(Hull(rs), r)
    decreases |rs|
  {
    if |rs| > 1 {
      var init := rs[..|rs| - 1];
      HullEncloses(init);
      assert rs == init + [rs[|rs| - 1]];
    }
  }

  lemma {:induction false} HullAttained(rs: seq<Rect>)
    requires |rs| > 0
    ensures exists r :: r in rs && r.left == Hull(rs).left
    ensures exists r :: r in rs && r.top == Hull(rs).top
    ensures exists r :: r in rs && r.right == Hull(rs).right
    ensures exists r :: r in rs && r.bottom == Hull(rs).bottom
    decreases |rs|
  {
    if |rs| > 1 {
      var init := rs[..|rs| - 1];
      var last := rs[|rs| - 1];
      HullAttained(init);
      assert rs == init + [last];
      var h := Hull(init);
      assert last in rs;
      assert Hull(rs) == Union(h, last);
      if h.left <= last.left {
        var r :| r in init && r.left == h.left;
        assert r in rs;
      }
      if h.top <= last.top {
        var r :| r in init && r.top == h.top;
        assert r in rs;
      }
      if h.right >= last.right {
        var r :| r in init && r.right == h.right;
        assert r in rs;
      }
      if h.bottom >= last.bottom {
        var r :| r in init && r.bottom == h.bottom;
        assert r in rs;
      }
    } else {
      assert rs[0] in rs;
    }
  }

  /** The hull depends only on which rectangles occur, not on their order
      or on repetitions. */
  lemma HullSameElements(xs: seq<Rect>, ys: seq<Rect>)
    requires |xs| > 0 && |ys| > 0
    requires forall r :: r in xs <==> r in ys
    ensures Hull(xs) == Hull(ys)
  {
    HullEncloses(xs);
    HullEncloses(ys);
    HullAttained(xs);
    HullAttained(ys);
  }

  /** The merged rectangle encloses every non-empty input box. */
  lemma BoundingBoxEncloses(boxes: seq<CharBox>)
    ensures forall r :: Some(r) in boxes ==>
      BoundingBox(boxes).Some? && Encloses(BoundingBox(boxes).value, r)
  {
    if BoundingBox(boxes).Some? {
      HullEncloses(Present(boxes));
    }
  }

  /** Each side of the merged rectangle is the side of some non-empty input box. */
  lemma BoundingBoxAttained(boxes: seq<CharBox>)
    requires BoundingBox(boxes).Some?
    ensures exists r :: Some(r) in boxes && r.left == BoundingBox(boxes).value.left
    ensures exists r :: Some(r) in boxes && r.top == BoundingBox(boxes).value.top
    ensures exists r :: Some(r) in boxes && r.right == BoundingBox(boxes).value.right
    ensures exists r :: Some(r) in boxes && r.bottom == BoundingBox(boxes).value.bottom
  {
    HullAttained(Present(boxes));
  }

  /** It is the smallest such rectangle: any rectangle enclosing every
      non-empty input box encloses it too. */
  lemma BoundingBoxIsLeast(boxes: seq<CharBox>, outer: Rect)
    requires BoundingBox(boxes).Some?
    requires forall r :: Some(r) in boxes ==> Encloses(outer, r)
    ensures Encloses(outer, BoundingBox(boxes).value)
  {
    BoundingBoxAttained(boxes);
  }

  /** Only the set of non-empty boxes matters. */
  lemma BoundingBoxSameBoxes(a: seq<CharBox>, b: seq<CharBox>)
    requires forall r :: Some(r) in a <==> Some(r) in b
    ensures BoundingBox(a) == BoundingBox(b)
  {
    var ka, kb := Present(a), Present(b);
    assert ka != [] ==> ka[0] in kb;
    assert kb != [] ==> kb[0] in ka;
    if ka != [] && kb != [] {
      HullSameElements(ka, kb);
    }
  }

  /** Permuting the input does not change the result. */
  lemma BoundingBoxPermutation(a: seq<CharBox>, b: seq<CharBox>)
    requires multiset(a) == multiset(b)
    ensures BoundingBox(a) == BoundingBox(b)
  {
    assert forall r :: Some(r) in a <==> Some(r) in multiset(a);
    assert forall r :: Some(r) in b <==> Some(r) in multiset(b);
    BoundingBoxSameBoxes(a, b);
  }

  /** Inserting an empty box anywhere (or, read backwards, removing one)
      does not change the result. */
  lemma BoundingBoxIgnoresEmpty(a: seq<CharBox>, i: nat)
    requires i <= |a|
    ensures BoundingBox(a[..i] + [None] + a[i..]) == BoundingBox(a)
  {
    var b := a[..i] + [None] + a[i..];
    assert a == a[..i] + a[i..];
    assert forall r :: Some(r) in b <==> Some(r) in a;
    BoundingBoxSameBoxes(b, a);
  }

  /** A single box merges to itself. */
  lemma BoundingBoxSingle(box: Rect)
    ensures BoundingBox([Some(box)]) == Some(box)
  {
  }

  /** `_construct_containing_rectangle`: filter out the empty boxes, then fold
      four accumulators over the rest, starting from the first box. */
  method ConstructContainingRectangle(rectangles: seq<CharBox>) returns (r: Option<Rect>)
    ensures r == BoundingBox(rectangles)
  {
    var kept := Present(rectangles);
    if kept == [] {
      return None;
    }
    var minLeft, minTop, maxRight, maxBottom := kept[0].left, kept[0].top, kept[0].right, kept[0].bottom;
    for i := 1 to |kept|
      invariant Rect(minLeft, minTop, maxRight, maxBottom) == Hull(kept[..i])
    {
      var rect := kept[i];
      assert kept[..i + 1][..i] == kept[..i];
      minLeft := Min(minLeft, rect.left);
      minTop := Min(minTop, rect.top);
      maxRight := Max(maxRight, rect.right);
      maxBottom := Max(maxBottom, rect.bottom);
    }
    assert kept[..|kept|] == kept;
    return Some(Rect(minLeft, minTop, maxRight, maxBottom));
  }

  // ---------------------------------------------------------------------
  // Choosing what is drawn

  /** The rectangle for one entity: the merge of its clamped slice. */
  function EntityRegion(e: Entity, rects: seq<CharBox>): Option<Rect>
  {
    BoundingBox(PySlice(rects, e.start, e.end))
  }

  /** One optional rectangle per entity, in entity order. */
  function Resolve(entities: seq<Entity>, rects: seq<CharBox>): (r: seq<Option<Rect>>)
    ensures |r| == |entities|
    ensures forall i :: 0 <= i < |entities| ==> r[i] == EntityRegion(entities[i], rects)
  {
    if entities == [] then []
    else [EntityRegion(entities[0], rects)] + Resolve(entities[1..], rects)
  }

  /** The rectangles drawn on a page are those of its entities that have
      one, in entity order; so at most one per entity. */
  lemma DrawnPerEntity(entities: seq<Entity>, rects: seq<CharBox>)
    ensures |Present(Resolve(entities, rects))| <= |entities|
    ensures forall x :: x in Present(Resolve(entities, rects)) <==>
      exists i :: 0 <= i < |entities| && EntityRegion(entities[i], rects) == Some(x)
  {
  }

  /** The entities of a page are handled one after another: the rectangles
      for `front + back` are those of `front` followed by those of `back`. */
  lemma ResolveAppend(front: seq<Entity>, back: seq<Entity>, rects: seq<CharBox>)
    ensures Present(Resolve(front + back, rects)) == Present(Resolve(front, rects)) + Present(Resolve(back, rects))
  {
    ResolveConcat(front, back, rects);
    PresentAppend(Resolve(front, rects), Resolve(back, rects));
  }

  lemma ResolveConcat(front: seq<Entity>, back: seq<Entity>, rects: seq<CharBox>)
    ensures Resolve(front + back, rects) == Resolve(front, rects) + Resolve(back, rects)
  {
  }

  /** A single entity gives its rectangle, or nothing when it has none. */
  lemma ResolveOne(e: Entity, rects: seq<CharBox>)
    ensures Present(Resolve([e], rects)) == if EntityRegion(e, rects).Some? then [EntityRegion(e, rects).value] else []
  {
  }

  /** The page and entity loops of `_draw_rectangles_on_pdf`, with each
      drawing call recorded as the rectangle it draws on its page. */
  method DrawRectangles(nerData: seq<PageData>) returns (drawn: seq<seq<Rect>>)
    ensures |drawn| == |nerData|
    ensures forall p :: 0 <= p < |nerData| ==> drawn[p] == Present(Resolve(nerData[p].0, nerData[p].1))
  {
    drawn := [];
    for p := 0 to |nerData|
      invariant |drawn| == p
      invariant forall q :: 0 <= q < p ==> drawn[q] == Present(Resolve(nerData[q].0, nerData[q].1))
    {
      var (entities, rects) := nerData[p];
      var onPage: seq<Rect> := [];
      for j := 0 to |entities|
        invariant onPage == Present(Resolve(entities[..j], rects))
      {
        var e := entities[j];
        var containingRect := ConstructContainingRectangle(PySlice(rects, e.start, e.end));
        assert entities[..j + 1] == entities[..j] + [e];
        ResolveAppend(entities[..j], [e], rects);
        ResolveOne(e, rects);
        if containingRect.Some? {
          onPage := onPage + [containingRect.value];
        }
      }
      assert entities[..|entities|] == entities;
      drawn := drawn + [onPage];
    }
  }

  /** The two halves together: when the OCR walk dropped no character, an
      entity inside the text is drawn exactly when its span holds a
      character other than a space. */
  lemma EntityDrawnIffVisible(text: string, glyphs: seq<Ocr.Glyph>, height: int, e: Entity)
    requires Ocr.Align(text, glyphs, height, 0).Ok?
    requires |Ocr.Align(text, glyphs, height, 0).value.rects| == |text|
    requires 0 <= e.start <= e.end <= |text|
    ensures var rects := Ocr.Align(text, glyphs, height, 0).value.rects;
      EntityRegion(e, rects).Some? <==> exists i :: e.start <= i < e.end && text[i] != ' '
  {
    var rects := Ocr.Align(text, glyphs, height, 0).value.rects;
    Ocr.AlignExact(text, glyphs, height, 0);
    PySliceSemantics(rects, e.start, e.end);
    var span := rects[e.start..e.end];
    assert forall i :: e.start <= i < e.end ==> span[i - e.start] == rects[i];
  }
}
