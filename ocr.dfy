/** The OCR side of the pipeline (ocr.py): turning the recognised page text
    and Tesseract's per-glyph boxes into one optional box per character. */
module Ocr {
  import opened Wrappers
  import opened Geometry

  /** One record of Tesseract's box output: the recognised symbol and its
      box, with y measured upwards from the bottom of the image. */
  datatype Glyph = Glyph(symbol: string, left: int, bottom: int, right: int, top: int)

  /** The IndexError raised when the cursor runs past the glyph records. */
  datatype OcrError = GlyphIndexOutOfRange

  /** What the OCR step returns for one page: its text and the box list. */
  datatype PageText = PageText(text: string, rects: seq<CharBox>)

  /** `s.replace('\n', " ")`. */
  function ReplaceNewlines(s: string): (r: string)
    ensures |r| == |s|
    ensures forall i :: 0 <= i < |s| ==> r[i] == (if s[i] == '\n' then ' ' else s[i])
  {
    if s == [] then [] else [if s[0] == '\n' then ' ' else s[0]] + ReplaceNewlines(s[1..])
  }

  /** The page text as the source keeps it: newlines become spaces and the
      last character is cut off by `[:-1]`, which leaves an empty string
      empty. */
  function Normalize(raw: string): (text: string)
    ensures |text| == if |raw| == 0 then 0 else |raw| - 1
    ensures '\n' !in text
    ensures forall i :: 0 <= i < |text| ==> text[i] == (if raw[i] == '\n' then ' ' else raw[i])
  {
    var replaced := ReplaceNewlines(raw);
    if replaced == [] then [] else replaced[..|replaced| - 1]
  }

  /** The box emitted for a glyph: x is copied, y is flipped against the
      image height to turn Tesseract's bottom-up axis into a top-down one. */
  function FlipY(g: Glyph, height: int): (r: Rect)
    ensures r.right - r.left == g.right - g.left
    ensures r.bottom - r.top == g.top - g.bottom
  {
    Rect(g.left, height - g.top, g.right, height - g.bottom)
  }

  /** The outcome of a walk over some text: the boxes emitted and where the
      glyph cursor ended. */
  datatype Walk = Walk(rects: seq<CharBox>, cursor: nat)

  /** Puts `prefix` in front of the boxes of a walk that follows it. */
  function Emit(prefix: seq<CharBox>, rest: Result<Walk, OcrError>): Result<Walk, OcrError>
  {
    match rest
    case Ok(w) => Ok(Walk(prefix + w.rects, w.cursor))
    case Err(e) => Err(e)
  }

  /** The two-pointer walk of the source, character by character, with the
      glyph cursor starting at `cursor`: a space emits an empty box and keeps
      the cursor; any other character first reads the glyph at the cursor
      (raising when there is none), emits its flipped box and advances on a
      match, and emits nothing and keeps the cursor on a mismatch. */
  function Align(text: string, glyphs: seq<Glyph>, height: int, cursor: nat): Result<Walk, OcrError>
    decreases |text|
  {
    if text == [] then Ok(Walk([], cursor))
    else if text[0] == ' ' then Emit([None], Align(text[1..], glyphs, height, cursor))
    else if cursor >= |glyphs| then Err(GlyphIndexOutOfRange)
    else if glyphs[cursor].symbol == [text[0]] then
      Emit([Some(FlipY(glyphs[cursor], height))], Align(text[1..], glyphs, height, cursor + 1))
    else Align(text[1..], glyphs, height, cursor)
  }

  lemma EmitEmit(a: seq<CharBox>, b: seq<CharBox>, rest: Result<Walk, OcrError>)
    ensures Emit(a, Emit(b, rest)) == Emit(a + b, rest)
  {
    if rest.Ok? {
      assert a + (b + rest.value.rects) == (a + b) + rest.value.rects;
    }
  }

  /** Glyphs are consumed strictly in order: the j-th non-empty box of a walk
      is the flipped box of the j-th glyph from where the cursor started, and
      the cursor ends exactly as far on as there are non-empty boxes. */
  lemma {:induction false} AlignConsumesInOrder(text: string, glyphs: seq<Glyph>, height: int, cursor: nat)
    requires cursor <= |glyphs|
    requires Align(text, glyphs, height, cursor).Ok?
    ensures var w := Align(text, glyphs, height, cursor).value;
      cursor <= w.cursor <= |glyphs| &&
      |Present(w.rects)| == w.cursor - cursor &&
      forall j :: 0 <= j < w.cursor - cursor ==> Present(w.rects)[j] == FlipY(glyphs[cursor + j], height)
    decreases |text|
  {
    if text == [] {
    } else if text[0] == ' ' {
      AlignConsumesInOrder(text[1..], glyphs, height, cursor);
      var w' := Align(text[1..], glyphs, height, cursor).value;
      assert ([None] + w'.rects)[1..] == w'.rects;
    } else if glyphs[cursor].symbol == [text[0]] {
      var g := Some(FlipY(glyphs[cursor], height));
      AlignConsumesInOrder(text[1..], glyphs, height, cursor + 1);
      var w' := Align(text[1..], glyphs, height, cursor + 1).value;
      assert ([g] + w'.rects)[1..] == w'.rects;
      assert Present([g] + w'.rects) == [g.value] + Present(w'.rects);
    } else {
      AlignConsumesInOrder(text[1..], glyphs, height, cursor);
    }
  }

  /** Every space gives exactly one empty box and nothing else does; every
      box that is not empty consumed one glyph, and at most one glyph is
      consumed per non-space character. */
  lemma {:induction false} AlignCounts(text: string, glyphs: seq<Glyph>, height: int, cursor: nat)
    requires Align(text, glyphs, height, cursor).Ok?
    ensures var w := Align(text, glyphs, height, cursor).value;
      cursor <= w.cursor &&
      multiset(w.rects)[None] == multiset(text)[' '] &&
      |w.rects| == multiset(text)[' '] + (w.cursor - cursor) &&
      w.cursor - cursor <= |text| - multiset(text)[' ']
    decreases |text|
  {
    if text != [] {
      assert text == [text[0]] + text[1..];
      if text[0] == ' ' {
        AlignCounts(text[1..], glyphs, height, cursor);
      } else if glyphs[cursor].symbol == [text[0]] {
        AlignCounts(text[1..], glyphs, height, cursor + 1);
      } else {
        AlignCounts(text[1..], glyphs, height, cursor);
      }
    }
  }

  /** The box list is never longer than the text, and it is exactly as long
      when, and only when, every non-space character matched its glyph. */
  lemma AlignLength(text: string, glyphs: seq<Glyph>, height: int)
    requires Align(text, glyphs, height, 0).Ok?
    ensures var w := Align(text, glyphs, height, 0).value;
      |w.rects| <= |text| &&
      (|w.rects| == |text| <==> w.cursor == |text| - multiset(text)[' '])
  {
    AlignCounts(text, glyphs, height, 0);
  }

  /** When no character was dropped, the boxes line up with the text: the
      box at position i is empty exactly when the character there is a space. */
  lemma {:induction false} AlignExact(text: string, glyphs: seq<Glyph>, height: int, cursor: nat)
    requires Align(text, glyphs, height, cursor).Ok?
    requires |Align(text, glyphs, height, cursor).value.rects| == |text|
    ensures var w := Align(text, glyphs, height, cursor).value;
      forall i :: 0 <= i < |text| ==> (w.rects[i].None? <==> text[i] == ' ')
    decreases |text|
  {
    if text != [] {
      if text[0] == ' ' {
        AlignExact(text[1..], glyphs, height, cursor);
        var w' := Align(text[1..], glyphs, height, cursor).value;
        assert forall i :: 1 <= i < |text| ==> ([None] + w'.rects)[i] == w'.rects[i - 1];
      } else if glyphs[cursor].symbol == [text[0]] {
        AlignExact(text[1..], glyphs, height, cursor + 1);
        var w' := Align(text[1..], glyphs, height, cursor + 1).value;
        var g := Some(FlipY(glyphs[cursor], height));
        assert forall i :: 1 <= i < |text| ==> ([g] + w'.rects)[i] == w'.rects[i - 1];
      } else {
        AlignCounts(text[1..], glyphs, height, cursor);
        assert false;
      }
    }
  }

  /** Enough glyphs for every non-space character rule out the IndexError. */
  lemma {:induction false} AlignSucceeds(text: string, glyphs: seq<Glyph>, height: int, cursor: nat)
    requires cursor + (|text| - multiset(text)[' ']) <= |glyphs|
    ensures Align(text, glyphs, height, cursor).Ok?
    decreases |text|
  {
    if text != [] {
      assert text == [text[0]] + text[1..];
      if text[0] == ' ' {
        AlignSucceeds(text[1..], glyphs, height, cursor);
      } else if glyphs[cursor].symbol == [text[0]] {
        AlignSucceeds(text[1..], glyphs, height, cursor + 1);
      } else {
        AlignSucceeds(text[1..], glyphs, height, cursor);
      }
    }
  }

  /** The walk reaches the non-space character at position i with the
      cursor just past the last glyph: the indexing at that character raises. */
  ghost predicate RunsOut(text: string, glyphs: seq<Glyph>, height: int, cursor: nat, i: int)
  {
    0 <= i < |text| && text[i] != ' ' &&
    Align(text[..i], glyphs, height, cursor).Ok? &&
    Align(text[..i], glyphs, height, cursor).value.cursor == |glyphs|
  }

  /** Stepping over the first character of the text, with `next` the cursor
      after it, shifts the position where the walk runs out by one. */
  lemma RunsOutShift(text: string, glyphs: seq<Glyph>, height: int, cursor: nat, next: nat, i: nat)
    requires text != []
    requires text[0] == ' ' ==> next == cursor
    requires text[0] != ' ' ==>
      (cursor < |glyphs| && next == (if glyphs[cursor].symbol == [text[0]] then cursor + 1 else cursor))
    ensures RunsOut(text, glyphs, height, cursor, i + 1) <==> RunsOut(text[1..], glyphs, height, next, i)
  {
    if i + 1 < |text| {
      assert text[..i + 1][1..] == text[1..][..i];
    }
  }

  /** The exact condition for the IndexError: the walk fails if and only if
      it reaches a non-space character with the cursor at the end of the
      glyph records. A mismatch consumes no glyph, so fewer glyphs than
      non-space characters does not by itself make the walk fail. */
  lemma {:induction false} AlignFailsExactly(text: string, glyphs: seq<Glyph>, height: int, cursor: nat)
    requires cursor <= |glyphs|
    ensures Align(text, glyphs, height, cursor).Err? <==>
      exists i :: RunsOut(text, glyphs, height, cursor, i)
    decreases |text|
  {
    if text != [] {
      assert text[..0] == [];
      if text[0] != ' ' && cursor >= |glyphs| {
        assert RunsOut(text, glyphs, height, cursor, 0);
      } else {
        var next := if text[0] == ' ' then cursor
          else if glyphs[cursor].symbol == [text[0]] then cursor + 1 else cursor;
        AlignFailsExactly(text[1..], glyphs, height, next);
        assert !RunsOut(text, glyphs, height, cursor, 0);
        forall i | RunsOut(text, glyphs, height, cursor, i)
          ensures exists j :: RunsOut(text[1..], glyphs, height, next, j)
        {
          RunsOutShift(text, glyphs, height, cursor, next, i - 1);
        }
        forall j | RunsOut(text[1..], glyphs, height, next, j)
          ensures exists i :: RunsOut(text, glyphs, height, cursor, i)
        {
          RunsOutShift(text, glyphs, height, cursor, next, j);
        }
      }
    }
  }

  /** An example: a text with more non-space characters than glyphs still
      succeeds, because the mismatching `a` is skipped without using up the
      only glyph, which then matches `b`. */
  lemma MismatchConsumesNoGlyph()
    ensures Align("ab", [Glyph("b", 0, 0, 1, 1)], 5, 0) == Ok(Walk([Some(Rect(0, 4, 1, 5))], 1))
  {
    var glyphs := [Glyph("b", 0, 0, 1, 1)];
    assert "ab"[1..] == "b" && "b"[1..] == [];
    assert glyphs[0].symbol != ['a'] && glyphs[0].symbol == ['b'];
    assert Align("ab", glyphs, 5, 0) == Align("b", glyphs, 5, 0);
    assert Align("b", glyphs, 5, 0) == Emit([Some(FlipY(glyphs[0], 5))], Align([], glyphs, 5, 1));
    assert [Some(Rect(0, 4, 1, 5))] + [] == [Some(Rect(0, 4, 1, 5))];
  }

  /** `_handle_single_image` after the two Tesseract calls: normalise the
      text, then walk it with a glyph cursor, building the box list. */
  method HandleSingleImage(rawText: string, glyphs: seq<Glyph>, height: int)
    returns (r: Result<PageText, OcrError>)
    ensures r.Ok? <==> Align(Normalize(rawText), glyphs, height, 0).Ok?
    ensures r.Ok? ==>
      r.value == PageText(Normalize(rawText), Align(Normalize(rawText), glyphs, height, 0).value.rects)
  {
    var text := Normalize(rawText);
    var rects: seq<CharBox> := [];
    var counter: nat := 0;
    assert text[0..] == text;
    assert Emit([], Align(text, glyphs, height, 0)) == Align(text, glyphs, height, 0) by {
      var start := Align(text, glyphs, height, 0);
      if start.Ok? {
        assert [] + start.value.rects == start.value.rects;
      }
    }
    for i := 0 to |text|
      invariant Align(text, glyphs, height, 0) == Emit(rects, Align(text[i..], glyphs, height, counter))
    {
      var ch := text[i];
      assert text[i..][1..] == text[i + 1..];
      if ch == ' ' {
        EmitEmit(rects, [None], Align(text[i + 1..], glyphs, height, counter));
        rects := rects + [None];
      } else if counter >= |glyphs| {
        return Err(GlyphIndexOutOfRange);
      } else if glyphs[counter].symbol == [ch] {
        var box := Some(FlipY(glyphs[counter], height));
        EmitEmit(rects, [box], Align(text[i + 1..], glyphs, height, counter + 1));
        rects := rects + [box];
        counter := counter + 1;
      }
    }
    assert text[|text|..] == [];
    return Ok(PageText(text, rects));
  }

  /** `_language_model_handling`: a placeholder for language correction that
      hands the text and its boxes on unchanged. */
  function LanguageModelHandling(text: string, rects: seq<CharBox>): (r: (string, seq<CharBox>))
    ensures r.0 == text && r.1 == rects
  {
    (text, rects)
  }
}
