# Entity highlighting for scanned PDFs: alignment and merge core

The system runs OCR on each page of an image-only PDF and runs named entity
recognition on the recognised text. It then draws one red rectangle per
entity over the page. This project models the two integer-only steps in
between, and proves properties about them:

- **Character-box alignment** (`OCR._handle_single_image`). The recognised
  text is normalised: newlines become spaces and the last character is cut
  off. The text is then walked with a cursor into Tesseract's per-glyph box
  records, which have no entries for spaces. A space emits an empty box. A
  character equal to the glyph at the cursor emits that glyph's box with its
  y axis flipped against the image height, and the cursor advances. Any
  other character emits nothing. A non-space character met when the cursor
  is past the last glyph raises an IndexError.
- **Containing rectangle and entity selection**
  (`_construct_containing_rectangle`, `_draw_rectangles_on_pdf`). An
  entity's box list is its Python slice `rects[start:end]`. Empty boxes are
  dropped. What is left is folded with min/max into one enclosing
  rectangle, or gives `None`. Every entity whose rectangle is not `None` is
  drawn, page by page, in entity order.

Files:

- `wrappers.dfy` (module `Wrappers`): `Option`, `Result`, and `Present`, the
  `[x for x in xs if x]` filter.
- `geometry.dfy` (module `Geometry`): `Rect` (`[left, top, right, bottom]`),
  `CharBox = Option<Rect>` (`None` is the source's `[]`), `Encloses`, and
  `Union`, one min/max step.
- `ocr.dfy` (module `Ocr`): `Glyph`, `Normalize`, `FlipY`, and `Align`, the
  walk written as a recursive function. Also the method `HandleSingleImage`,
  with the loop and cursor of the source, proved equal to `Align`, and the
  lemmas about `Align`.
- `process_document.dfy` (module `ProcessDocument`): Python slicing
  (`PySlice`), the fold `Hull` and its wrapper `BoundingBox`, and the method
  `ConstructContainingRectangle`, proved equal to `BoundingBox`. Also
  `Resolve` (one optional rectangle per entity), the method `DrawRectangles`
  (the page and entity loops), and a lemma that connects the two halves.

Inputs the model takes as parameters: the raw string from Tesseract's
`image_to_string`, the records from `image_to_boxes` (one `Glyph` per
record, with `symbol`, `left`, `bottom`, `right` and `top`), the image
height, and the recogniser's entities as `(text, start, end, label)`. The
label is the field `kind`, because `label` is a Dafny keyword.

Four things the code does are worth stating:

- The box list is not always as long as the text. A mismatching character
  emits no box at all (ocr.py:43-47), so the list is shorter.
  `Ocr.AlignLength` states exactly when the two lengths are equal.
- An out-of-range or crossed span raises no error. Python slicing clamps
  it (process_document.py:60), so such a span gives a shorter or empty
  slice.
- Entities without a rectangle are not reported. They are skipped
  (process_document.py:61).
- There is no separate coordinate transform. The only transform is the y
  flip at ocr.py:44-46.

## Model

| member | source | states |
|---|---|---|
| `Wrappers.Present` | process_document.py:83 | the filter keeps at most as many entries as it is given, and a rectangle is kept exactly when `Some` of it is in the input |
| `Wrappers.PresentAppend` | process_document.py:83 | filtering a concatenation concatenates the filtered parts, so the filter keeps input order |
| `Ocr.ReplaceNewlines` | ocr.py:34 | same length as the input; position i is a space where the input has `'\n'` and is the input's character otherwise |
| `Ocr.Normalize` | ocr.py:34 | length is `max(0, len(raw) - 1)`; no `'\n'` remains; each kept position is the raw character with `'\n'` replaced by `' '` |
| `Ocr.FlipY` | ocr.py:44-46 | the emitted box copies the glyph's left and right and takes top and bottom as the image height minus the glyph's top and bottom; the box keeps the glyph's width and height |
| `Ocr.Align` | ocr.py:39-47 | the walk as a recursive definition: a space emits an empty box and keeps the cursor; any other character raises when the cursor is past the last glyph, emits the flipped glyph box and moves the cursor on when the glyph's symbol is that character, and otherwise emits nothing and keeps the cursor |
| `Ocr.AlignConsumesInOrder` | ocr.py:43-47 | the cursor ends at most at the number of glyphs; it moves on by exactly the number of non-empty boxes; the j-th non-empty box is glyph `cursor+j` with x copied and y flipped, so no glyph is skipped or used twice |
| `Ocr.AlignCounts` | ocr.py:39-47 | as many empty boxes as spaces in the text; the list length is the number of spaces plus the glyphs consumed; at most one glyph is consumed per non-space character |
| `Ocr.AlignLength` | ocr.py:39-47 | the box list is never longer than the text, and it is exactly as long when, and only when, every non-space character consumed a glyph |
| `Ocr.AlignExact` | ocr.py:39-47 | when the box list is as long as the text, the box at position i is empty exactly when character i is a space |
| `Ocr.AlignSucceeds` | ocr.py:43 | with at least as many glyphs left as there are non-space characters, the index at line 43 never goes out of range |
| `Ocr.AlignFailsExactly` | ocr.py:43 | the walk raises the IndexError if and only if it reaches a non-space character with the cursor at the end of the glyph records |
| `Ocr.MismatchConsumesNoGlyph` | ocr.py:43-47 | on the text `"ab"` with the single glyph `b`, the `a` is skipped without using the glyph, and the walk succeeds with the one flipped box of `b` |
| `Ocr.HandleSingleImage` | ocr.py:34-48 | the loop raises IndexError exactly when the walk `Align` does; otherwise it returns the normalised text and exactly the boxes of that walk |
| `Ocr.LanguageModelHandling` | ocr.py:64-67 | returns the text and the boxes unchanged |
| `ProcessDocument.ClampIndex` | process_document.py:60 | where one bound of a Python slice lands: negative bounds count from the end, and the result is clamped to lie between 0 and the list length |
| `ProcessDocument.PySlice` | process_document.py:60 | `rects[start:end]` with both bounds placed by `ClampIndex`, empty when they cross; never longer than the list |
| `ProcessDocument.PySliceSemantics` | process_document.py:60 | `rects[start:end]` is the plain subsequence for a span inside the list; it is cut at the end when `end` runs past; it is empty when `end <= start`; it is always a contiguous piece of the list and never raises |
| `ProcessDocument.BoundingBox` | process_document.py:83-85 | the result is `None` exactly when every input box is empty, including the empty input |
| `Geometry.Union` | process_document.py:88-91 | one step of the min/max fold: the result encloses both rectangles, and every rectangle enclosing both encloses it |
| `ProcessDocument.Hull` | process_document.py:86-91 | the fold as a recursive definition: it starts from the first rectangle and takes `Union` with each later one in order |
| `ProcessDocument.HullEncloses` | process_document.py:86-91 | the min/max fold encloses every rectangle it folds |
| `ProcessDocument.HullAttained` | process_document.py:86-91 | each side of the fold equals that side of some folded rectangle |
| `ProcessDocument.HullSameElements` | process_document.py:86-91 | two lists with the same rectangles fold to the same result, whatever their order or repetitions |
| `ProcessDocument.BoundingBoxEncloses` | process_document.py:86-92 | when any non-empty box is present, the result is a rectangle, and it encloses every non-empty input box |
| `ProcessDocument.BoundingBoxAttained` | process_document.py:86-91 | left, top, right and bottom of the result are each the same side of some non-empty input box |
| `ProcessDocument.BoundingBoxIsLeast` | process_document.py:86-92 | any rectangle enclosing all non-empty input boxes encloses the result, so the result is the smallest enclosing rectangle |
| `ProcessDocument.BoundingBoxSameBoxes` | process_document.py:83-92 | inputs with the same non-empty boxes merge to the same result |
| `ProcessDocument.BoundingBoxPermutation` | process_document.py:87-91 | permuting the input does not change the result |
| `ProcessDocument.BoundingBoxIgnoresEmpty` | process_document.py:83 | inserting an empty box anywhere does not change the result, and removing one does not either |
| `ProcessDocument.BoundingBoxSingle` | process_document.py:86-92 | a single box merges to itself |
| `ProcessDocument.ConstructContainingRectangle` | process_document.py:76-92 | the filter followed by the four-accumulator loop returns exactly `BoundingBox` of its input |
| `ProcessDocument.EntityRegion` | process_document.py:60 | the rectangle of one entity is `BoundingBox` of the clamped slice `rects[start:end]` |
| `ProcessDocument.Resolve` | process_document.py:59-60 | one optional rectangle per entity, in entity order; the i-th is the merge of entity i's clamped slice |
| `ProcessDocument.ResolveConcat` | process_document.py:59 | resolving two lists of entities one after the other is the same as resolving them joined |
| `ProcessDocument.ResolveOne` | process_document.py:60-63 | a single entity draws its merged rectangle, or nothing when that is `None` |
| `ProcessDocument.ResolveAppend` | process_document.py:59-63 | the rectangles drawn for `front + back` are those for `front` followed by those for `back` |
| `ProcessDocument.DrawnPerEntity` | process_document.py:59-63 | at most one rectangle is drawn per entity, and a rectangle is drawn exactly when some entity's merge gives it |
| `ProcessDocument.DrawRectangles` | process_document.py:57-63 | one list of drawn rectangles per page, in page order; page p gets the non-`None` merges of its entities, in entity order |
| `ProcessDocument.EntityDrawnIffVisible` | process_document.py:59-63 | when alignment dropped no character, an in-range entity is drawn exactly when its span holds a non-space character |

## Left out

- Rendering pages to pixmaps and converting them to PIL images are left
  out (ocr.py:31, ocr.py:51-61). So are the two `pytesseract` calls
  (ocr.py:34-35), which are the OCR engine. Their results are parameters:
  the raw text, the glyph records and the image height.
- The page loop of `read_fitz_document` (ocr.py:16-21) and the loop of
  `process_single_document` (process_document.py:43-49) are left out. Each
  is a map over pages through foreign calls and gives one entry per page,
  in page order.
- ner.py is not part of this model. It only projects spaCy's `doc.ents` to
  `(text, start, end, label)` tuples, so entities are inputs.
- PyMuPDF is left out: opening, `draw_rect`, `save` and `close`
  (process_document.py:43, 58, 63-66, 71). So is the exception remapping of
  `_load_pdf` (process_document.py:68-73). This is file I/O and rendering.
  Each `draw_rect` call is modelled as adding its rectangle to that page's
  list.
- `parse_arguments`, `NERConfig`, the `PwCSmartNERSystem` construction and
  the `__main__` block (process_document.py:12-36, 95-99) are CLI and
  configuration plumbing.
- `DrawRectangles` takes the page count to be the number of per-page
  entries. The source loops over `page_count` and indexes `ner_data`, which
  holds one entry per page by construction.
- `int(...)` around the glyph coordinates is the identity, because the
  records are modelled as integers.
