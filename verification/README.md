# Page breaks of pdf-demos, in Dafny

pdf-demos exports a web page to an A4 PDF. It rasterises the page to one tall image, then cuts that image into A4 pages. The cuts are chosen so that rows, images and paragraphs are not split across two pages. That guarantee holds only when the "page is full" rule does not fire for the element: see `Breaks.PosRunKeepsElementWhole` and `Breaks.FullRuleMayCutElement`. This project models the cut computation and the page plan for both exporters in the repository:

- `myOutput` in `src/pdf.js`, module `PdfJs`;
- `outputPDF` in `src/outputPDF.js`, module `OutputPdf`.

The two exporters share most of their structure, and the shared parts are modelled once:

- `Dom` models the DOM as a read-only tree of `Node`s.
  - An element has its tag, its class set, its `offsetTop`, the `offsetTop`s along its `offsetParent` chain, its `offsetWidth`, its `offsetHeight` and its `childNodes`.
  - `Text` stands for any other child node.
  - The module also holds `getElementTop`, `querySelector` and the width ratio.
- `Jspdf` models the PDF document as a command log, one list of drawing commands per page. It also holds the A4 constants and `addBlank` with its `Math.ceil`.
- `Breaks` models the break accumulator (the `paegs` / `pages` list).
  - Its class `Paginator` has the methods `updateNomalElPos`, `updatePos`, `traversingEditor` and the finalisation.
  - Each method is specified by a pure step function.
  - The single difference between the two accumulators is updatePos's "page is full" test. pdf.js uses `>` (`Exceeds`); outputPDF.js uses `>=` (`Reaches`).
- Each exporter module holds its own classifying walker `traversingNodes` and its own page geometry, compositor loop and entry point.

The walkers are specified by a trace: the sequence of accumulator calls a pre-order walk makes (`TraceNodes`, `EditorTrace`). `Apply` folds that trace over the list. Each walker method is proved to leave exactly `Apply(old list, trace)`. The lemmas about `Apply` then carry over to the real list:

- the list is append-only;
- each call appends at most one break;
- no gap is larger than a page;
- the list is strictly increasing when the tops arrive in order.

The compositor loop builds the document page by page. Each page is proved equal to a per-page plan (`PageCommands`), and lemmas read the geometry off that plan.

Text nodes appear in `childNodes`, but they have no `offsetTop` or `offsetHeight`. The source computes NaN for them, every comparison is false, and they have no children. They are therefore modelled as making no call.

In pdf.js, `addHeader(i !== 0)` and `addFooter(i !== 0, paegs.length, i)` draw the header and footer on every page after the cover page. The footer reads `i` of `paegs.length`, although the document has `paegs.length + 1` pages. The model keeps these labels as written.

In outputPDF.js, the header and footer are drawn from rasters taken at the page width `A4_WIDTH`. The page budget, however, uses their heights at `contentWidth`. The model keeps both: see `OutputPdf.HeaderCoversContentTop` and `OutputPdf.FooterCoversContentBottom`.

## Model

| member | source | states |
|---|---|---|
| Dom.GetElementTop | src/pdf.js:209-218 | the result is the element's offsetTop plus every offsetTop on its offsetParent chain, up to null (loop invariant over the chain); likewise at src/outputPDF.js:107-116 |
| Dom.ElementTopUnderParent | src/pdf.js:209-218 | one more positioned ancestor at offset p moves the absolute top down by exactly p |
| Dom.Ratio | src/pdf.js:169 | the ratio maps the element width onto the content width: ratio × elementWidth = contentWidth |
| Dom.FirstWithClass | src/pdf.js:167 | the node found is the first candidate that carries the class: it carries it and no earlier candidate does; none is found exactly when no candidate carries it |
| Dom.QuerySelector | src/pdf.js:167 | querySelector('.KFCP-PDF') is the first descendant in document order that carries the class |
| Jspdf.Ceil | src/pdf.js:27 | Math.ceil: the smallest whole number at or above x |
| Jspdf.AddBlank | src/pdf.js:25-28 | a white rectangle at (x, y) whose width and height are rounded up, so it covers at least the requested area; likewise at src/outputPDF.js:77-80 |
| Breaks.NormalStep | src/pdf.js:176-183 | appends exactly last + H iff top − last > H (last is 0 for an empty list), otherwise nothing; earlier entries are kept |
| Breaks.PosStep | src/pdf.js:188-205 | a full page (by the rule) appends last + H; otherwise top is appended iff top + height − last > H and top ≠ last; at most one entry, earlier entries kept; likewise at src/outputPDF.js:195-204, where the full test is `>=` |
| Breaks.Paginator.constructor | src/pdf.js:169 | the list starts as the single seed; likewise at src/outputPDF.js:103 |
| Breaks.Paginator.UpdateNormalElPos | src/pdf.js:176-183 | the new list is NormalStep of the old; the gap invariant is kept; likewise at src/outputPDF.js:185-189 |
| Breaks.Paginator.UpdatePos | src/pdf.js:188-205 | the new list is PosStep of the old under the accumulator's rule; the gap invariant is kept; likewise at src/outputPDF.js:195-204 |
| Breaks.Paginator.TraversingEditor | src/pdf.js:222-231 | one updatePos per direct element child, in order, nothing deeper: the list becomes Apply(old, EditorTrace(children)); likewise at src/outputPDF.js:172-181 |
| Breaks.Paginator.Finalise | src/pdf.js:305-307 | the new list is Finalised of the old; likewise at src/outputPDF.js:209-211 |
| Breaks.Finalised | src/pdf.js:305-307 | appends at most one break, last + H, and exactly when last + H is below the image height |
| Breaks.ApplyConcat | src/pdf.js:237-297 | making the calls of a and then those of b is making the calls of a + b (the walk is sequential) |
| Breaks.ApplyAppendOnly | src/pdf.js:176-205 | any run of calls only appends, at most one break per call, and never changes an earlier break |
| Breaks.ApplyKeepsGaps | src/pdf.js:177-199 | no two consecutive breaks are more than H apart after any run of calls |
| Breaks.ApplyIncreasing | src/pdf.js:177-199 | with H > 0, tops visited in non-decreasing order and not above the last break, the list stays strictly increasing |
| Breaks.StraddlePushWithinPage | src/outputPDF.js:197-202 | a straddle push lands at most one page below the last break, and strictly less than one under `>=` |
| Breaks.PosKeepsElementWhole | src/pdf.js:188-205 | when the full rule does not fire, an element no taller than a page that starts at or below the last break lies inside the band that starts at the resulting last break |
| Breaks.FullRuleMayCutElement | src/pdf.js:190-194 | when the full rule fires, the straddle test is skipped, so an element is cut: from a break at 0 with H = 500, a 450-high row at 600 gets only the break at 500, and the next element at 1100 adds a break at 1000, inside the row |
| Breaks.PosRunKeepsElementWhole | src/pdf.js:188-205 | over a whole run: when the full rule does not fire for an element no taller than a page starting at or below the last break, and all later tops are at or below its bottom, no break added by the run falls strictly inside the element |
| Breaks.BreakListProperties | src/pdf.js:169-307 | the finished list starts with the seed, has at most one break per call plus one, never has a gap above H, and is strictly increasing under the ordering conditions |
| Breaks.EditorTraceBound | src/pdf.js:222-231 | a rich-text block makes at most one call per element child |
| PdfJs.BaseX | src/pdf.js:105 | the given x, or the margin that centres the content across the A4 width |
| PdfJs.BaseY | src/pdf.js:106 | the given y, or the margin that centres the content height on the A4 height |
| PdfJs.PageHeight | src/pdf.js:156-160 | the page band plus footer and header heights is the content height |
| PdfJs.Classification | src/pdf.js:264-296 | preview-item: updatePos then recurse; pdf-editor-content: no check on the container, one per direct child; table row or IMG: updatePos, children only for a row whose unscaled height exceeds H; otherwise updateNomalElPos then recurse |
| PdfJs.TraceNodesBound | src/pdf.js:235-299 | the walk makes at most one accumulator call per element |
| PdfJs.BreaksPerElement | src/pdf.js:235-299 | so the walk adds at most one break per element |
| PdfJs.TraversingNodes | src/pdf.js:235-299 | the list becomes Apply(old, TraceNodes(nodes)): the classified pre-order walk, gap invariant kept |
| PdfJs.AddHeader | src/pdf.js:107-111 | the header is drawn only when asked, at the top of the page, aligned with the content |
| PdfJs.AddFooter | src/pdf.js:112-121 | the footer is drawn only when asked, labelled now of pageNum, at baseX with the content width and the footer raster's own height, resting on the page bottom |
| PdfJs.PagePlanShape | src/pdf.js:315-338 | page 0 is the bare image at baseY; page i > 0 puts break i − 1 at baseY, whites out from break i (at most one page below baseY) to the page bottom unless last, then the header and the footer reading i of the break count |
| PdfJs.Compose | src/pdf.js:315-338 | the document has one page more than there are breaks, page i being its plan |
| PdfJs.MyOutput | src/pdf.js:150-345 | fails exactly when the root has no .KFCP-PDF panel; otherwise the breaks are the panel-seeded walk of the panel's children, finalised, with gaps at most H, and the document is their page plan |
| OutputPdf.BaseX | src/outputPDF.js:89 | the margin that centres the content across the A4 width |
| OutputPdf.PageHeight | src/outputPDF.js:91-94 | header, gutter of 15, page band, gutter of 15 and footer fill the A4 height |
| OutputPdf.ContentWidth | src/outputPDF.js:39 | the content width defaults to 550 |
| OutputPdf.Classification | src/outputPDF.js:142-166 | divide-inside: updatePos then recurse; table row or IMG: updatePos only; editor: updatePos on the container then one per direct child; otherwise updateNomalElPos then recurse |
| OutputPdf.TraceNodesBound | src/outputPDF.js:121-169 | the walk makes at most one accumulator call per element |
| OutputPdf.BreaksPerElement | src/outputPDF.js:121-169 | so the walk adds at most one break per element |
| OutputPdf.TraversingNodes | src/outputPDF.js:121-169 | the list becomes Apply(old, TraceNodes(nodes)) under `>=`, gap invariant kept |
| OutputPdf.AddHeader | src/outputPDF.js:55-58 | the header raster spans the page width at the top left |
| OutputPdf.AddFooter | src/outputPDF.js:61-69 | the footer is labelled now of pageNum, spans the page width at the height of its page-width raster and rests on the page bottom |
| OutputPdf.HeaderCoversContentTop | src/outputPDF.js:83-94 | with the default width and a header half as tall as wide, the drawn header reaches past the top gutter into the content band |
| OutputPdf.FooterCoversContentBottom | src/outputPDF.js:61-94 | with the default width and a footer half as tall as wide, the footer drawn at the page width starts above the bottom gutter, over the content band |
| OutputPdf.PagePlanShape | src/outputPDF.js:214-240 | page i puts break i just under the top gutter, whites out both gutters, whites out from break i + 1 (no lower than the bottom gutter) to the page bottom unless last, and has header and footer reading i + 1 of the page count |
| OutputPdf.Compose | src/outputPDF.js:214-240 | exactly one page per break, page i being its plan, no page after the last |
| OutputPdf.OutputPDF | src/outputPDF.js:39-242 | no document exactly when the root is not an element; otherwise the breaks are the root-top-seeded walk of its children, finalised, with gaps at most H, and the document is their page plan |

## Left out

- Rasterisation by html2canvas is external. Content, header and footer heights are `width × aspect`, with each raster's aspect ratio given as an input.
- The rasteriser's canvas data and its `scale`/`dpi` options are left out. A missing header or footer makes rasterisation fail before any page is drawn, so that path is not modelled.
- Each cloned footer is assumed to rasterise at the same aspect ratio as the original footer.
- jsPDF drawing is an abstract command log. `setFillColor`, image data, `output2` and `save` carry no pagination logic.
- The DOM mutation that fills the footer labels is not modelled. It is `cloneNode`, `innerText` and `append`; the labels are kept as the pair (now, count).
- The header cache `this.__header`, the `message.success` toast and `async`/`await` sequencing are not modelled. The logic is sequential.
- The `outputPdf` wrapper in src/pdf.js (lines 89-148) is not modelled beyond baseX, baseY and the header/footer helpers. Its defaults (550, 800) are the caller's; `myOutput` receives plain numbers.
- Floating-point rounding, NaN and Infinity are not modelled: coordinates are exact reals.
  - A zero `offsetWidth` of the root is excluded by a precondition (the source would divide by zero).
  - A text node's NaN geometry is modelled by its effect: no push.
- PdfJs.MyOutput: the source also fails, before the panel lookup, when the root is not an HTMLElement (src/pdf.js:95-97, in the wrapper). The model takes an element root.
