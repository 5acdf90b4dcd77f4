/**
 * The exporter of src/pdf.js (myOutput): breaks are seeded with the top of
 * the `.KFCP-PDF` panel, the walk starts at the panel's children, and the
 * compositor prints a cover page (the whole raster, no header or footer)
 * followed by one page per break.
 */
module PdfJs {
  import opened Wrappers
  import opened Dom
  import opened Jspdf
  import opened Breaks

  /** Marker classes and tag the walker dispatches on. */
  const PREVIEW_ITEM: string := "preview-item"
  const EDITOR: string := "pdf-editor-content"
  const TABLE_ROW: string := "ant-table-row"
  const IMG: string := "IMG"
  const PANEL: string := "KFCP-PDF"

  /** Left margin: the given `x`, or the content centred on the page. */
  function BaseX(x: Option<real>, contentWidth: real): (r: real)
    ensures x.Some? ==> r == x.value
    ensures x.None? ==> r + contentWidth + r == A4_WIDTH
  {
    if x.None? then (A4_WIDTH - contentWidth) / 2.0 else x.value
  }

  /** Top margin: the given `y`, or the content height centred on the page. */
  function BaseY(y: Option<real>, contentHeight: real): (r: real)
    ensures y.Some? ==> r == y.value
    ensures y.None? ==> r + contentHeight + r == A4_HEIGHT
  {
    if y.None? then (A4_HEIGHT - contentHeight) / 2.0 else y.value
  }

  /** The content band of one page: the content height less footer and header. */
  function PageHeight(contentHeight: real, footerHeight: real, headerHeight: real): (h: real)
    ensures h + footerHeight + headerHeight == contentHeight
  {
    contentHeight - footerHeight - headerHeight
  }

  /**
   * The accumulator calls traversingNodes makes for one node, in order. A
   * text node has no classList, tag or geometry: its top is NaN in the
   * source, the normal-element test fails and it has no children, so it
   * makes no call. The too-tall test compares the UNSCALED offsetHeight
   * with the scaled page height, as the source does.
   */
  function TraceNode(n: Node, ratio: real, pageHeight: real): seq<Check>
    decreases n
  {
    match n
    case Text => []
    case Element(tag, classes, _, _, _, offsetHeight, children) =>
      var top := Scale(ratio, ElementTop(n));
      var height := Scale(ratio, offsetHeight);
      if PREVIEW_ITEM in classes then
        [Pos(height, top)] + TraceNodes(children, ratio, pageHeight)
      else if EDITOR in classes then
        EditorTrace(children, ratio)
      else if TABLE_ROW in classes || tag == IMG then
        [Pos(height, top)]
        + (if TABLE_ROW in classes && offsetHeight > pageHeight then TraceNodes(children, ratio, pageHeight) else [])
      else
        [Normal(top)] + TraceNodes(children, ratio, pageHeight)
  }

  /** The calls traversingNodes makes for a list of siblings: pre-order. */
  function TraceNodes(ns: seq<Node>, ratio: real, pageHeight: real): seq<Check>
    decreases ns
  {
    if ns == [] then [] else TraceNode(ns[0], ratio, pageHeight) + TraceNodes(ns[1..], ratio, pageHeight)
  }

  lemma {:induction false} TraceNodesSnoc(ns: seq<Node>, n: Node, ratio: real, pageHeight: real)
    ensures TraceNodes(ns + [n], ratio, pageHeight) == TraceNodes(ns, ratio, pageHeight) + TraceNode(n, ratio, pageHeight)
  {
    assert [n][1..] == [];
    assert TraceNodes([n], ratio, pageHeight) == TraceNode(n, ratio, pageHeight) + TraceNodes([], ratio, pageHeight);
    if ns == [] {
      assert ns + [n] == [n];
    } else {
      assert (ns + [n])[0] == ns[0];
      assert (ns + [n])[1..] == ns[1..] + [n];
      TraceNodesSnoc(ns[1..], n, ratio, pageHeight);
      var head := TraceNode(ns[0], ratio, pageHeight);
      calc {
        TraceNodes(ns + [n], ratio, pageHeight);
        head + TraceNodes(ns[1..] + [n], ratio, pageHeight);
        head + (TraceNodes(ns[1..], ratio, pageHeight) + TraceNode(n, ratio, pageHeight));
        (head + TraceNodes(ns[1..], ratio, pageHeight)) + TraceNode(n, ratio, pageHeight);
      }
    }
  }

  lemma TraceNodesPrefix(ns: seq<Node>, i: nat, ratio: real, pageHeight: real)
    requires i < |ns|
    ensures TraceNodes(ns[..i + 1], ratio, pageHeight) == TraceNodes(ns[..i], ratio, pageHeight) + TraceNode(ns[i], ratio, pageHeight)
  {
    assert ns[..i + 1] == ns[..i] + [ns[i]];
    TraceNodesSnoc(ns[..i], ns[i], ratio, pageHeight);
  }

  /**
   * Classification precedence: preview-item checks its own band then
   * recurses; pdf-editor-content checks each direct child only; a table row
   * or an image checks itself and its children are visited only for a row
   * taller than a page; anything else gets the page-full check and recurses.
   */
  lemma Classification(n: Node, ratio: real, pageHeight: real)
    requires n.Element?
    ensures var top := Scale(ratio, ElementTop(n));
            var height := Scale(ratio, n.offsetHeight);
            var t := TraceNode(n, ratio, pageHeight);
            && (PREVIEW_ITEM in n.classes ==>
                  t == [Pos(height, top)] + TraceNodes(n.children, ratio, pageHeight))
            && (PREVIEW_ITEM !in n.classes && EDITOR in n.classes ==>
                  t == EditorTrace(n.children, ratio))
            && (PREVIEW_ITEM !in n.classes && EDITOR !in n.classes && (TABLE_ROW in n.classes || n.tag == IMG) ==>
                  t == if TABLE_ROW in n.classes && n.offsetHeight > pageHeight
                       then [Pos(height, top)] + TraceNodes(n.children, ratio, pageHeight)
                       else [Pos(height, top)])
            && (PREVIEW_ITEM !in n.classes && EDITOR !in n.classes && TABLE_ROW !in n.classes && n.tag != IMG ==>
                  t == [Normal(top)] + TraceNodes(n.children, ratio, pageHeight))
  {
  }

  /** Every element visited makes at most one accumulator call. */
  lemma {:induction false} TraceNodesBound(ns: seq<Node>, ratio: real, pageHeight: real)
    ensures |TraceNodes(ns, ratio, pageHeight)| <= ElementCount(ns)
    decreases ns
  {
    if ns != [] {
      TraceNodesBound(ns[1..], ratio, pageHeight);
      match ns[0]
      case Text =>
      case Element(_, _, _, _, _, _, children) =>
        TraceNodesBound(children, ratio, pageHeight);
        EditorTraceBound(children, ratio);
    }
  }

  /** Hence every element adds at most one break. */
  lemma BreaksPerElement(s: seq<real>, ns: seq<Node>, ratio: real, pageHeight: real)
    ensures |Apply(s, pageHeight, Exceeds, TraceNodes(ns, ratio, pageHeight))| <= |s| + ElementCount(ns)
  {
    TraceNodesBound(ns, ratio, pageHeight);
    ApplyAppendOnly(s, pageHeight, Exceeds, TraceNodes(ns, ratio, pageHeight));
  }

  /** traversingNodes. */
  method TraversingNodes(p: Paginator, nodes: seq<Node>)
    requires p.Valid() && p.rule == Exceeds
    modifies p
    ensures p.Valid()
    ensures p.pages == Apply(old(p.pages), p.pageHeight, Exceeds, TraceNodes(nodes, p.ratio, p.pageHeight))
    decreases nodes
  {
    for i := 0 to |nodes|
      invariant p.Valid()
      invariant p.pages == Apply(old(p.pages), p.pageHeight, Exceeds, TraceNodes(nodes[..i], p.ratio, p.pageHeight))
    {
      var one := nodes[i];
      ghost var before := p.pages;
      ghost var trace := TraceNode(one, p.ratio, p.pageHeight);
      TraceNodesPrefix(nodes, i, p.ratio, p.pageHeight);
      ApplyConcat(old(p.pages), p.pageHeight, Exceeds, TraceNodes(nodes[..i], p.ratio, p.pageHeight), trace);
      if one.Element? {
        var isIMG := one.tag == IMG;
        var isPreviewItem := PREVIEW_ITEM in one.classes;
        var isTableCol := TABLE_ROW in one.classes;
        var isEditor := EDITOR in one.classes;
        var offsetHeight := one.offsetHeight;
        var offsetTop := GetElementTop(one);
        var top := Scale(p.ratio, offsetTop);
        var height := Scale(p.ratio, offsetHeight);
        Classification(one, p.ratio, p.pageHeight);
        if isPreviewItem {
          ApplyCons(before, p.pageHeight, Exceeds, Pos(height, top), TraceNodes(one.children, p.ratio, p.pageHeight));
          p.UpdatePos(height, top);
          TraversingNodes(p, one.children);
        } else if isEditor {
          p.TraversingEditor(one.children);
        } else if isTableCol || isIMG {
          p.UpdatePos(height, top);
          if isTableCol && offsetHeight > p.pageHeight {
            ApplyCons(before, p.pageHeight, Exceeds, Pos(height, top), TraceNodes(one.children, p.ratio, p.pageHeight));
            TraversingNodes(p, one.children);
          } else {
            ApplySingle(before, p.pageHeight, Exceeds, Pos(height, top));
          }
        } else {
          ApplyCons(before, p.pageHeight, Exceeds, Normal(top), TraceNodes(one.children, p.ratio, p.pageHeight));
          p.UpdateNormalElPos(top);
          TraversingNodes(p, one.children);
        }
      }
      assert p.pages == Apply(before, p.pageHeight, Exceeds, trace);
    }
    assert nodes[..|nodes|] == nodes;
  }

  /** Geometry of the printed page. */
  datatype Layout = Layout(baseX: real, baseY: real, contentWidth: real, imageHeight: real,
                           headerHeight: real, footerHeight: real)

  /** addHeader(isFirst): the header raster at the top of the page, aligned with the content. */
  function AddHeader(l: Layout, isFirst: bool): (cmds: seq<Cmd>)
    ensures |cmds| == if isFirst then 1 else 0
    ensures isFirst ==> cmds[0].HeaderImage? && cmds[0].y == 0.0 &&
                        cmds[0].x == l.baseX && cmds[0].w == l.contentWidth && cmds[0].h == l.headerHeight
  {
    if isFirst then [HeaderImage(l.baseX, 0.0, l.contentWidth, l.headerHeight)] else []
  }

  /**
   * addFooter(isLast, pageNum, now): a copy of the footer whose two labels
   * read `now` and `pageNum`, resting on the bottom edge of the page.
   */
  function AddFooter(l: Layout, isLast: bool, pageNum: int, now: int): (cmds: seq<Cmd>)
    ensures |cmds| == if isLast then 1 else 0
    ensures isLast ==> cmds[0].FooterImage? && cmds[0].now == now && cmds[0].count == pageNum &&
                       cmds[0].y + cmds[0].h == A4_HEIGHT && cmds[0].x == l.baseX &&
                       cmds[0].w == l.contentWidth && cmds[0].h == l.footerHeight
  {
    if isLast then [FooterImage(l.baseX, A4_HEIGHT - l.footerHeight, l.contentWidth, l.footerHeight, now, pageNum)] else []
  }

  /**
   * What page `i` holds. Page 0 is the whole raster at baseY. Page i > 0
   * shifts the raster up by breaks[i - 1], whites out everything below the
   * band breaks[i] - breaks[i - 1] unless it is the last page, and carries
   * the header and the footer labelled i of |breaks|.
   */
  function PageCommands(l: Layout, breaks: seq<real>, i: nat): seq<Cmd>
    requires i <= |breaks|
  {
    if i == 0 then [ContentImage(l.baseX, l.baseY, l.contentWidth, l.imageHeight)]
    else
      [ContentImage(l.baseX, l.baseY - breaks[i - 1], l.contentWidth, l.imageHeight)]
      + (if i != |breaks|
         then var band := breaks[i] - breaks[i - 1];
              [AddBlank(0.0, l.baseY + band, A4_WIDTH, A4_HEIGHT - (l.baseY + band))]
         else [])
      + AddHeader(l, i != 0)
      + AddFooter(l, i != 0, |breaks|, i)
  }

  /** The document is the page plan of `breaks`: one page more than there are breaks. */
  ghost predicate Plans(doc: Doc, l: Layout, breaks: seq<real>) {
    |doc| == |breaks| + 1 &&
    forall i :: 0 <= i < |doc| ==> doc[i] == PageCommands(l, breaks, i)
  }

  /**
   * Reading the page plan: page i (0 < i < |breaks|) shows exactly the band
   * from breaks[i - 1] to breaks[i] below baseY, which is at most one page
   * height when the gaps are; the cover page has no header or footer; the
   * last page is not whited out; every other page's footer reads i of
   * |breaks|.
   */
  lemma PagePlanShape(l: Layout, breaks: seq<real>, pageHeight: real, i: nat)
    requires GapsAtMost(breaks, pageHeight) && i <= |breaks|
    ensures var cmds := PageCommands(l, breaks, i);
            && (i == 0 ==> cmds == [ContentImage(l.baseX, l.baseY, l.contentWidth, l.imageHeight)])
            && (0 < i ==> cmds[0].ContentImage? && cmds[0].y + breaks[i - 1] == l.baseY &&
                          cmds[|cmds| - 1].FooterImage? && cmds[|cmds| - 1].now == i &&
                          cmds[|cmds| - 1].count == |breaks| && cmds[|cmds| - 2].HeaderImage?)
            && (0 < i < |breaks| ==>
                  && |cmds| == 4 && cmds[1].WhiteRect?
                  && cmds[1].y == cmds[0].y + breaks[i]
                  && cmds[1].y <= l.baseY + pageHeight
                  && cmds[1].y + cmds[1].height as real >= A4_HEIGHT)
            && (0 < i == |breaks| ==> |cmds| == 3)
  {
  }

  /** The compositor loop: a cover page, then one page per break. */
  method Compose(l: Layout, breaks: seq<real>) returns (doc: Doc)
    requires |breaks| > 0
    ensures Plans(doc, l, breaks)
  {
    var n := |breaks|;
    var done: Doc := [];          // the finished pages
    var current: seq<Cmd> := [];  // the page being drawn on
    for i := 0 to n + 1
      invariant i <= n ==> |done| == i && current == []
      invariant i == n + 1 ==> |done| == n && current == PageCommands(l, breaks, n)
      invariant forall j :: 0 <= j < |done| ==> done[j] == PageCommands(l, breaks, j)
    {
      if i == 0 {
        current := current + [ContentImage(l.baseX, l.baseY, l.contentWidth, l.imageHeight)];
        done, current := done + [current], [];  // addPage
      } else {
        current := current + [ContentImage(l.baseX, l.baseY - breaks[i - 1], l.contentWidth, l.imageHeight)];
        if i != n {
          var imageHeight := breaks[i] - breaks[i - 1];
          current := current + [AddBlank(0.0, l.baseY + imageHeight, A4_WIDTH, A4_HEIGHT - (l.baseY + imageHeight))];
        }
        current := current + AddHeader(l, i != 0);
        current := current + AddFooter(l, i != 0, n, i);
        if i != n {
          done, current := done + [current], [];  // addPage
        }
      }
    }
    doc := done + [current];
  }

  /** Options of one export call; the aspects are canvas height over canvas width. */
  datatype Options = Options(contentWidth: real, contentHeight: real, x: Option<real>, y: Option<real>,
                             contentAspect: real, headerAspect: real, footerAspect: real)

  datatype Output = Output(breaks: seq<real>, doc: Doc)

  /** Page geometry from the options: everything is rasterised at contentWidth. */
  function LayoutOf(o: Options): Layout {
    Layout(BaseX(o.x, o.contentWidth), BaseY(o.y, o.contentHeight), o.contentWidth,
           CanvasHeight(o.contentWidth, o.contentAspect),
           CanvasHeight(o.contentWidth, o.headerAspect),
           CanvasHeight(o.contentWidth, o.footerAspect))
  }

  function PageHeightOf(o: Options): real {
    PageHeight(o.contentHeight, LayoutOf(o).footerHeight, LayoutOf(o).headerHeight)
  }

  /**
   * myOutput. A root without a `.KFCP-PDF` descendant fails (the source
   * reads offsetTop of null). Otherwise the breaks are the panel's scaled
   * offsetTop, then the walk over the panel's children, then the
   * finalisation; the document is their page plan.
   */
  method MyOutput(element: Node, o: Options) returns (r: Result<Output>)
    requires element.Element? && element.offsetWidth > 0.0
    ensures QuerySelector(element.children, PANEL).None? <==> r.Err?
    ensures r.Ok? ==>
              var panel := QuerySelector(element.children, PANEL).value;
              var ratio := Ratio(o.contentWidth, element.offsetWidth);
              && r.value.breaks ==
                 Finalised(Apply([Scale(ratio, panel.offsetTop)], PageHeightOf(o), Exceeds,
                                 TraceNodes(panel.children, ratio, PageHeightOf(o))),
                           PageHeightOf(o), LayoutOf(o).imageHeight)
              && Plans(r.value.doc, LayoutOf(o), r.value.breaks)
              && |r.value.breaks| > 0 && r.value.breaks[0] == Scale(ratio, panel.offsetTop)
              && GapsAtMost(r.value.breaks, PageHeightOf(o))
  {
    var l := LayoutOf(o);
    var originalPageHeight := PageHeight(o.contentHeight, l.footerHeight, l.headerHeight);
    var elementWidth := element.offsetWidth;
    var ratio := Ratio(o.contentWidth, elementWidth);
    var componentPanel := QuerySelector(element.children, PANEL);
    if componentPanel.None? {
      return Err("the root has no .KFCP-PDF panel");
    }
    var panel := componentPanel.value;
    var seed := Scale(ratio, panel.offsetTop);
    var paegs := new Paginator(seed, ratio, originalPageHeight, Exceeds);
    TraversingNodes(paegs, panel.children);
    paegs.Finalise(l.imageHeight);
    BreakListProperties(seed, originalPageHeight, Exceeds, TraceNodes(panel.children, ratio, originalPageHeight), l.imageHeight);
    var doc := Compose(l, paegs.pages);
    r := Ok(Output(paegs.pages, doc));
  }
}
