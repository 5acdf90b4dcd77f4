/**
 * The exporter of src/outputPDF.js (outputPDF): breaks are seeded with the
 * root's own page top, the walk starts at the root's children, and every
 * page, the first included, carries a white gutter above and below the
 * content, the header and a numbered footer.
 */
module OutputPdf {
  import opened Wrappers
  import opened Dom
  import opened Jspdf
  import opened Breaks

  /** Marker classes and tag the walker dispatches on. */
  const DIVIDE_INSIDE: string := "divide-inside"
  const TABLE_ROW: string := "ant-table-row"
  const IMG: string := "IMG"
  const EDITOR: string := "editor"

  /** White gutter between header, content and footer. */
  const BASE_Y: real := 15.0
  const DEFAULT_CONTENT_WIDTH: real := 550.0

  /** The content is centred across the page. */
  function BaseX(contentWidth: real): (r: real)
    ensures r + contentWidth + r == A4_WIDTH
  {
    (A4_WIDTH - contentWidth) / 2.0
  }

  /** Header, gutter, content band, gutter and footer stack to the page height. */
  function PageHeight(footerHeight: real, headerHeight: real): (h: real)
    ensures headerHeight + BASE_Y + h + BASE_Y + footerHeight == A4_HEIGHT
  {
    A4_HEIGHT - footerHeight - headerHeight - 2.0 * BASE_Y
  }

  /**
   * The accumulator calls traversingNodes makes for one node. A text node
   * matches no marker, fails the normal check on its NaN top and has no
   * children, so it makes no call.
   */
  function TraceNode(n: Node, ratio: real): seq<Check>
    decreases n
  {
    match n
    case Text => []
    case Element(tag, classes, _, _, _, offsetHeight, children) =>
      var top := Scale(ratio, ElementTop(n));
      var height := Scale(ratio, offsetHeight);
      if DIVIDE_INSIDE in classes then [Pos(height, top)] + TraceNodes(children, ratio)
      else if TABLE_ROW in classes || tag == IMG then [Pos(height, top)]
      else if EDITOR in classes then [Pos(height, top)] + EditorTrace(children, ratio)
      else [Normal(top)] + TraceNodes(children, ratio)
  }

  function TraceNodes(ns: seq<Node>, ratio: real): seq<Check>
    decreases ns
  {
    if ns == [] then [] else TraceNode(ns[0], ratio) + TraceNodes(ns[1..], ratio)
  }

  lemma {:induction false} TraceNodesSnoc(ns: seq<Node>, n: Node, ratio: real)
    ensures TraceNodes(ns + [n], ratio) == TraceNodes(ns, ratio) + TraceNode(n, ratio)
  {
    assert [n][1..] == [];
    assert TraceNodes([n], ratio) == TraceNode(n, ratio) + TraceNodes([], ratio);
    if ns == [] {
      assert ns + [n] == [n];
    } else {
      assert (ns + [n])[0] == ns[0];
      assert (ns + [n])[1..] == ns[1..] + [n];
      TraceNodesSnoc(ns[1..], n, ratio);
      var head := TraceNode(ns[0], ratio);
      calc {
        TraceNodes(ns + [n], ratio);
        head + TraceNodes(ns[1..] + [n], ratio);
        head + (TraceNodes(ns[1..], ratio) + TraceNode(n, ratio));
        (head + TraceNodes(ns[1..], ratio)) + TraceNode(n, ratio);
      }
    }
  }

  lemma TraceNodesPrefix(ns: seq<Node>, i: nat, ratio: real)
    requires i < |ns|
    ensures TraceNodes(ns[..i + 1], ratio) == TraceNodes(ns[..i], ratio) + TraceNode(ns[i], ratio)
  {
    assert ns[..i + 1] == ns[..i] + [ns[i]];
    TraceNodesSnoc(ns[..i], ns[i], ratio);
  }

  /**
   * Classification precedence: divide-inside checks its band and recurses;
   * a table row or an image checks its band and stops, however tall; an
   * editor checks its own band and then each direct child; anything else
   * gets the page-full check and recurses.
   */
  lemma Classification(n: Node, ratio: real)
    requires n.Element?
    ensures var top := Scale(ratio, ElementTop(n));
            var height := Scale(ratio, n.offsetHeight);
            var t := TraceNode(n, ratio);
            && (DIVIDE_INSIDE in n.classes ==>
                  t == [Pos(height, top)] + TraceNodes(n.children, ratio))
            && (DIVIDE_INSIDE !in n.classes && (TABLE_ROW in n.classes || n.tag == IMG) ==>
                  t == [Pos(height, top)])
            && (DIVIDE_INSIDE !in n.classes && TABLE_ROW !in n.classes && n.tag != IMG && EDITOR in n.classes ==>
                  t == [Pos(height, top)] + EditorTrace(n.children, ratio))
            && (DIVIDE_INSIDE !in n.classes && TABLE_ROW !in n.classes && n.tag != IMG && EDITOR !in n.classes ==>
                  t == [Normal(top)] + TraceNodes(n.children, ratio))
  {
  }

  /** Every element visited makes at most one accumulator call. */
  lemma {:induction false} TraceNodesBound(ns: seq<Node>, ratio: real)
    ensures |TraceNodes(ns, ratio)| <= ElementCount(ns)
    decreases ns
  {
    if ns != [] {
      TraceNodesBound(ns[1..], ratio);
      match ns[0]
      case Text =>
      case Element(_, _, _, _, _, _, children) =>
        TraceNodesBound(children, ratio);
        EditorTraceBound(children, ratio);
    }
  }

  /** Hence every element adds at most one break. */
  lemma BreaksPerElement(s: seq<real>, ns: seq<Node>, ratio: real, pageHeight: real)
    ensures |Apply(s, pageHeight, Reaches, TraceNodes(ns, ratio))| <= |s| + ElementCount(ns)
  {
    TraceNodesBound(ns, ratio);
    ApplyAppendOnly(s, pageHeight, Reaches, TraceNodes(ns, ratio));
  }

  /** traversingNodes. */
  method TraversingNodes(p: Paginator, nodes: seq<Node>)
    requires p.Valid() && p.rule == Reaches
    modifies p
    ensures p.Valid()
    ensures p.pages == Apply(old(p.pages), p.pageHeight, Reaches, TraceNodes(nodes, p.ratio))
    decreases nodes
  {
    for i := 0 to |nodes|
      invariant p.Valid()
      invariant p.pages == Apply(old(p.pages), p.pageHeight, Reaches, TraceNodes(nodes[..i], p.ratio))
    {
      var one := nodes[i];
      ghost var before := p.pages;
      ghost var trace := TraceNode(one, p.ratio);
      TraceNodesPrefix(nodes, i, p.ratio);
      ApplyConcat(old(p.pages), p.pageHeight, Reaches, TraceNodes(nodes[..i], p.ratio), trace);
      if one.Element? {
        var isDivideInside := DIVIDE_INSIDE in one.classes;
        var isIMG := one.tag == IMG;
        var isTableCol := TABLE_ROW in one.classes;
        var isEditor := EDITOR in one.classes;
        var offsetHeight := one.offsetHeight;
        var offsetTop := GetElementTop(one);
        var top := Scale(p.ratio, offsetTop);
        var height := Scale(p.ratio, offsetHeight);
        Classification(one, p.ratio);
        if isDivideInside {
          ApplyCons(before, p.pageHeight, Reaches, Pos(height, top), TraceNodes(one.children, p.ratio));
          p.UpdatePos(height, top);
          TraversingNodes(p, one.children);
        } else if isTableCol || isIMG {
          ApplySingle(before, p.pageHeight, Reaches, Pos(height, top));
          p.UpdatePos(height, top);
        } else if isEditor {
          ApplyCons(before, p.pageHeight, Reaches, Pos(height, top), EditorTrace(one.children, p.ratio));
          p.UpdatePos(height, top);
          p.TraversingEditor(one.children);
        } else {
          ApplyCons(before, p.pageHeight, Reaches, Normal(top), TraceNodes(one.children, p.ratio));
          p.UpdateNormalElPos(top);
          TraversingNodes(p, one.children);
        }
      }
      assert p.pages == Apply(before, p.pageHeight, Reaches, trace);
    }
    assert nodes[..|nodes|] == nodes;
  }

  /**
   * Geometry of the printed page. The header and footer heights that budget
   * the page are those of rasters at the content width; the images drawn
   * are rasterised at the full page width, with their own heights.
   */
  datatype Layout = Layout(contentWidth: real, imageHeight: real,
                           headerHeight: real, footerHeight: real,
                           headerDrawHeight: real, footerDrawHeight: real)

  /** addHeader: the header raster across the full page width at the top left. */
  function AddHeader(l: Layout): (c: Cmd)
    ensures c.HeaderImage? && c.x == 0.0 && c.y == 0.0 && c.w == A4_WIDTH && c.h == l.headerDrawHeight
  {
    HeaderImage(0.0, 0.0, A4_WIDTH, l.headerDrawHeight)
  }

  /** addFooter(pageNum, now): a footer labelled `now` of `pageNum`, resting on the page bottom. */
  function AddFooter(l: Layout, pageNum: int, now: int): (c: Cmd)
    ensures c.FooterImage? && c.now == now && c.count == pageNum &&
            c.x == 0.0 && c.w == A4_WIDTH && c.h == l.footerDrawHeight && c.y + c.h == A4_HEIGHT
  {
    FooterImage(0.0, A4_HEIGHT - l.footerDrawHeight, A4_WIDTH, l.footerDrawHeight, now, pageNum)
  }

  /**
   * What page `i` holds: the raster shifted so that break i sits under the
   * top gutter, the two gutters whited out, everything from break i + 1 on
   * whited out unless it is the last page, the header and the footer
   * labelled i + 1 of |pages|.
   */
  function PageCommands(l: Layout, pages: seq<real>, i: nat): seq<Cmd>
    requires i < |pages|
  {
    [ContentImage(BaseX(l.contentWidth), BASE_Y + l.headerHeight - pages[i], l.contentWidth, l.imageHeight),
     AddBlank(0.0, l.headerHeight, A4_WIDTH, BASE_Y),
     AddBlank(0.0, A4_HEIGHT - BASE_Y - l.footerHeight, A4_WIDTH, BASE_Y)]
    + (if i < |pages| - 1
       then var imageHeight := pages[i + 1] - pages[i];
            [AddBlank(0.0, BASE_Y + imageHeight + l.headerHeight, A4_WIDTH, A4_HEIGHT - imageHeight)]
       else [])
    + [AddHeader(l), AddFooter(l, |pages|, i + 1)]
  }

  /** The document is the page plan of `pages`: one page per break. */
  ghost predicate Plans(doc: Doc, l: Layout, pages: seq<real>) {
    |doc| == |pages| &&
    forall i :: 0 <= i < |doc| ==> doc[i] == PageCommands(l, pages, i)
  }

  /**
   * Reading the page plan: break i sits exactly at the bottom of the top
   * gutter; on every page but the last the content from break i + 1 on is
   * whited out down to the page bottom, and that white-out starts no lower
   * than the top of the bottom gutter when the gaps are at most a page
   * height; the footer reads i + 1 of |pages|.
   */
  lemma PagePlanShape(l: Layout, pages: seq<real>, i: nat)
    requires GapsAtMost(pages, PageHeight(l.footerHeight, l.headerHeight)) && i < |pages|
    requires l.headerHeight >= 0.0
    ensures var cmds := PageCommands(l, pages, i);
            && cmds[0].ContentImage? && cmds[1].WhiteRect? && cmds[2].WhiteRect?
            && cmds[0].y + pages[i] == cmds[1].y + BASE_Y
            && cmds[2].y + BASE_Y + l.footerHeight == A4_HEIGHT
            && cmds[|cmds| - 2].HeaderImage?
            && cmds[|cmds| - 1].FooterImage? && cmds[|cmds| - 1].now == i + 1
            && cmds[|cmds| - 1].count == |pages|
            && (i < |pages| - 1 ==>
                  && |cmds| == 6 && cmds[3].WhiteRect?
                  && cmds[3].y == cmds[0].y + pages[i + 1]
                  && cmds[3].y <= cmds[2].y
                  && cmds[3].y + cmds[3].height as real >= A4_HEIGHT)
            && (i == |pages| - 1 ==> |cmds| == 5)
  {
  }

  /** The compositor loop: one page per break, a new page after every page but the last. */
  method Compose(l: Layout, pages: seq<real>) returns (doc: Doc)
    requires |pages| > 0
    ensures Plans(doc, l, pages)
  {
    var n := |pages|;
    var done: Doc := [];          // the finished pages
    var current: seq<Cmd> := [];  // the page being drawn on
    for i := 0 to n
      invariant i < n ==> |done| == i && current == []
      invariant i == n ==> |done| == n - 1 && current == PageCommands(l, pages, n - 1)
      invariant forall j :: 0 <= j < |done| ==> done[j] == PageCommands(l, pages, j)
    {
      current := current + [ContentImage(BaseX(l.contentWidth), BASE_Y + l.headerHeight - pages[i], l.contentWidth, l.imageHeight)];
      current := current + [AddBlank(0.0, l.headerHeight, A4_WIDTH, BASE_Y)];
      current := current + [AddBlank(0.0, A4_HEIGHT - BASE_Y - l.footerHeight, A4_WIDTH, BASE_Y)];
      if i < n - 1 {
        var imageHeight := pages[i + 1] - pages[i];
        current := current + [AddBlank(0.0, BASE_Y + imageHeight + l.headerHeight, A4_WIDTH, A4_HEIGHT - imageHeight)];
      }
      current := current + [AddHeader(l)];
      current := current + [AddFooter(l, n, i + 1)];
      if i != n - 1 {
        done, current := done + [current], [];  // addPage
      }
    }
    doc := done + [current];
  }

  /** Options of one export call; the aspects are canvas height over canvas width. */
  datatype Options = Options(contentWidth: Option<real>, contentAspect: real, headerAspect: real, footerAspect: real)

  datatype Output = Output(pages: seq<real>, doc: Doc)

  function ContentWidth(o: Options): (w: real)
    ensures o.contentWidth.Some? ==> w == o.contentWidth.value
    ensures o.contentWidth.None? ==> w == DEFAULT_CONTENT_WIDTH
  {
    if o.contentWidth.Some? then o.contentWidth.value else DEFAULT_CONTENT_WIDTH
  }

  /**
   * Page geometry from the options: the content, and the header and footer
   * used to budget the page, are rasterised at the content width; the header
   * and footer drawn are rasterised at the page width.
   */
  function LayoutOf(o: Options): Layout {
    var cw := ContentWidth(o);
    Layout(cw, CanvasHeight(cw, o.contentAspect),
           CanvasHeight(cw, o.headerAspect), CanvasHeight(cw, o.footerAspect),
           CanvasHeight(A4_WIDTH, o.headerAspect), CanvasHeight(A4_WIDTH, o.footerAspect))
  }

  function PageHeightOf(o: Options): real {
    PageHeight(LayoutOf(o).footerHeight, LayoutOf(o).headerHeight)
  }

  /**
   * The header drawn at the page width is taller than the one the page was
   * budgeted for: with the default width and a header half as tall as wide,
   * it reaches past the top gutter into the content band.
   */
  lemma HeaderCoversContentTop()
    ensures var l := LayoutOf(Options(None, 1.0, 0.5, 0.1));
            AddHeader(l).y + AddHeader(l).h > l.headerHeight + BASE_Y
  {
  }

  /**
   * Likewise for the footer: with the default width and a footer half as
   * tall as wide, the drawn footer starts above the bottom gutter, over the
   * content band.
   */
  lemma FooterCoversContentBottom()
    ensures var l := LayoutOf(Options(None, 1.0, 0.1, 0.5));
            AddFooter(l, 1, 1).y < A4_HEIGHT - BASE_Y - l.footerHeight
  {
  }

  /**
   * outputPDF. A root that is not an element is ignored. Otherwise the
   * breaks are the root's scaled page top, then the walk over its children,
   * then the finalisation; the document is their page plan.
   */
  method OutputPDF(element: Node, o: Options) returns (r: Option<Output>)
    requires element.Element? ==> element.offsetWidth > 0.0
    ensures element.Text? <==> r.None?
    ensures r.Some? ==>
              var rate := Ratio(ContentWidth(o), element.offsetWidth);
              var seed := Scale(rate, ElementTop(element));
              && r.value.pages ==
                 Finalised(Apply([seed], PageHeightOf(o), Reaches, TraceNodes(element.children, rate)),
                           PageHeightOf(o), LayoutOf(o).imageHeight)
              && Plans(r.value.doc, LayoutOf(o), r.value.pages)
              && |r.value.pages| > 0 && r.value.pages[0] == seed
              && GapsAtMost(r.value.pages, PageHeightOf(o))
  {
    if element.Text? {
      return None;
    }
    var l := LayoutOf(o);
    var originalPageHeight := PageHeight(l.footerHeight, l.headerHeight);
    var elementWidth := element.offsetWidth;
    var rate := Ratio(l.contentWidth, elementWidth);
    var rootTop := GetElementTop(element);
    var seed := Scale(rate, rootTop);
    var pages := new Paginator(seed, rate, originalPageHeight, Reaches);
    TraversingNodes(pages, element.children);
    pages.Finalise(l.imageHeight);
    BreakListProperties(seed, originalPageHeight, Reaches, TraceNodes(element.children, rate), l.imageHeight);
    var doc := Compose(l, pages.pages);
    r := Some(Output(pages.pages, doc));
  }
}
