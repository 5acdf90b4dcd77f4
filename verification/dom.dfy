/**
 * The part of the browser DOM that the page-break computation reads: a
 * read-only snapshot of the content tree with its already-resolved layout
 * geometry (offsetTop, the offsetParent chain, offsetWidth, offsetHeight).
 */
module Dom {
  import opened Wrappers

  /**
   * A child node. `Element` is an HTMLElement; `parentTops` lists the
   * offsetTop of every element on its offsetParent chain, nearest first,
   * ending where offsetParent is null. `Text` stands for every other node in
   * a childNodes list (text, comments): it has no tag, no classList and no
   * geometry.
   */
  datatype Node =
    | Element(tag: string, classes: set<string>, offsetTop: real, parentTops: seq<real>,
              offsetWidth: real, offsetHeight: real, children: seq<Node>)
    | Text

  predicate HasClass(n: Node, cls: string) {
    n.Element? && cls in n.classes
  }

  /** Sum of the offsets along an offsetParent chain. */
  function SumTops(tops: seq<real>): real {
    if tops == [] then 0.0 else tops[0] + SumTops(tops[1..])
  }

  lemma {:induction false} SumTopsAppend(a: seq<real>, b: seq<real>)
    ensures SumTops(a + b) == SumTops(a) + SumTops(b)
  {
    if a == [] {
      assert a + b == b;
    } else {
      assert (a + b)[1..] == a[1..] + b;
      SumTopsAppend(a[1..], b);
    }
  }

  /** The absolute top of an element: its own offset plus every offsetParent's. */
  function ElementTop(n: Node): real
    requires n.Element?
  {
    n.offsetTop + SumTops(n.parentTops)
  }

  /** getElementTop: walks the offsetParent chain, accumulating offsets. */
  method GetElementTop(element: Node) returns (actualTop: real)
    requires element.Element?
    ensures actualTop == ElementTop(element)
  {
    actualTop := element.offsetTop;
    var chain := element.parentTops;
    var k := 0;  // the current offsetParent is chain[k]; k == |chain| is null
    while k < |chain|
      invariant 0 <= k <= |chain|
      invariant actualTop == element.offsetTop + SumTops(chain[..k])
    {
      assert chain[..k + 1] == chain[..k] + [chain[k]];
      SumTopsAppend(chain[..k], [chain[k]]);
      actualTop := actualTop + chain[k];
      k := k + 1;
    }
    assert chain[..k] == chain;
  }

  /**
   * Placing an element's outermost positioned ancestor inside one more
   * offsetParent at offset `p` moves the element's absolute top down by `p`.
   */
  lemma {:induction false} ElementTopUnderParent(n: Node, p: real)
    requires n.Element?
    ensures ElementTop(n.(parentTops := n.parentTops + [p])) == ElementTop(n) + p
  {
    SumTopsAppend(n.parentTops, [p]);
    assert SumTops([p]) == p + SumTops([]);
  }

  /** The page-to-DOM scale factor `contentWidth / elementWidth`. */
  function Ratio(contentWidth: real, elementWidth: real): (r: real)
    requires elementWidth != 0.0
    ensures r * elementWidth == contentWidth
  {
    contentWidth / elementWidth
  }

  /** A DOM length in the scaled space of the content raster. */
  function Scale(ratio: real, v: real): real {
    ratio * v
  }

  /** All nodes of a forest in document (pre-)order. */
  function Descendants(ns: seq<Node>): seq<Node> {
    if ns == [] then []
    else
      match ns[0]
      case Text => [Text] + Descendants(ns[1..])
      case Element(_, _, _, _, _, _, children) => [ns[0]] + Descendants(children) + Descendants(ns[1..])
  }

  /** The first node of `ds` that carries class `cls`, if any. */
  function FirstWithClass(ds: seq<Node>, cls: string): (r: Option<Node>)
    ensures r.Some? ==> r.value in ds && HasClass(r.value, cls)
    ensures r.None? <==> forall d :: d in ds ==> !HasClass(d, cls)
    ensures r.Some? ==> exists k :: 0 <= k < |ds| && ds[k] == r.value &&
                                    forall j :: 0 <= j < k ==> !HasClass(ds[j], cls)
  {
    if ds == [] then None
    else if HasClass(ds[0], cls) then Some(ds[0])
    else FirstWithClass(ds[1..], cls)
  }

  lemma {:induction false} FirstWithClassAppend(a: seq<Node>, b: seq<Node>, cls: string)
    ensures FirstWithClass(a + b, cls) ==
            if FirstWithClass(a, cls).Some? then FirstWithClass(a, cls) else FirstWithClass(b, cls)
  {
    if a == [] {
      assert a + b == b;
    } else {
      assert (a + b)[0] == a[0];
      assert (a + b)[1..] == a[1..] + b;
      FirstWithClassAppend(a[1..], b, cls);
    }
  }

  /**
   * querySelector('.cls') on the parent of `ns`: the first descendant, in
   * document order, that carries the class.
   */
  function QuerySelector(ns: seq<Node>, cls: string): (r: Option<Node>)
    ensures r == FirstWithClass(Descendants(ns), cls)
  {
    if ns == [] then None
    else
      match ns[0]
      case Text =>
        assert Descendants(ns) == [Text] + Descendants(ns[1..]);
        FirstWithClassAppend([Text], Descendants(ns[1..]), cls);
        QuerySelector(ns[1..], cls)
      case Element(_, classes, _, _, _, _, children) =>
        FirstWithClassAppend([ns[0]] + Descendants(children), Descendants(ns[1..]), cls);
        FirstWithClassAppend([ns[0]], Descendants(children), cls);
        if cls in classes then Some(ns[0])
        else
          match QuerySelector(children, cls)
          case Some(found) => Some(found)
          case None => QuerySelector(ns[1..], cls)
  }

  /** Number of elements in a forest. */
  function ElementCount(ns: seq<Node>): nat {
    if ns == [] then 0
    else
      match ns[0]
      case Text => ElementCount(ns[1..])
      case Element(_, _, _, _, _, _, children) => 1 + ElementCount(children) + ElementCount(ns[1..])
  }
}
