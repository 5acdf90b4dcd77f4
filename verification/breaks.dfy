/**
 * The page-break accumulator shared by both exporters: an append-only list
 * of cut coordinates in the scaled space of the content raster, seeded with
 * one entry, grown by the "page is full" rule (updateNomalElPos) and the
 * "element would straddle the page" rule (updatePos), and closed by a
 * one-shot finalisation.
 */
module Breaks {
  import opened Dom

  /** One call the tree walker makes on the accumulator, in scaled coordinates. */
  datatype Check =
    | Normal(top: real)              // updateNomalElPos(top)
    | Pos(height: real, top: real)   // updatePos(height, top)

  /**
   * The comparison updatePos uses for its "page is full" test: pdf.js
   * tests `>` (Exceeds), outputPDF.js tests `>=` (Reaches).
   */
  datatype FullRule = Exceeds | Reaches

  predicate PageFull(rule: FullRule, gap: real, pageHeight: real) {
    match rule
    case Exceeds => gap > pageHeight
    case Reaches => gap >= pageHeight
  }

  /** The last break, or 0 for an empty list. */
  function Last(s: seq<real>): real {
    if |s| > 0 then s[|s| - 1] else 0.0
  }

  /** No two consecutive breaks are more than a page height apart. */
  ghost predicate GapsAtMost(s: seq<real>, pageHeight: real) {
    forall i :: 0 < i < |s| ==> s[i] - s[i - 1] <= pageHeight
  }

  ghost predicate StrictlyIncreasing(s: seq<real>) {
    forall i :: 0 < i < |s| ==> s[i - 1] < s[i]
  }

  /** The walker visits tops in non-decreasing order. */
  ghost predicate TopsNonDecreasing(cs: seq<Check>) {
    forall i :: 0 < i < |cs| ==> cs[i - 1].top <= cs[i].top
  }

  /** updateNomalElPos: cut one page below the last break once `top` is past it. */
  function NormalStep(s: seq<real>, pageHeight: real, top: real): (r: seq<real>)
    ensures |s| <= |r| <= |s| + 1 && r[..|s|] == s
    ensures |r| == |s| + 1 <==> top - Last(s) > pageHeight
    ensures |r| == |s| + 1 ==> r[|s|] == Last(s) + pageHeight
  {
    if top - Last(s) > pageHeight then s + [Last(s) + pageHeight] else s
  }

  /**
   * updatePos: the full-page rule first; otherwise cut at the element's own
   * top when the element would run past the page and does not already start
   * at the last break.
   */
  function PosStep(s: seq<real>, pageHeight: real, rule: FullRule, height: real, top: real): (r: seq<real>)
    ensures |s| <= |r| <= |s| + 1 && r[..|s|] == s
    ensures PageFull(rule, top - Last(s), pageHeight) ==> r == s + [Last(s) + pageHeight]
    ensures !PageFull(rule, top - Last(s), pageHeight) ==>
              (|r| == |s| + 1 <==> top + height - Last(s) > pageHeight && top != Last(s))
    ensures !PageFull(rule, top - Last(s), pageHeight) && |r| == |s| + 1 ==> r[|s|] == top
  {
    var last := Last(s);
    if PageFull(rule, top - last, pageHeight) then s + [last + pageHeight]
    else if top + height - last > pageHeight && top != last then s + [top]
    else s
  }

  function Step(s: seq<real>, pageHeight: real, rule: FullRule, c: Check): seq<real> {
    match c
    case Normal(top) => NormalStep(s, pageHeight, top)
    case Pos(height, top) => PosStep(s, pageHeight, rule, height, top)
  }

  /** The break list after making the calls `cs` in order. */
  function Apply(s: seq<real>, pageHeight: real, rule: FullRule, cs: seq<Check>): seq<real>
    decreases |cs|
  {
    if cs == [] then s else Apply(Step(s, pageHeight, rule, cs[0]), pageHeight, rule, cs[1..])
  }

  lemma ApplyCons(s: seq<real>, pageHeight: real, rule: FullRule, c: Check, cs: seq<Check>)
    ensures Apply(s, pageHeight, rule, [c] + cs) == Apply(Step(s, pageHeight, rule, c), pageHeight, rule, cs)
  {
    assert ([c] + cs)[1..] == cs;
  }

  lemma ApplySingle(s: seq<real>, pageHeight: real, rule: FullRule, c: Check)
    ensures Apply(s, pageHeight, rule, [c]) == Step(s, pageHeight, rule, c)
  {
    assert [c][1..] == [];
  }

  /** Making the calls `a` and then `b` is making the calls `a + b`. */
  lemma {:induction false} ApplyConcat(s: seq<real>, pageHeight: real, rule: FullRule, a: seq<Check>, b: seq<Check>)
    ensures Apply(s, pageHeight, rule, a + b) == Apply(Apply(s, pageHeight, rule, a), pageHeight, rule, b)
    decreases |a|
  {
    if a == [] {
      assert a + b == b;
    } else {
      assert (a + b)[0] == a[0];
      assert (a + b)[1..] == a[1..] + b;
      ApplyConcat(Step(s, pageHeight, rule, a[0]), pageHeight, rule, a[1..], b);
    }
  }

  /** The list only grows, by at most one break per call, and earlier breaks never change. */
  lemma {:induction false} ApplyAppendOnly(s: seq<real>, pageHeight: real, rule: FullRule, cs: seq<Check>)
    ensures |s| <= |Apply(s, pageHeight, rule, cs)| <= |s| + |cs|
    ensures Apply(s, pageHeight, rule, cs)[..|s|] == s
    decreases |cs|
  {
    if cs != [] {
      var t := Step(s, pageHeight, rule, cs[0]);
      ApplyAppendOnly(t, pageHeight, rule, cs[1..]);
      var r := Apply(t, pageHeight, rule, cs[1..]);
      assert r[..|s|] == r[..|t|][..|s|];
    }
  }

  lemma StepKeepsGaps(s: seq<real>, pageHeight: real, rule: FullRule, c: Check)
    requires GapsAtMost(s, pageHeight)
    ensures GapsAtMost(Step(s, pageHeight, rule, c), pageHeight)
  {
    var r := Step(s, pageHeight, rule, c);
    if |r| == |s| + 1 {
      forall i | 0 < i < |r| ensures r[i] - r[i - 1] <= pageHeight {
        if i < |s| {
          assert r[i] == s[i] && r[i - 1] == s[i - 1];
        }
      }
    }
  }

  /** Every gap between consecutive breaks stays at most one page height. */
  lemma {:induction false} ApplyKeepsGaps(s: seq<real>, pageHeight: real, rule: FullRule, cs: seq<Check>)
    requires GapsAtMost(s, pageHeight)
    ensures GapsAtMost(Apply(s, pageHeight, rule, cs), pageHeight)
    decreases |cs|
  {
    if cs != [] {
      StepKeepsGaps(s, pageHeight, rule, cs[0]);
      ApplyKeepsGaps(Step(s, pageHeight, rule, cs[0]), pageHeight, rule, cs[1..]);
    }
  }

  lemma StepKeepsIncreasing(s: seq<real>, pageHeight: real, rule: FullRule, c: Check)
    requires pageHeight > 0.0 && |s| > 0 && StrictlyIncreasing(s) && Last(s) <= c.top
    ensures var r := Step(s, pageHeight, rule, c);
            |r| > 0 && StrictlyIncreasing(r) && Last(r) <= c.top
  {
    var r := Step(s, pageHeight, rule, c);
    if |r| == |s| + 1 {
      assert Last(s) < r[|s|];
      forall i | 0 < i < |r| ensures r[i - 1] < r[i] {
        if i < |s| {
          assert r[i] == s[i] && r[i - 1] == s[i - 1];
        }
      }
    }
  }

  /**
   * With a positive page height, a strictly increasing list whose last break
   * is not below the first visited top, and tops visited in non-decreasing
   * order, the list stays strictly increasing.
   */
  lemma {:induction false} ApplyIncreasing(s: seq<real>, pageHeight: real, rule: FullRule, cs: seq<Check>)
    requires pageHeight > 0.0 && |s| > 0 && StrictlyIncreasing(s)
    requires TopsNonDecreasing(cs) && (cs != [] ==> Last(s) <= cs[0].top)
    ensures StrictlyIncreasing(Apply(s, pageHeight, rule, cs))
    decreases |cs|
  {
    if cs != [] {
      StepKeepsIncreasing(s, pageHeight, rule, cs[0]);
      if |cs| > 1 {
        assert cs[1..][0] == cs[1];
      }
      ApplyIncreasing(Step(s, pageHeight, rule, cs[0]), pageHeight, rule, cs[1..]);
    }
  }

  /**
   * A straddle push (the full rule did not fire) moves the last break down by
   * at most one page, and by strictly less than one page under `>=`.
   */
  lemma StraddlePushWithinPage(s: seq<real>, pageHeight: real, rule: FullRule, height: real, top: real)
    requires !PageFull(rule, top - Last(s), pageHeight)
    requires |PosStep(s, pageHeight, rule, height, top)| == |s| + 1
    ensures var r := PosStep(s, pageHeight, rule, height, top);
            Last(r) == top && top - Last(s) <= pageHeight &&
            (rule == Reaches ==> top - Last(s) < pageHeight)
  {
  }

  /**
   * When the full-page rule does not fire, an element no taller than a page
   * that starts at or below the last break ends up inside the band that
   * begins at the (possibly new) last break: it is not cut.
   */
  lemma PosKeepsElementWhole(s: seq<real>, pageHeight: real, rule: FullRule, height: real, top: real)
    requires !PageFull(rule, top - Last(s), pageHeight)
    requires Last(s) <= top && 0.0 <= height <= pageHeight
    ensures var r := PosStep(s, pageHeight, rule, height, top);
            Last(r) <= top && top + height <= Last(r) + pageHeight
  {
  }

  /**
   * When the full-page rule fires, updatePos pushes only `last + pageHeight`
   * and skips the straddle test, so an element can still be cut: after a
   * break at 0, with pages of 500, a 450-high row at 600 gets only the break
   * at 500, and the next element below it (at 1100) adds a break at 1000,
   * inside the row.
   */
  lemma FullRuleMayCutElement(rule: FullRule)
    ensures var r := Apply([0.0], 500.0, rule, [Pos(450.0, 600.0), Normal(1100.0)]);
            r == [0.0, 500.0, 1000.0] && 600.0 < r[2] < 600.0 + 450.0
  {
    ApplyCons([0.0], 500.0, rule, Pos(450.0, 600.0), [Normal(1100.0)]);
    assert PosStep([0.0], 500.0, rule, 450.0, 600.0) == [0.0, 500.0];
    ApplySingle([0.0, 500.0], 500.0, rule, Normal(1100.0));
  }

  /**
   * Once the last break plus a page reaches `b` and every later top is at or
   * below `b`, every break the later calls add is at or below `b`.
   */
  lemma {:induction false} LaterBreaksAtLeast(t: seq<real>, pageHeight: real, rule: FullRule, cs: seq<Check>, b: real)
    requires pageHeight >= 0.0 && Last(t) + pageHeight >= b
    requires forall i :: 0 <= i < |cs| ==> cs[i].top >= b
    ensures var r := Apply(t, pageHeight, rule, cs);
            |t| <= |r| && r[..|t|] == t && forall i :: |t| <= i < |r| ==> r[i] >= b
    decreases |cs|
  {
    if cs != [] {
      var u := Step(t, pageHeight, rule, cs[0]);
      assert |u| == |t| + 1 ==> u[|t|] >= b;
      assert Last(u) + pageHeight >= b;
      assert forall i :: 0 <= i < |cs[1..]| ==> cs[1..][i].top >= b by {
        forall i | 0 <= i < |cs[1..]| ensures cs[1..][i].top >= b {
          assert cs[1..][i] == cs[i + 1];
        }
      }
      LaterBreaksAtLeast(u, pageHeight, rule, cs[1..], b);
      var r := Apply(t, pageHeight, rule, cs);
      assert r == Apply(u, pageHeight, rule, cs[1..]);
      assert r[..|t|] == r[..|u|][..|t|];
      forall i | |t| <= i < |r| ensures r[i] >= b {
        if i < |u| {
          assert r[i] == r[..|u|][i];
        }
      }
    }
  }

  /**
   * The whole-run form of PosKeepsElementWhole: when the full-page rule does
   * not fire for an element no taller than a page that starts at or below
   * the last break, and every later call is for a top at or below the
   * element's bottom, no break added by the run falls strictly inside the
   * element.
   */
  lemma PosRunKeepsElementWhole(s: seq<real>, pageHeight: real, rule: FullRule, height: real, top: real, cs: seq<Check>)
    requires !PageFull(rule, top - Last(s), pageHeight)
    requires Last(s) <= top && 0.0 <= height <= pageHeight
    requires forall i :: 0 <= i < |cs| ==> cs[i].top >= top + height
    ensures var r := Apply(s, pageHeight, rule, [Pos(height, top)] + cs);
            |s| <= |r| && r[..|s|] == s &&
            forall i :: |s| <= i < |r| ==> r[i] <= top || top + height <= r[i]
  {
    var u := PosStep(s, pageHeight, rule, height, top);
    ApplyCons(s, pageHeight, rule, Pos(height, top), cs);
    PosKeepsElementWhole(s, pageHeight, rule, height, top);
    LaterBreaksAtLeast(u, pageHeight, rule, cs, top + height);
    var r := Apply(u, pageHeight, rule, cs);
    assert r[..|s|] == r[..|u|][..|s|];
    forall i | |s| <= i < |r| ensures r[i] <= top || top + height <= r[i] {
      if i < |u| {
        assert r[i] == r[..|u|][i];
      }
    }
  }

  /** The finalisation: one more page when the content runs past the last band. */
  function Finalised(s: seq<real>, pageHeight: real, height: real): (r: seq<real>)
    ensures |s| <= |r| <= |s| + 1 && r[..|s|] == s
    ensures |r| == |s| + 1 <==> |s| > 0 && Last(s) + pageHeight < height
    ensures |r| == |s| + 1 ==> r[|s|] == Last(s) + pageHeight
  {
    // On an empty list the source compares undefined + pageHeight (NaN): no push.
    if |s| > 0 && s[|s| - 1] + pageHeight < height then s + [s[|s| - 1] + pageHeight] else s
  }

  /**
   * The whole computation from the seed: the result starts with the seed,
   * never has a gap above a page, has at most one break per call plus the
   * finalisation's, and is strictly increasing when the page height is
   * positive and the tops arrive in order from the seed on.
   */
  lemma {:induction false} BreakListProperties(seed: real, pageHeight: real, rule: FullRule, cs: seq<Check>, height: real)
    ensures var r := Finalised(Apply([seed], pageHeight, rule, cs), pageHeight, height);
            |r| >= 1 && r[0] == seed && |r| <= |cs| + 2 && GapsAtMost(r, pageHeight)
    ensures pageHeight > 0.0 && TopsNonDecreasing(cs) && (cs != [] ==> seed <= cs[0].top) ==>
            StrictlyIncreasing(Finalised(Apply([seed], pageHeight, rule, cs), pageHeight, height))
  {
    var a := Apply([seed], pageHeight, rule, cs);
    ApplyAppendOnly([seed], pageHeight, rule, cs);
    ApplyKeepsGaps([seed], pageHeight, rule, cs);
    assert a[0] == a[..1][0];
    var r := Finalised(a, pageHeight, height);
    assert r[0] == r[..|a|][0];
    if |r| == |a| + 1 {
      forall i | 0 < i < |r| ensures r[i] - r[i - 1] <= pageHeight {
        if i < |a| {
          assert r[i] == a[i] && r[i - 1] == a[i - 1];
        }
      }
    }
    if pageHeight > 0.0 && TopsNonDecreasing(cs) && (cs != [] ==> seed <= cs[0].top) {
      ApplyIncreasing([seed], pageHeight, rule, cs);
      if |r| == |a| + 1 {
        forall i | 0 < i < |r| ensures r[i - 1] < r[i] {
          if i < |a| {
            assert r[i] == a[i] && r[i - 1] == a[i - 1];
          }
        }
      }
    }
  }

  /** traversingEditor: one updatePos per direct child, no deeper. */
  function EditorTrace(ns: seq<Node>, ratio: real): seq<Check> {
    if ns == [] then [] else EditorCheck(ns[0], ratio) + EditorTrace(ns[1..], ratio)
  }

  /** The call for one child of a rich-text block; none for a text node. */
  function EditorCheck(n: Node, ratio: real): seq<Check> {
    if n.Element? then [Pos(Scale(ratio, n.offsetHeight), Scale(ratio, ElementTop(n)))] else []
  }

  lemma {:induction false} EditorTraceSnoc(ns: seq<Node>, n: Node, ratio: real)
    ensures EditorTrace(ns + [n], ratio) == EditorTrace(ns, ratio) + EditorCheck(n, ratio)
  {
    assert [n][1..] == [];
    assert EditorTrace([n], ratio) == EditorCheck(n, ratio) + EditorTrace([], ratio);
    if ns == [] {
      assert ns + [n] == [n];
    } else {
      assert (ns + [n])[0] == ns[0];
      assert (ns + [n])[1..] == ns[1..] + [n];
      EditorTraceSnoc(ns[1..], n, ratio);
      var head := EditorCheck(ns[0], ratio);
      calc {
        EditorTrace(ns + [n], ratio);
        head + EditorTrace(ns[1..] + [n], ratio);
        head + (EditorTrace(ns[1..], ratio) + EditorTrace([n], ratio));
        (head + EditorTrace(ns[1..], ratio)) + EditorTrace([n], ratio);
        EditorTrace(ns, ratio) + EditorTrace([n], ratio);
      }
    }
  }

  lemma EditorTracePrefix(ns: seq<Node>, i: nat, ratio: real)
    requires i < |ns|
    ensures EditorTrace(ns[..i + 1], ratio) == EditorTrace(ns[..i], ratio) + EditorCheck(ns[i], ratio)
    ensures ns[i].Element? ==>
              EditorCheck(ns[i], ratio) == [Pos(Scale(ratio, ns[i].offsetHeight), Scale(ratio, ElementTop(ns[i])))]
    ensures ns[i].Text? ==> EditorCheck(ns[i], ratio) == []
  {
    assert ns[..i + 1] == ns[..i] + [ns[i]];
    EditorTraceSnoc(ns[..i], ns[i], ratio);
  }

  lemma EditorCheckOf(n: Node, ratio: real, height: real, offsetTop: real, top: real)
    requires n.Element? && offsetTop == ElementTop(n)
    requires height == Scale(ratio, n.offsetHeight) && top == Scale(ratio, offsetTop)
    ensures EditorCheck(n, ratio) == [Pos(height, top)]
  {
  }

  /** A rich-text block makes at most one call per direct element child. */
  lemma {:induction false} EditorTraceBound(ns: seq<Node>, ratio: real)
    ensures |EditorTrace(ns, ratio)| <= ElementCount(ns)
  {
    if ns != [] {
      EditorTraceBound(ns[1..], ratio);
    }
  }

  /** The accumulator of one export call. */
  class Paginator {
    const rule: FullRule
    const ratio: real
    const pageHeight: real
    var pages: seq<real>

    ghost predicate Valid()
      reads this
    {
      |pages| > 0 && GapsAtMost(pages, pageHeight)
    }

    /** The list seeded with one entry. */
    constructor (seed: real, ratio: real, pageHeight: real, rule: FullRule)
      ensures Valid() && pages == [seed]
      ensures this.ratio == ratio && this.pageHeight == pageHeight && this.rule == rule
    {
      this.rule := rule;
      this.ratio := ratio;
      this.pageHeight := pageHeight;
      pages := [seed];
    }

    method UpdateNormalElPos(top: real)
      requires Valid()
      modifies this
      ensures Valid() && pages == NormalStep(old(pages), pageHeight, top)
    {
      StepKeepsGaps(pages, pageHeight, rule, Normal(top));
      var last := if |pages| > 0 then pages[|pages| - 1] else 0.0;
      if top - last > pageHeight {
        pages := pages + [last + pageHeight];
      }
    }

    method UpdatePos(height: real, top: real)
      requires Valid()
      modifies this
      ensures Valid() && pages == PosStep(old(pages), pageHeight, rule, height, top)
    {
      StepKeepsGaps(pages, pageHeight, rule, Pos(height, top));
      var last := if |pages| > 0 then pages[|pages| - 1] else 0.0;
      var full := match rule
        case Exceeds => top - last > pageHeight
        case Reaches => top - last >= pageHeight;
      if full {
        pages := pages + [last + pageHeight];
      } else if top + height - last > pageHeight && top != last {
        pages := pages + [top];
      }
    }

    /**
     * traversingEditor. A text child has no geometry: its top is NaN in the
     * source, every comparison fails and nothing is pushed, so it is skipped.
     */
    method TraversingEditor(nodes: seq<Node>)
      requires Valid()
      modifies this
      ensures Valid() && pages == Apply(old(pages), pageHeight, rule, EditorTrace(nodes, ratio))
    {
      for i := 0 to |nodes|
        invariant Valid()
        invariant pages == Apply(old(pages), pageHeight, rule, EditorTrace(nodes[..i], ratio))
      {
        var one := nodes[i];
        ghost var before := pages;
        EditorTracePrefix(nodes, i, ratio);
        ApplyConcat(old(pages), pageHeight, rule, EditorTrace(nodes[..i], ratio), EditorCheck(one, ratio));
        if one.Element? {
          var offsetTop := GetElementTop(one);
          var height := Scale(ratio, one.offsetHeight);
          var top := Scale(ratio, offsetTop);
          EditorCheckOf(one, ratio, height, offsetTop, top);
          ApplySingle(before, pageHeight, rule, Pos(height, top));
          UpdatePos(height, top);
          assert pages == Step(before, pageHeight, rule, Pos(height, top));
        }
        assert pages == Apply(before, pageHeight, rule, EditorCheck(one, ratio));
      }
      assert nodes[..|nodes|] == nodes;
    }

    /** The trailing break after the traversal. */
    method Finalise(height: real)
      requires Valid()
      modifies this
      ensures Valid() && pages == Finalised(old(pages), pageHeight, height)
    {
      if pages[|pages| - 1] + pageHeight < height {
        pages := pages + [pages[|pages| - 1] + pageHeight];
      }
    }
  }
}
