/**
 * The page as a value: a sequence of sibling nodes, each either a loader
 * (`<object is="doc-fragment" data=...>`) or an include anchor with its
 * attributes and children. The functions here say what `display`, `replace`
 * and the `update` sweep do to that sequence; the classes in module Elements
 * are proved to do exactly this.
 */
module Tree {
  import opened Wrappers
  import opened Attributes
  import opened Triggers

  /** A child of an include anchor. Fetched markup is an opaque serialised token. */
  datatype Child = Fallback(content: string) | Link(href: string) | Markup(markup: string)

  /**
   * What the loader's `contentDocument` offers when it is not null: the
   * `href` of each of its style sheets (null for one without a URL), in
   * document order, and its serialised root element.
   */
  datatype FetchedDocument = FetchedDocument(styleSheets: seq<Option<string>>, root: string)

  datatype Node = Loader(data: string) | Anchor(attrs: Attrs, children: seq<Child>)

  /** One `<link rel="stylesheet">` per style sheet, in order. */
  function StylesheetLinks(sheets: seq<Option<string>>): seq<Child>
  {
    seq(|sheets|, i requires 0 <= i < |sheets| => Link(AttrText(sheets[i])))
  }

  /**
   * The children the anchor ends with after a successful load: exactly the
   * style-sheet links in document order, then the fragment's root markup.
   */
  function Splice(doc: FetchedDocument): (r: seq<Child>)
    ensures |r| == |doc.styleSheets| + 1
    ensures forall i :: 0 <= i < |doc.styleSheets| ==> r[i] == Link(AttrText(doc.styleSheets[i]))
    ensures r[|doc.styleSheets|] == Markup(doc.root)
  {
    StylesheetLinks(doc.styleSheets) + [Markup(doc.root)]
  }

  /** An anchor after `display`: a loader for its href, then the consumed anchor. */
  function Triggered(a: Node): seq<Node>
    requires a.Anchor?
  {
    [Loader(HrefProperty(a.attrs)), Anchor(Consume(a.attrs), a.children)]
  }

  /** `display` on the anchor at position `j`. */
  function DisplayView(v: seq<Node>, j: nat): seq<Node>
    requires j < |v| && v[j].Anchor?
  {
    v[..j] + Triggered(v[j]) + v[j + 1..]
  }

  /** The loader's sibling anchor after `replace` has run. */
  function Replaced(a: Node, doc: Option<FetchedDocument>): Node
    requires a.Anchor?
  {
    match doc
    case Some(d) => Anchor(a.attrs, Splice(d))
    case None => Anchor(Reset(a.attrs), a.children)
  }

  /** `replace` run by the loader at position `i`: its sibling updated, itself removed. */
  function ReplaceView(v: seq<Node>, i: nat, doc: Option<FetchedDocument>): seq<Node>
    requires i + 1 < |v| && v[i].Loader? && v[i + 1].Anchor?
  {
    v[..i] + [Replaced(v[i + 1], doc)] + v[i + 2..]
  }

  /** An anchor that `querySelectorAll("a[is='include-fragment'][href][loading='lazy']")` matches. */
  predicate IsPendingNode(n: Node)
  {
    n.Anchor? && IsPending(n.attrs)
  }

  /** The positions the sweep's query returns, in document order. */
  function PendingPositions(v: seq<Node>): (r: seq<nat>)
    ensures forall k :: 0 <= k < |r| ==> r[k] < |v| && IsPendingNode(v[r[k]])
  {
    if v == [] then []
    else PendingPositions(v[..|v| - 1]) + (if IsPendingNode(v[|v| - 1]) then [|v| - 1] else [])
  }

  /**
   * The `update` sweep: every anchor the query returns is passed, with its
   * own box (`boxes` holds them in document order), to `displayLazy`.
   */
  function Sweep(v: seq<Node>, eventType: string, boxes: seq<Box>, vp: Viewport): seq<Node>
    requires |boxes| == |PendingPositions(v)|
  {
    if v == [] then []
    else
      var init, last := v[..|v| - 1], v[|v| - 1];
      var n := |PendingPositions(init)|;
      Sweep(init, eventType, boxes[..n], vp) +
        (if IsPendingNode(last) && LazyEligible(eventType, boxes[n], vp) then Triggered(last) else [last])
  }

  /** How many of `boxes` do not make their anchor eligible. */
  function CountIneligible(eventType: string, boxes: seq<Box>, vp: Viewport): nat
  {
    if boxes == [] then 0
    else
      CountIneligible(eventType, boxes[..|boxes| - 1], vp) +
        (if LazyEligible(eventType, boxes[|boxes| - 1], vp) then 0 else 1)
  }

  /**
   * A loader and the consumed anchor it was created for, whose `data-src` it
   * carries. The loader's `data` is the anchor's `href` property and
   * `data-src` its `href` attribute text; the two agree here only because the
   * property is modelled as that text, without URL resolution.
   */
  predicate PairedWith(l: Node, a: Node)
  {
    l.Loader? && a.Anchor? && IsConsumed(a.attrs) && a.attrs[DATA_SRC] == l.data
  }

  /** Every loader, except possibly a last one, is followed by its anchor. */
  predicate LoadersPaired(v: seq<Node>)
  {
    forall i :: 0 <= i < |v| - 1 && v[i].Loader? ==> PairedWith(v[i], v[i + 1])
  }

  /**
   * The shape `display` builds and `replace` relies on: every loader's next
   * sibling is the consumed anchor it loads for.
   */
  predicate WellFormed(v: seq<Node>)
  {
    LoadersPaired(v) && (|v| > 0 ==> !v[|v| - 1].Loader?)
  }

  /** `display` inserts one loader, carrying the anchor's href, right before the now consumed anchor. */
  lemma DisplayInsertsLoader(v: seq<Node>, j: nat)
    requires j < |v| && v[j].Anchor?
    ensures var r := DisplayView(v, j);
      && |r| == |v| + 1
      && r[..j] == v[..j]
      && r[j] == Loader(HrefProperty(v[j].attrs))
      && r[j + 1] == Anchor(Consume(v[j].attrs), v[j].children)
      && r[j + 2..] == v[j + 1..]
  {
  }

  /**
   * A `load` event without a readable document (`contentDocument` null)
   * puts the page back as it was before `display`: the loader is gone and
   * the anchor is addressable again with its fallback children. An `error`
   * event has no handler and leaves the page as `display` made it.
   */
  lemma FailedLoadRestoresPage(v: seq<Node>, j: nat)
    requires j < |v| && v[j].Anchor? && Addressable(v[j].attrs)
    ensures j + 1 < |DisplayView(v, j)|
    ensures ReplaceView(DisplayView(v, j), j, None) == v
  {
    RoundTrip(v[j].attrs);
    var d := DisplayView(v, j);
    assert d[..j] == v[..j] && d[j + 2..] == v[j + 1..];
    assert v == v[..j] + [v[j]] + v[j + 1..];
  }

  /**
   * A successful load leaves the anchor consumed with the spliced content as
   * its only children, and the loader gone.
   */
  lemma SuccessfulLoadSplices(v: seq<Node>, j: nat, doc: FetchedDocument)
    requires j < |v| && v[j].Anchor?
    ensures j + 1 < |DisplayView(v, j)|
    ensures ReplaceView(DisplayView(v, j), j, Some(doc)) ==
      v[..j] + [Anchor(Consume(v[j].attrs), Splice(doc))] + v[j + 1..]
  {
    var d := DisplayView(v, j);
    assert d[..j] == v[..j] && d[j + 2..] == v[j + 1..];
  }

  /** Displaying an anchor that still holds `href` keeps every loader paired. */
  lemma DisplayKeepsWellFormed(v: seq<Node>, j: nat)
    requires WellFormed(v)
    requires j < |v| && v[j].Anchor? && HREF in v[j].attrs
    ensures WellFormed(DisplayView(v, j))
  {
    var r := DisplayView(v, j);
    forall i | 0 <= i < |r| - 1 && r[i].Loader?
      ensures PairedWith(r[i], r[i + 1])
    {
      if i < j - 1 {
        assert r[i] == v[i] && r[i + 1] == v[i + 1];
      } else if i > j + 1 {
        assert r[i] == v[i - 1] && r[i + 1] == v[i];
      }
    }
  }

  /**
   * `display` has no guard against an anchor it already consumed: a second
   * call inserts a second loader, for the empty href of an anchor without
   * `href`, and the first loader is no longer followed by its anchor.
   */
  lemma SecondDisplayAddsLoader(v: seq<Node>, j: nat)
    requires j < |v| && v[j].Anchor?
    ensures j + 1 < |DisplayView(v, j)| && DisplayView(v, j)[j + 1].Anchor?
    ensures var r := DisplayView(DisplayView(v, j), j + 1);
      && |r| == |v| + 2
      && r[j] == Loader(HrefProperty(v[j].attrs))
      && r[j + 1] == Loader("")
      && !LoadersPaired(r)
  {
    var r := DisplayView(DisplayView(v, j), j + 1);
    assert r[j].Loader? && !PairedWith(r[j], r[j + 1]);
  }

  /**
   * Every loader of a well-formed page can run `replace`: its sibling is an
   * anchor; and what it leaves behind is well formed again.
   */
  lemma ReplaceKeepsWellFormed(v: seq<Node>, i: nat, doc: Option<FetchedDocument>)
    requires WellFormed(v)
    requires i < |v| && v[i].Loader?
    ensures i + 1 < |v| && v[i + 1].Anchor?
    ensures WellFormed(ReplaceView(v, i, doc))
  {
    assert PairedWith(v[i], v[i + 1]);
    var r := ReplaceView(v, i, doc);
    forall k | 0 <= k < |r| - 1 && r[k].Loader?
      ensures PairedWith(r[k], r[k + 1])
    {
      if k < i - 1 {
        assert r[k] == v[k] && r[k + 1] == v[k + 1];
      } else if k > i {
        assert r[k] == v[k + 1] && r[k + 1] == v[k + 2];
      }
    }
    if |r| > 0 {
      assert r[|r| - 1] == if i + 2 < |v| then v[|v| - 1] else Replaced(v[i + 1], doc);
    }
  }

  /** Where the pending positions of a prefix grow by one node. */
  lemma PendingPositionsStep(v: seq<Node>, q: nat)
    requires q < |v|
    ensures PendingPositions(v[..q + 1]) ==
      PendingPositions(v[..q]) + (if IsPendingNode(v[q]) then [q] else [])
  {
    assert v[..q + 1][..q] == v[..q];
  }

  /**
   * The query misses nothing and keeps document order: every pending anchor's
   * position is returned, and the positions strictly increase.
   */
  lemma {:induction false} PendingPositionsExact(v: seq<Node>)
    ensures forall q :: 0 <= q < |v| && IsPendingNode(v[q]) ==> q in PendingPositions(v)
    ensures forall a, b :: 0 <= a < b < |PendingPositions(v)| ==> PendingPositions(v)[a] < PendingPositions(v)[b]
  {
    if v != [] {
      var init := v[..|v| - 1];
      PendingPositionsExact(init);
      var r, r0 := PendingPositions(v), PendingPositions(init);
      assert r[..|r0|] == r0;
      forall q | 0 <= q < |v| && IsPendingNode(v[q])
        ensures q in r
      {
        if q < |init| {
          assert init[q] == v[q];
        } else {
          assert r[|r| - 1] == q;
        }
      }
    }
  }

  /** The pending count of a prefix never shrinks as the prefix grows. */
  lemma {:induction false} PendingMonotone(v: seq<Node>, p: nat, q: nat)
    requires p <= q <= |v|
    ensures |PendingPositions(v[..p])| <= |PendingPositions(v[..q])|
  {
    if p < q {
      PendingMonotone(v, p, q - 1);
      PendingPositionsStep(v, q - 1);
    }
  }

  /** The k-th pending position is a pending anchor preceded by exactly k of them. */
  lemma {:induction false} PendingPositionAt(v: seq<Node>, k: nat)
    requires k < |PendingPositions(v)|
    ensures PendingPositions(v)[k] < |v|
    ensures IsPendingNode(v[PendingPositions(v)[k]])
    ensures |PendingPositions(v[..PendingPositions(v)[k]])| == k
  {
    var init := v[..|v| - 1];
    if k < |PendingPositions(init)| {
      PendingPositionAt(init, k);
      var q := PendingPositions(init)[k];
      assert PendingPositions(v)[k] == q;
      assert v[..q] == init[..q];
    } else {
      assert v[..|v| - 1] == init;
    }
  }

  /** Pending counts add up over a concatenation. */
  lemma {:induction false} PendingCountAppend(a: seq<Node>, b: seq<Node>)
    ensures |PendingPositions(a + b)| == |PendingPositions(a)| + |PendingPositions(b)|
  {
    if b == [] {
      assert a + b == a;
    } else {
      var b' := b[..|b| - 1];
      assert (a + b)[..|a + b| - 1] == a + b';
      assert (a + b)[|a + b| - 1] == b[|b| - 1];
      PendingCountAppend(a, b');
    }
  }

  /** The sweep over one more node that is not pending leaves that node as it is. */
  lemma SweepSkip(v: seq<Node>, q: nat, eventType: string, boxes: seq<Box>, vp: Viewport)
    requires q < |v| && !IsPendingNode(v[q])
    requires |boxes| == |PendingPositions(v[..q])|
    ensures |boxes| == |PendingPositions(v[..q + 1])|
    ensures Sweep(v[..q + 1], eventType, boxes, vp) == Sweep(v[..q], eventType, boxes, vp) + [v[q]]
  {
    PendingPositionsStep(v, q);
    assert v[..q + 1][..q] == v[..q] && boxes[..|boxes|] == boxes;
  }

  /** A slice grown by its next element. */
  lemma AppendSlice<T>(a: seq<T>, v: seq<T>, p: nat, q: nat)
    requires p < q <= |v|
    ensures (a + v[p..q - 1]) + [v[q - 1]] == a + v[p..q]
  {
    assert v[p..q] == v[p..q - 1] + [v[q - 1]];
  }

  /** A prefix stretch with no pending anchor passes through the sweep unchanged. */
  lemma {:induction false} SweepExtend(v: seq<Node>, p: nat, q: nat, eventType: string, boxes: seq<Box>, vp: Viewport)
    requires p <= q <= |v|
    requires |PendingPositions(v[..p])| == |PendingPositions(v[..q])| == |boxes|
    ensures Sweep(v[..q], eventType, boxes, vp) == Sweep(v[..p], eventType, boxes, vp) + v[p..q]
  {
    if p < q {
      PendingMonotone(v, p, q - 1);
      PendingPositionsStep(v, q - 1);
      SweepSkip(v, q - 1, eventType, boxes, vp);
      SweepExtend(v, p, q - 1, eventType, boxes, vp);
      AppendSlice(Sweep(v[..p], eventType, boxes, vp), v, p, q);
    } else {
      assert v[p..q] == [];
    }
  }

  /** Once every pending anchor is passed, the rest of the page is left as it is. */
  lemma SweepDone(v: seq<Node>, p: nat, k: nat, swept: seq<Node>, eventType: string, boxes: seq<Box>, vp: Viewport)
    requires p <= |v| && k == |boxes| == |PendingPositions(v)| == |PendingPositions(v[..p])|
    requires swept == Sweep(v[..p], eventType, boxes[..k], vp)
    ensures Sweep(v, eventType, boxes, vp) == swept + v[p..]
  {
    assert boxes[..k] == boxes && v[..|v|] == v;
    SweepExtend(v, p, |v|, eventType, boxes, vp);
  }

  /** The sweep over one more node that is pending: the `displayLazy` of the `k`-th pending anchor. */
  lemma SweepStep(v: seq<Node>, q: nat, k: nat, eventType: string, boxes: seq<Box>, vp: Viewport)
    requires q < |v| && IsPendingNode(v[q])
    requires k < |boxes| && |PendingPositions(v[..q])| == k
    ensures |PendingPositions(v[..q + 1])| == k + 1
    ensures Sweep(v[..q + 1], eventType, boxes[..k + 1], vp) ==
      Sweep(v[..q], eventType, boxes[..k], vp) +
        (if LazyEligible(eventType, boxes[k], vp) then Triggered(v[q]) else [v[q]])
  {
    PendingPositionsStep(v, q);
    var b := boxes[..k + 1];
    assert v[..q + 1][..q] == v[..q] && b[..k] == boxes[..k] && b[k] == boxes[k];
  }

  /** A node reassembled from its two sides. */
  lemma Reassemble(w: seq<Node>, j: nat)
    requires j < |w|
    ensures w == w[..j] + [w[j]] + w[j + 1..]
  {
  }

  /**
   * The page `s + v[p..]` with the node at old position `q` (now at `j`)
   * replaced by `t`: this is `display` of that node when `t` is its triggered form.
   */
  lemma StepShape(s: seq<Node>, v: seq<Node>, p: nat, q: nat, j: nat, t: seq<Node>, eligible: bool)
    requires p <= q < |v| && v[q].Anchor? && j == |s| + (q - p)
    requires t == if eligible then Triggered(v[q]) else [v[q]]
    ensures j < |s + v[p..]| && (s + v[p..])[j] == v[q]
    ensures s + v[p..q] + t + v[q + 1..] == if eligible then DisplayView(s + v[p..], j) else s + v[p..]
  {
    var w := s + v[p..];
    assert w[..j] == s + v[p..q];
    assert w[j + 1..] == v[q + 1..];
    if !eligible {
      Reassemble(w, j);
    }
  }

  /**
   * One step of the `update` loop: the page so far is the swept prefix
   * `swept` followed by the untouched `v[p..]`; the `k`-th pending anchor,
   * at old position `q`, sits at position `j` of it, and displaying it, or
   * not, extends the swept prefix past it.
   */
  lemma SweepDisplayStep(v: seq<Node>, swept: seq<Node>, p: nat, k: nat, q: nat, j: nat,
                         eventType: string, boxes: seq<Box>, vp: Viewport)
    requires p <= q < |v| && IsPendingNode(v[q]) && k < |boxes| && j == |swept| + (q - p)
    requires |PendingPositions(v[..p])| == |PendingPositions(v[..q])| == k
    requires swept == Sweep(v[..p], eventType, boxes[..k], vp)
    ensures |PendingPositions(v[..q + 1])| == k + 1
    ensures j < |swept + v[p..]| && (swept + v[p..])[j] == v[q]
    ensures Sweep(v[..q + 1], eventType, boxes[..k + 1], vp) + v[q + 1..] ==
      if LazyEligible(eventType, boxes[k], vp) then DisplayView(swept + v[p..], j) else swept + v[p..]
  {
    SweepExtend(v, p, q, eventType, boxes[..k], vp);
    SweepStep(v, q, k, eventType, boxes, vp);
    var eligible := LazyEligible(eventType, boxes[k], vp);
    StepShape(swept, v, p, q, j, if eligible then Triggered(v[q]) else [v[q]], eligible);
  }

  /** With nothing pending, a sweep changes nothing. */
  lemma {:induction false} SweepIdle(v: seq<Node>, eventType: string, vp: Viewport)
    requires PendingPositions(v) == []
    ensures Sweep(v, eventType, [], vp) == v
  {
    if v != [] {
      var init := v[..|v| - 1];
      assert PendingPositions(init) == [];
      SweepIdle(init, eventType, vp);
      assert v == init + [v[|v| - 1]];
    }
  }

  /** What the sweep makes of one node is pending exactly when the node was pending and not displayed. */
  lemma SweptNodePending(n: Node, eligible: bool)
    ensures var t := if IsPendingNode(n) && eligible then Triggered(n) else [n];
      |PendingPositions(t)| == if IsPendingNode(n) && !eligible then 1 else 0
  {
    if IsPendingNode(n) && eligible {
      var t := Triggered(n);
      PendingOnlyBeforeConsume(n.attrs);
      assert t[..1][..0] == [] && !IsPendingNode(t[0]);
      assert PendingPositions(t[..1]) == [];
      assert t[..|t| - 1] == t[..1] && !IsPendingNode(t[1]);
    } else {
      assert [n][..0] == [];
    }
  }

  /** After a sweep, exactly the anchors that were not eligible are still pending. */
  lemma {:induction false} SweepLeavesIneligible(v: seq<Node>, eventType: string, boxes: seq<Box>, vp: Viewport)
    requires |boxes| == |PendingPositions(v)|
    ensures |PendingPositions(Sweep(v, eventType, boxes, vp))| == CountIneligible(eventType, boxes, vp)
  {
    if v != [] {
      var init, last := v[..|v| - 1], v[|v| - 1];
      var n := |PendingPositions(init)|;
      var eligible := n < |boxes| && LazyEligible(eventType, boxes[n], vp);
      var tail := if IsPendingNode(last) && eligible then Triggered(last) else [last];
      SweepLeavesIneligible(init, eventType, boxes[..n], vp);
      PendingCountAppend(Sweep(init, eventType, boxes[..n], vp), tail);
      SweptNodePending(last, eligible);
      if IsPendingNode(last) {
        assert boxes[..|boxes| - 1] == boxes[..n];
      } else {
        assert boxes[..n] == boxes;
      }
    }
  }

  /** On a print event no box is ineligible. */
  lemma {:induction false} PrintLeavesNoneIneligible(boxes: seq<Box>, vp: Viewport)
    ensures CountIneligible(BEFORE_PRINT, boxes, vp) == 0
  {
    if boxes != [] {
      PrintLeavesNoneIneligible(boxes[..|boxes| - 1], vp);
    }
  }

  /**
   * A print sweep consumes every pending anchor, so any later sweep, whatever
   * its event, finds none and changes nothing: no anchor is loaded twice.
   */
  lemma PrintSweepIsFinal(v: seq<Node>, boxes: seq<Box>, vp: Viewport, eventType: string, vp': Viewport)
    requires |boxes| == |PendingPositions(v)|
    ensures var s := Sweep(v, BEFORE_PRINT, boxes, vp); forall i :: 0 <= i < |s| ==> !IsPendingNode(s[i])
    ensures PendingPositions(Sweep(v, BEFORE_PRINT, boxes, vp)) == []
    ensures Sweep(Sweep(v, BEFORE_PRINT, boxes, vp), eventType, [], vp') == Sweep(v, BEFORE_PRINT, boxes, vp)
  {
    SweepLeavesIneligible(v, BEFORE_PRINT, boxes, vp);
    PrintLeavesNoneIneligible(boxes, vp);
    SweepIdle(Sweep(v, BEFORE_PRINT, boxes, vp), eventType, vp');
    PendingPositionsExact(Sweep(v, BEFORE_PRINT, boxes, vp));
  }

  /** The last node of a sweep's result: unchanged if a loader, an anchor if an anchor. */
  lemma SweepLast(v: seq<Node>, eventType: string, boxes: seq<Box>, vp: Viewport)
    requires |boxes| == |PendingPositions(v)| && v != []
    ensures var s := Sweep(v, eventType, boxes, vp);
      && s != []
      && s[|s| - 1].Loader? == v[|v| - 1].Loader?
      && (v[|v| - 1].Loader? ==> s[|s| - 1] == v[|v| - 1])
  {
  }

  /** The sweep keeps loaders paired. */
  lemma {:induction false} SweepKeepsLoadersPaired(v: seq<Node>, eventType: string, boxes: seq<Box>, vp: Viewport)
    requires |boxes| == |PendingPositions(v)|
    requires LoadersPaired(v)
    ensures LoadersPaired(Sweep(v, eventType, boxes, vp))
  {
    if v != [] {
      var init, last := v[..|v| - 1], v[|v| - 1];
      var n := |PendingPositions(init)|;
      assert LoadersPaired(init) by {
        forall i | 0 <= i < |init| - 1 && init[i].Loader?
          ensures PairedWith(init[i], init[i + 1])
        {
          assert init[i] == v[i] && init[i + 1] == v[i + 1];
        }
      }
      SweepKeepsLoadersPaired(init, eventType, boxes[..n], vp);
      var s := Sweep(init, eventType, boxes[..n], vp);
      var tail := if IsPendingNode(last) && LazyEligible(eventType, boxes[n], vp) then Triggered(last) else [last];
      var r := s + tail;
      if tail != [last] {
        assert PairedWith(tail[0], tail[1]) by { TransitionsAreExclusive(last.attrs); }
      }
      forall i | 0 <= i < |r| - 1 && r[i].Loader?
        ensures PairedWith(r[i], r[i + 1])
      {
        if i < |s| - 1 {
          assert r[i] == s[i] && r[i + 1] == s[i + 1];
        } else if i == |s| - 1 {
          SweepLast(init, eventType, boxes[..n], vp);
          assert init[|init| - 1] == v[|v| - 2];
          assert PairedWith(v[|v| - 2], last);
          assert !IsPending(last.attrs);
          assert r[i + 1] == last;
        } else {
          assert r[i] == tail[i - |s|] && r[i + 1] == tail[i + 1 - |s|];
        }
      }
    }
  }

  /** The sweep keeps the page well formed. */
  lemma SweepKeepsWellFormed(v: seq<Node>, eventType: string, boxes: seq<Box>, vp: Viewport)
    requires |boxes| == |PendingPositions(v)|
    requires WellFormed(v)
    ensures WellFormed(Sweep(v, eventType, boxes, vp))
  {
    SweepKeepsLoadersPaired(v, eventType, boxes, vp);
    if v != [] {
      SweepLast(v, eventType, boxes, vp);
    }
  }
}
