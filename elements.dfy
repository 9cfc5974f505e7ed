/**
 * The two custom elements as objects that change in place: the include
 * anchor (`IncludeDocumentFragment`) with its attributes and children, and
 * the page, whose sibling list holds the anchors and the loader elements
 * (`DocFragment`) inserted before them. Every method is proved to act on
 * `Page.View()` as the functions of module Tree say.
 */
module Elements {
  import opened Wrappers
  import opened Attributes
  import opened Triggers
  import opened Tree

  /** A node of the page: a loader `<object is="doc-fragment">`, or an include anchor. */
  datatype Sibling = ObjectElement(data: string) | IncludeElement(anchor: IncludeFragment)

  ghost function NodeOf(s: Sibling): Node
    reads if s.IncludeElement? then {s.anchor} else {}
  {
    match s
    case ObjectElement(d) => Loader(d)
    case IncludeElement(a) => Anchor(a.attrs, a.children)
  }

  /** Where an anchor stands among its siblings: its first occurrence. */
  function IndexOf(ns: seq<Sibling>, a: IncludeFragment): (j: nat)
    requires IncludeElement(a) in ns
    ensures j < |ns| && ns[j] == IncludeElement(a)
    ensures IncludeElement(a) !in ns[..j]
  {
    if ns[0] == IncludeElement(a) then 0
    else
      var j := IndexOf(ns[1..], a);
      assert ns[..j + 1] == [ns[0]] + ns[1..][..j];
      j + 1
  }

  /** The include anchors among the siblings `ns`, in document order. */
  function AnchorsOf(ns: seq<Sibling>): seq<IncludeFragment>
  {
    if ns == [] then []
    else (if ns[0].IncludeElement? then [ns[0].anchor] else []) + AnchorsOf(ns[1..])
  }

  /** The anchors of a concatenation are those of its parts. */
  lemma {:induction false} AnchorsOfAppend(a: seq<Sibling>, b: seq<Sibling>)
    ensures AnchorsOf(a + b) == AnchorsOf(a) + AnchorsOf(b)
  {
    if a == [] {
      assert a + b == b;
    } else {
      var h, t := a[0], a[1..];
      assert (a + b)[0] == h && (a + b)[1..] == t + b;
      AnchorsOfAppend(t, b);
      var x := if h.IncludeElement? then [h.anchor] else [];
      assert AnchorsOf(a + b) == x + (AnchorsOf(t) + AnchorsOf(b));
      assert AnchorsOf(a) == x + AnchorsOf(t);
    }
  }

  /** An anchor is listed by `AnchorsOf` exactly when it is one of the siblings. */
  lemma {:induction false} AnchorsOfMembers(ns: seq<Sibling>, x: IncludeFragment)
    ensures x in AnchorsOf(ns) <==> IncludeElement(x) in ns
  {
    if ns != [] {
      AnchorsOfMembers(ns[1..], x);
      assert ns == [ns[0]] + ns[1..];
    }
  }

  /** A loader alone holds no anchor. */
  lemma AnchorsOfLoader(loader: Sibling)
    requires loader.ObjectElement?
    ensures AnchorsOf([loader]) == []
  {
    assert [loader][1..] == [];
  }

  /** A loader between two stretches of siblings adds no anchor. */
  lemma LoaderBetween(a: seq<Sibling>, b: seq<Sibling>, loader: Sibling)
    requires loader.ObjectElement?
    ensures AnchorsOf(a + [loader] + b) == AnchorsOf(a + b)
  {
    AnchorsOfLoader(loader);
    AnchorsOfAppend(a, [loader]);
    AnchorsOfAppend(a + [loader], b);
    AnchorsOfAppend(a, b);
  }

  /** Inserting a loader anywhere leaves the anchors of the sibling list, and their order, unchanged. */
  lemma LoaderKeepsAnchors(ns: seq<Sibling>, j: nat, loader: Sibling)
    requires j <= |ns| && loader.ObjectElement?
    ensures AnchorsOf(ns[..j] + [loader] + ns[j..]) == AnchorsOf(ns)
  {
    assert ns[..j] + ns[j..] == ns;
    LoaderBetween(ns[..j], ns[j..], loader);
  }

  /** Two sibling lists with the same anchors hold the same anchors as elements. */
  lemma SameAnchorsSameMembers(ns: seq<Sibling>, ms: seq<Sibling>)
    requires AnchorsOf(ns) == AnchorsOf(ms)
    ensures forall x :: IncludeElement(x) in ns <==> IncludeElement(x) in ms
  {
    forall x
      ensures IncludeElement(x) in ns <==> IncludeElement(x) in ms
    {
      AnchorsOfMembers(ns, x);
      AnchorsOfMembers(ms, x);
    }
  }

  /** Inserting a loader keeps exactly the same anchors among the siblings. */
  lemma InsertKeepsMembers(ns: seq<Sibling>, j: nat, loader: Sibling)
    requires j <= |ns| && loader.ObjectElement?
    ensures forall x :: IncludeElement(x) in ns[..j] + [loader] + ns[j..] <==> IncludeElement(x) in ns
  {
    LoaderKeepsAnchors(ns, j, loader);
    SameAnchorsSameMembers(ns[..j] + [loader] + ns[j..], ns);
  }

  /** Removing a loader keeps exactly the same anchors among the siblings. */
  lemma RemoveKeepsMembers(ns: seq<Sibling>, i: nat)
    requires i < |ns| && ns[i].ObjectElement?
    ensures forall x :: IncludeElement(x) in ns[..i] + ns[i + 1..] <==> IncludeElement(x) in ns
  {
    var a, b := ns[..i], ns[i + 1..];
    assert a + [ns[i]] + b == ns;
    LoaderBetween(a, b, ns[i]);
    SameAnchorsSameMembers(a + b, ns);
  }

  /** The sibling at position `i`; naming it keeps the no-repeat rule from firing on every index. */
  ghost function Slot(ns: seq<Sibling>, i: nat): Sibling
    requires i < |ns|
  {
    ns[i]
  }

  /** No anchor object occurs twice among the siblings `ns`. */
  ghost predicate NoRepeats(ns: seq<Sibling>)
  {
    forall i, k :: 0 <= i < k < |ns| && Slot(ns, i).IncludeElement? ==> Slot(ns, i) != Slot(ns, k)
  }

  /** In a page without repeated anchors, an anchor's index is its only position. */
  lemma IndexOfUnique(ns: seq<Sibling>, j: nat)
    requires j < |ns| && ns[j].IncludeElement? && NoRepeats(ns)
    ensures IndexOf(ns, ns[j].anchor) == j
  {
    var i := IndexOf(ns, ns[j].anchor);
    assert i < j ==> Slot(ns, i) == Slot(ns, j);
  }

  /** In a page without repeated anchors, no other sibling is the anchor at `j`. */
  lemma OnlyOccurrence(ns: seq<Sibling>, j: nat)
    requires j < |ns| && ns[j].IncludeElement? && NoRepeats(ns)
    ensures forall k :: 0 <= k < |ns| && k != j ==> ns[k] != ns[j]
  {
    forall k | 0 <= k < |ns| && k != j
      ensures ns[k] != ns[j]
    {
      assert Slot(ns, k) != Slot(ns, j);
    }
  }

  /** Where the elements of `ns` stand once `o` is inserted at `j`. */
  lemma InsertedAt<T>(ns: seq<T>, j: nat, o: T)
    requires j <= |ns|
    ensures var r := ns[..j] + [o] + ns[j..];
      && |r| == |ns| + 1 && r[j] == o
      && (forall k :: 0 <= k < j ==> r[k] == ns[k])
      && (forall k :: j < k < |r| ==> r[k] == ns[k - 1])
  {
  }

  /** Where the elements of `ns` stand once the one at `j` is removed. */
  lemma RemovedAt<T>(ns: seq<T>, j: nat)
    requires j < |ns|
    ensures var r := ns[..j] + ns[j + 1..];
      && |r| + 1 == |ns|
      && (forall k :: 0 <= k < j ==> r[k] == ns[k])
      && (forall k :: j <= k < |r| ==> r[k] == ns[k + 1])
  {
  }

  /** Inserting a loader keeps the anchors unrepeated. */
  lemma InsertKeepsNoRepeats(ns: seq<Sibling>, j: nat, o: Sibling)
    requires j <= |ns| && o.ObjectElement? && NoRepeats(ns)
    ensures NoRepeats(ns[..j] + [o] + ns[j..])
  {
    var r := ns[..j] + [o] + ns[j..];
    forall i, k | 0 <= i < k < |r| && Slot(r, i).IncludeElement?
      ensures Slot(r, i) != Slot(r, k)
    {
      var i', k' := if i < j then i else i - 1, if k < j then k else k - 1;
      assert Slot(r, i) == Slot(ns, i');
      if k != j {
        assert Slot(r, k) == Slot(ns, k');
      }
    }
  }

  /** Removing a sibling keeps the anchors unrepeated. */
  lemma RemoveKeepsNoRepeats(ns: seq<Sibling>, j: nat)
    requires j < |ns| && NoRepeats(ns)
    ensures NoRepeats(ns[..j] + ns[j + 1..])
  {
    var r := ns[..j] + ns[j + 1..];
    forall i, k | 0 <= i < k < |r| && Slot(r, i).IncludeElement?
      ensures Slot(r, i) != Slot(r, k)
    {
      var i', k' := if i < j then i else i + 1, if k < j then k else k + 1;
      assert Slot(r, i) == Slot(ns, i') && Slot(r, k) == Slot(ns, k');
    }
  }

  /** Cutting a partly swept sibling list `pre + ns[p..]` around the old position `q`. */
  lemma SiblingsAround(pre: seq<Sibling>, ns: seq<Sibling>, p: nat, q: nat, o: Sibling)
    requires p <= q < |ns|
    ensures var cur, j := pre + ns[p..], |pre| + (q - p);
      && j < |cur| && cur[j] == ns[q]
      && cur[j..] == [ns[q]] + ns[q + 1..]
      && cur[..j] + [o] + cur[j..] == (pre + ns[p..q] + [o, ns[q]]) + ns[q + 1..]
      && cur == (pre + ns[p..q] + [ns[q]]) + ns[q + 1..]
  {
    var cur, j := pre + ns[p..], |pre| + (q - p);
    assert cur[..j] == pre + ns[p..q];
    assert cur[j..] == ns[q..];
    assert ns[p..q + 1] == ns[p..q] + [ns[q]];
    assert ns[q..] == [ns[q]] + ns[q + 1..];
  }

  /** The `k`-th pending position `q`, seen from a prefix `v[..p]` holding `k` of them. */
  lemma PendingAfter(v: seq<Node>, p: nat, k: nat, q: nat)
    requires p <= |v| && k < |PendingPositions(v)| && q == PendingPositions(v)[k]
    requires |PendingPositions(v[..p])| == k
    ensures p <= q < |v| && IsPendingNode(v[q])
    ensures |PendingPositions(v[..q])| == k && |PendingPositions(v[..q + 1])| == k + 1
  {
    PendingPositionAt(v, k);
    PendingPositionsStep(v, q);
    if q < p {
      PendingMonotone(v, q + 1, p);
    }
  }

  /**
   * Where one `displayLazy` of the loop leaves the page: if the anchor at
   * old position `q` was displayed, the siblings gained its loader and the
   * nodes took the display step; otherwise both are as they were. Either
   * way the swept prefix now reaches past `q`; its siblings are returned.
   */
  lemma StepLands(v: seq<Node>, ns: seq<Sibling>, pre: seq<Sibling>, swept: seq<Node>, p: nat, q: nat,
                  eligible: bool, loader: Sibling, j: nat, next: seq<Node>, nodes': seq<Sibling>, view': seq<Node>)
    returns (pre': seq<Sibling>)
    requires p <= q < |v| == |ns| && |pre| == |swept| && j == |pre| + (q - p)
    requires j < |swept + v[p..]| && (swept + v[p..])[j].Anchor?
    requires next + v[q + 1..] == if eligible then DisplayView(swept + v[p..], j) else swept + v[p..]
    requires eligible ==>
      nodes' == (pre + ns[p..])[..j] + [loader] + (pre + ns[p..])[j..] && view' == DisplayView(swept + v[p..], j)
    requires !eligible ==> nodes' == pre + ns[p..] && view' == swept + v[p..]
    ensures pre' == pre + ns[p..q] + (if eligible then [loader, ns[q]] else [ns[q]])
    ensures nodes' == pre' + ns[q + 1..]
    ensures |pre'| == |next| && view' == next + v[q + 1..]
  {
    SiblingsAround(pre, ns, p, q, loader);
    pre' := pre + ns[p..q] + (if eligible then [loader, ns[q]] else [ns[q]]);
  }

  /**
   * The `k`-th step of the `update` loop from start to end: the page before
   * it is the swept prefix followed by the untouched rest, and after the
   * `displayLazy` of the anchor at old position `q` (found at position `j`)
   * the swept prefix reaches past `q`. The new prefix of siblings is returned.
   */
  lemma StepCompletes(v: seq<Node>, ns: seq<Sibling>, pre: seq<Sibling>, swept: seq<Node>, p: nat, q: nat, k: nat,
                      eventType: string, boxes: seq<Box>, vp: Viewport, loader: Sibling, j: nat,
                      nodes': seq<Sibling>, view': seq<Node>)
    returns (pre': seq<Sibling>)
    requires p <= |v| == |ns| && k < |PendingPositions(v)| == |boxes| && q == PendingPositions(v)[k]
    requires |PendingPositions(v[..p])| == k && swept == Sweep(v[..p], eventType, boxes[..k], vp)
    requires |pre| == |swept| && j == |pre| + (q - p)
    requires j < |swept + v[p..]| && (swept + v[p..])[j].Anchor?
    requires LazyEligible(eventType, boxes[k], vp) ==>
      nodes' == (pre + ns[p..])[..j] + [loader] + (pre + ns[p..])[j..] && view' == DisplayView(swept + v[p..], j)
    requires !LazyEligible(eventType, boxes[k], vp) ==> nodes' == pre + ns[p..] && view' == swept + v[p..]
    ensures p <= q < |v| && |PendingPositions(v[..q + 1])| == k + 1
    ensures pre' == pre + ns[p..q] + (if LazyEligible(eventType, boxes[k], vp) then [loader, ns[q]] else [ns[q]])
    ensures nodes' == pre' + ns[q + 1..]
    ensures var swept' := Sweep(v[..q + 1], eventType, boxes[..k + 1], vp);
      |pre'| == |swept'| && view' == swept' + v[q + 1..]
  {
    PendingAfter(v, p, k, q);
    SweepDisplayStep(v, swept, p, k, q, j, eventType, boxes, vp);
    pre' := StepLands(v, ns, pre, swept, p, q, LazyEligible(eventType, boxes[k], vp), loader, j,
                      Sweep(v[..q + 1], eventType, boxes[..k + 1], vp), nodes', view');
  }

  /** The box layout gives each anchor, in the order of `anchors`. */
  function BoxesOf(anchors: seq<IncludeFragment>, layout: IncludeFragment -> Box): (r: seq<Box>)
    ensures |r| == |anchors|
    ensures forall k :: 0 <= k < |anchors| ==> r[k] == layout(anchors[k])
  {
    seq(|anchors|, k requires 0 <= k < |anchors| => layout(anchors[k]))
  }

  /** A page from which the loader at `i` left and whose node after it became `x`. */
  lemma RemovalView(ov: seq<Node>, nv: seq<Node>, i: nat, x: Node)
    requires i + 1 < |ov| && |nv| + 1 == |ov|
    requires forall k :: 0 <= k < i ==> nv[k] == ov[k]
    requires nv[i] == x
    requires forall k :: i < k < |nv| ==> nv[k] == ov[k + 1]
    ensures nv == ov[..i] + [x] + ov[i + 2..]
  {
    var r := ov[..i] + [x] + ov[i + 2..];
    forall k | 0 <= k < |nv|
      ensures nv[k] == r[k]
    {
      if k < i {
        assert r[k] == ov[k];
      } else if k == i {
        assert r[k] == x;
      } else {
        assert r[k] == ov[i + 2..][k - i - 1] == ov[k + 1];
      }
    }
  }

  /** A page into which a loader for the anchor at `j` was inserted before it, the anchor now consumed. */
  lemma InsertionView(ov: seq<Node>, nv: seq<Node>, j: nat)
    requires j < |ov| && ov[j].Anchor? && |nv| == |ov| + 1
    requires forall k :: 0 <= k < j ==> nv[k] == ov[k]
    requires nv[j] == Loader(HrefProperty(ov[j].attrs)) && nv[j + 1] == Anchor(Consume(ov[j].attrs), ov[j].children)
    requires forall k :: j + 1 < k < |nv| ==> nv[k] == ov[k - 1]
    ensures nv == DisplayView(ov, j)
  {
    var r := DisplayView(ov, j);
    forall k | 0 <= k < |nv|
      ensures nv[k] == r[k]
    {
      if k < j {
        assert r[k] == ov[k];
      } else if k <= j + 1 {
        assert r[k] == Triggered(ov[j])[k - j];
      } else {
        assert r[k] == ov[j + 1..][k - j - 2] == ov[k - 1];
      }
    }
  }

  class Page {
    /** The siblings, in document order. */
    var nodes: seq<Sibling>

    /** The include anchors on this page: what `document.querySelectorAll` can reach. */
    ghost const anchors: set<IncludeFragment>

    /**
     * The page's anchors are exactly the anchors in the sibling list, and a
     * node sits in one place of the tree: no anchor object occurs twice.
     */
    ghost predicate Valid()
      reads this
    {
      && (forall i :: 0 <= i < |nodes| && nodes[i].IncludeElement? ==> nodes[i].anchor in anchors)
      && (forall x :: x in anchors ==> IncludeElement(x) in nodes)
      && NoRepeats(nodes)
    }

    /** The page as a value. */
    ghost function View(): (v: seq<Node>)
      requires Valid()
      reads this, anchors
      ensures |v| == |nodes|
      ensures forall i :: 0 <= i < |nodes| ==> v[i] == NodeOf(nodes[i])
    {
      seq(|nodes|, i reads this, anchors requires 0 <= i < |nodes| && Valid() => NodeOf(nodes[i]))
    }

    /** The anchors the sweep's query returns, in document order. */
    ghost function Selected(): (r: seq<IncludeFragment>)
      requires Valid()
      reads this, anchors
      ensures |r| == |PendingPositions(View())|
      ensures forall k :: 0 <= k < |r| ==> nodes[PendingPositions(View())[k]] == IncludeElement(r[k])
      ensures forall k :: 0 <= k < |r| ==> r[k] in anchors
    {
      var P, ns := PendingPositions(View()), nodes;
      assert forall k :: 0 <= k < |P| ==> P[k] < |ns| && ns[P[k]].IncludeElement?;
      seq(|P|, k requires 0 <= k < |P| => ns[P[k]].anchor)
    }

    /** A page holding `nodes`, in which no anchor object occurs twice. */
    constructor (nodes: seq<Sibling>)
      requires NoRepeats(nodes)
      ensures Valid() && this.nodes == nodes
      ensures anchors == set s | s in nodes && s.IncludeElement? :: s.anchor
    {
      this.nodes := nodes;
      this.anchors := set s | s in nodes && s.IncludeElement? :: s.anchor;
      new;
      forall x | x in anchors
        ensures IncludeElement(x) in nodes
      {
        var s :| s in nodes && s.IncludeElement? && s.anchor == x;
        assert s == IncludeElement(x);
      }
    }

    /**
     * `querySelectorAll("a[is='include-fragment'][href][loading='lazy']")`:
     * the anchors that still hold `href` and are marked lazy, in document order.
     */
    method QueryPending() returns (r: seq<IncludeFragment>)
      requires Valid()
      ensures r == Selected()
      ensures forall k :: 0 <= k < |r| ==> IncludeElement(r[k]) in nodes && IsPending(r[k].attrs)
      ensures forall i :: 0 <= i < |nodes| && nodes[i].IncludeElement? && IsPending(nodes[i].anchor.attrs) ==>
        nodes[i].anchor in r
    {
      ghost var v := View();
      r := [];
      var q := 0;
      while q < |nodes|
        invariant 0 <= q <= |nodes|
        invariant |r| == |PendingPositions(v[..q])|
        invariant forall k :: 0 <= k < |r| ==> r[k] == nodes[PendingPositions(v[..q])[k]].anchor
      {
        PendingPositionsStep(v, q);
        if nodes[q].IncludeElement? && IsPending(nodes[q].anchor.attrs) {
          r := r + [nodes[q].anchor];
        }
        q := q + 1;
      }
      assert v[..q] == v && v == View();
      forall k | 0 <= k < |r|
        ensures r[k] == Selected()[k]
      {
        assert nodes[PendingPositions(v)[k]] == IncludeElement(Selected()[k]);
      }
      forall k | 0 <= k < |r|
        ensures IncludeElement(r[k]) in nodes && IsPending(r[k].attrs)
      {
        var i := PendingPositions(v)[k];
        assert v[i] == NodeOf(nodes[i]) && IsPendingNode(v[i]);
      }
      PendingPositionsExact(v);
      forall i | 0 <= i < |nodes| && nodes[i].IncludeElement? && IsPending(nodes[i].anchor.attrs)
        ensures nodes[i].anchor in r
      {
        assert v[i] == NodeOf(nodes[i]) && IsPendingNode(v[i]);
        var k :| 0 <= k < |PendingPositions(v)| && PendingPositions(v)[k] == i;
        assert r[k] == nodes[i].anchor;
      }
    }

    /**
     * `DocFragment.replace`, the `load` handler of the loader at position
     * `i`: on a document, the sibling's children become its style-sheet
     * links and then its root markup; on null, the sibling's hyperlink is
     * reset and its children are left alone; either way the loader leaves.
     */
    method Replace(i: nat, contentDocument: Option<FetchedDocument>)
      requires Valid()
      requires i + 1 < |nodes| && nodes[i].ObjectElement? && nodes[i + 1].IncludeElement?
      modifies this, nodes[i + 1].anchor
      ensures Valid()
      ensures nodes == old(nodes[..i] + nodes[i + 1..])
      ensures View() == ReplaceView(old(View()), i, contentDocument)
    {
      ghost var ov := View();
      var ns := nodes;
      var sibling := nodes[i + 1].anchor;
      match contentDocument {
        case Some(doc) =>
          sibling.SpliceDocument(doc);
        case None =>
          sibling.ResetHyperlink();
      }
      assert NodeOf(ns[i + 1]) == Replaced(ov[i + 1], contentDocument);
      OnlyOccurrence(ns, i + 1);
      RemoveKeepsNoRepeats(ns, i);
      RemoveKeepsMembers(ns, i);
      nodes := ns[..i] + ns[i + 1..];
      RemovedAt(ns, i);
      ghost var nv := View();
      forall k | 0 <= k < i
        ensures nv[k] == ov[k]
      {
        assert ns[k] != ns[i + 1];
      }
      forall k | i < k < |nv|
        ensures nv[k] == ov[k + 1]
      {
        assert ns[k + 1] != ns[i + 1];
      }
      RemovalView(ov, nv, i, NodeOf(ns[i + 1]));
    }
  }

  class IncludeFragment {
    var attrs: Attrs
    var children: seq<Child>

    constructor (attrs: Attrs, children: seq<Child>)
      ensures this.attrs == attrs && this.children == children
    {
      this.attrs := attrs;
      this.children := children;
    }

    /**
     * The success branch of `replace`, run on the loader's next sibling:
     * clear the children, append one style-sheet link per style sheet of the
     * fetched document, in order, then its root element's markup.
     */
    method SpliceDocument(doc: FetchedDocument)
      modifies this
      ensures children == Splice(doc) && attrs == old(attrs)
    {
      children := [];
      var k := 0;
      while k < |doc.styleSheets|
        invariant 0 <= k <= |doc.styleSheets|
        invariant children == StylesheetLinks(doc.styleSheets[..k]) && attrs == old(attrs)
      {
        children := children + [Link(AttrText(doc.styleSheets[k]))];
        k := k + 1;
      }
      assert doc.styleSheets[..k] == doc.styleSheets;
      children := children + [Markup(doc.root)];
    }

    /** `setSource`: park the reference in `data-src` and leave the link role. */
    method SetSource()
      modifies this
      ensures attrs == Consume(old(attrs)) && children == old(children)
    {
      attrs := attrs[DATA_SRC := AttrText(GetAttribute(attrs, HREF))];
      attrs := attrs - {HREF};
      attrs := attrs[ROLE := ROLE_NONE];
    }

    /** `resetHyperlink`: turn the parked reference back into a live `href`. */
    method ResetHyperlink()
      modifies this
      ensures attrs == Reset(old(attrs)) && children == old(children)
    {
      attrs := attrs[HREF := AttrText(GetAttribute(attrs, DATA_SRC))];
      attrs := attrs - {DATA_SRC};
      attrs := attrs - {ROLE};
    }

    /**
     * `display`: insert a loader for this anchor's href as its immediately
     * preceding sibling, then consume the anchor.
     */
    method Display(page: Page)
      requires page.Valid() && IncludeElement(this) in page.nodes
      modifies this, page
      ensures page.Valid()
      ensures var j := IndexOf(old(page.nodes), this);
        && page.nodes == old(page.nodes)[..j] + [ObjectElement(HrefProperty(old(attrs)))] + old(page.nodes)[j..]
        && page.View() == DisplayView(old(page.View()), j)
    {
      var j := IndexOf(page.nodes, this);
      ghost var ov, ns := page.View(), page.nodes;
      var loader := ObjectElement(HrefProperty(attrs));
      OnlyOccurrence(page.nodes, j);
      InsertKeepsNoRepeats(page.nodes, j, loader);
      InsertKeepsMembers(page.nodes, j, loader);
      page.nodes := page.nodes[..j] + [loader] + page.nodes[j..];
      InsertedAt(ns, j, loader);
      SetSource();
      ghost var nv := page.View();
      forall k | 0 <= k < j
        ensures nv[k] == ov[k]
      {
        assert ns[k] != ns[j];
      }
      forall k | j + 1 < k < |nv|
        ensures nv[k] == ov[k - 1]
      {
        assert ns[k - 1] != ns[j];
      }
      InsertionView(ov, nv, j);
    }

    /**
     * `connectedCallback`: display at once unless `loading` is exactly "lazy".
     * There is no guard against an anchor that was already consumed.
     */
    method ConnectedCallback(page: Page)
      requires page.Valid() && IncludeElement(this) in page.nodes
      modifies this, page
      ensures page.Valid()
      ensures var j := IndexOf(old(page.nodes), this);
        if IsEager(old(attrs)) then
          && page.nodes == old(page.nodes)[..j] + [ObjectElement(HrefProperty(old(attrs)))] + old(page.nodes)[j..]
          && page.View() == DisplayView(old(page.View()), j)
        else
          page.nodes == old(page.nodes) && page.View() == old(page.View())
    {
      if IsEager(attrs) {
        Display(page);
      }
    }

    /**
     * `displayLazy`: display on a print event, or when this anchor's box
     * lies inside the viewport grown by its own size.
     */
    method DisplayLazy(page: Page, eventType: string, bounding: Box, vp: Viewport)
      requires page.Valid() && IncludeElement(this) in page.nodes
      modifies this, page
      ensures page.Valid()
      ensures var j := IndexOf(old(page.nodes), this);
        if LazyEligible(eventType, bounding, vp) then
          && page.nodes == old(page.nodes)[..j] + [ObjectElement(HrefProperty(old(attrs)))] + old(page.nodes)[j..]
          && page.View() == DisplayView(old(page.View()), j)
        else
          page.nodes == old(page.nodes) && page.View() == old(page.View())
    {
      if LazyEligible(eventType, bounding, vp) {
        Display(page);
      }
    }

    /**
     * The body of the `update` loop for the `k`-th pending anchor `a`, which
     * stood at position `q` of the page `v` (siblings `ns`) when the sweep
     * began: the page is the swept prefix (`pre` as siblings, `swept` as
     * nodes) followed by the untouched rest, and afterwards the swept prefix
     * reaches past `a`. The new prefix of siblings is returned.
     */
    static method SweepNext(page: Page, a: IncludeFragment, eventType: string, box: Box, vp: Viewport,
                            ghost v: seq<Node>, ghost ns: seq<Sibling>, ghost pre: seq<Sibling>,
                            ghost swept: seq<Node>, ghost p: nat, ghost k: nat, ghost q: nat,
                            ghost boxes: seq<Box>)
      returns (ghost pre': seq<Sibling>, ghost swept': seq<Node>)
      requires p <= |v| == |ns| && k < |PendingPositions(v)| == |boxes| && q == PendingPositions(v)[k]
      requires |PendingPositions(v[..p])| == k && swept == Sweep(v[..p], eventType, boxes[..k], vp)
      requires ns[q] == IncludeElement(a) && box == boxes[k]
      requires page.Valid() && page.nodes == pre + ns[p..] && |pre| == |swept| && page.View() == swept + v[p..]
      modifies page, a
      ensures p <= q < |v| && |PendingPositions(v[..q + 1])| == k + 1
      ensures pre' == pre + ns[p..q] +
        (if LazyEligible(eventType, box, vp) then [ObjectElement(HrefProperty(old(a.attrs))), ns[q]] else [ns[q]])
      ensures page.Valid() && page.nodes == pre' + ns[q + 1..]
      ensures swept' == Sweep(v[..q + 1], eventType, boxes[..k + 1], vp)
      ensures |pre'| == |swept'| && page.View() == swept' + v[q + 1..]
      ensures AnchorsOf(page.nodes) == AnchorsOf(old(page.nodes))
    {
      PendingAfter(v, p, k, q);
      ghost var j, cur, w := |pre| + (q - p), page.nodes, page.View();
      ghost var loader := ObjectElement(HrefProperty(a.attrs));
      assert cur[j] == ns[q] && w[j] == NodeOf(ns[q]);
      IndexOfUnique(cur, j);
      a.DisplayLazy(page, eventType, box, vp);
      pre' := StepCompletes(v, ns, pre, swept, p, q, k, eventType, boxes, vp, loader, j, page.nodes, page.View());
      swept' := Sweep(v[..q + 1], eventType, boxes[..k + 1], vp);
      if LazyEligible(eventType, box, vp) {
        LoaderKeepsAnchors(cur, j, loader);
      }
    }

    /**
     * The static `update` handler of the load, scroll and beforeprint events:
     * query the pending lazy anchors once, then run `displayLazy` on each in
     * document order, each with the box that `layout` gives it.
     */
    static method Update(page: Page, eventType: string, layout: IncludeFragment -> Box, vp: Viewport)
      requires page.Valid()
      modifies page, page.anchors
      ensures page.Valid()
      ensures page.View() == Sweep(old(page.View()), eventType, BoxesOf(old(page.Selected()), layout), vp)
      ensures AnchorsOf(page.nodes) == AnchorsOf(old(page.nodes))
      ensures forall x :: IncludeElement(x) in page.nodes <==> IncludeElement(x) in old(page.nodes)
    {
      var anchors := page.QueryPending();
      ghost var v, ns := page.View(), page.nodes;
      assert v == old(page.View()) && anchors == old(page.Selected());
      ghost var boxes := BoxesOf(anchors, layout);
      ghost var p: nat, pre: seq<Sibling>, swept: seq<Node> := 0, [], [];
      var k := 0;
      while k < |anchors|
        invariant 0 <= k <= |anchors| == |PendingPositions(v)| == |boxes|
        invariant p <= |v| == |ns| && |PendingPositions(v[..p])| == k
        invariant swept == Sweep(v[..p], eventType, boxes[..k], vp)
        invariant page.Valid()
        invariant page.nodes == pre + ns[p..] && |pre| == |swept|
        invariant page.View() == swept + v[p..]
        invariant AnchorsOf(page.nodes) == AnchorsOf(ns)
      {
        ghost var q := PendingPositions(v)[k];
        pre, swept := SweepNext(page, anchors[k], eventType, layout(anchors[k]), vp, v, ns, pre, swept, p, k, q, boxes);
        p := q + 1;
        k := k + 1;
        // The state the next `displayLazy` starts from, gathered in one step.
        assert k <= |anchors| && p <= |v| && |PendingPositions(v[..p])| == k && swept == Sweep(v[..p], eventType, boxes[..k], vp)
          && page.Valid() && page.nodes == pre + ns[p..] && page.View() == swept + v[p..] && AnchorsOf(page.nodes) == AnchorsOf(ns);
      }
      SweepDone(v, p, k, swept, eventType, boxes, vp);
      SameAnchorsSameMembers(page.nodes, ns);
    }
  }
}
