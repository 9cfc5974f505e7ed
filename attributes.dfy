/**
 * The attribute set of an `<a is="include-fragment">` element and the two
 * transitions that move it between its addressable state (a live `href`) and
 * its consumed state (the reference parked in `data-src`, `role="none"`).
 */
module Attributes {
  import opened Wrappers

  /** An element's attributes: name to value. */
  type Attrs = map<string, string>

  const HREF := "href"
  const DATA_SRC := "data-src"
  const ROLE := "role"
  const LOADING := "loading"
  const ROLE_NONE := "none"
  const LAZY := "lazy"

  /** `getAttribute(name)`: the value, or null when the attribute is absent. */
  function GetAttribute(m: Attrs, name: string): Option<string>
  {
    if name in m then Some(m[name]) else None
  }

  /** `setAttribute` stores its argument as a string, so a null becomes "null". */
  function AttrText(v: Option<string>): string
  {
    match v
    case Some(s) => s
    case None => "null"
  }

  /**
   * The anchor's `href` property. URL resolution against the document's base
   * is not modelled: the property is the attribute's text, or "" without one.
   */
  function HrefProperty(m: Attrs): string
  {
    if HREF in m then m[HREF] else ""
  }

  /** Every attribute other than those in `names` is the same in `m` and `m'`. */
  ghost predicate SameOutside(m: Attrs, m': Attrs, names: set<string>)
  {
    forall k :: k !in names ==> GetAttribute(m, k) == GetAttribute(m', k)
  }

  /** Addressable: a live reference and no trace of a previous consumption. */
  predicate Addressable(m: Attrs)
  {
    HREF in m && DATA_SRC !in m && ROLE !in m
  }

  /** Consumed: the reference lives in `data-src` and the element is `role="none"`. */
  predicate IsConsumed(m: Attrs)
  {
    HREF !in m && DATA_SRC in m && ROLE in m && m[ROLE] == ROLE_NONE
  }

  /** `setSource`: copy `href` into `data-src`, drop `href`, set `role="none"`. */
  function Consume(m: Attrs): (r: Attrs)
    ensures HREF !in r
    ensures DATA_SRC in r && r[DATA_SRC] == AttrText(GetAttribute(m, HREF))
    ensures ROLE in r && r[ROLE] == ROLE_NONE
    ensures SameOutside(m, r, {HREF, DATA_SRC, ROLE})
  {
    (m - {HREF})[DATA_SRC := AttrText(GetAttribute(m, HREF))][ROLE := ROLE_NONE]
  }

  /** `resetHyperlink`: copy `data-src` back into `href`, drop `data-src` and `role`. */
  function Reset(m: Attrs): (r: Attrs)
    ensures HREF in r && r[HREF] == AttrText(GetAttribute(m, DATA_SRC))
    ensures DATA_SRC !in r && ROLE !in r
    ensures SameOutside(m, r, {HREF, DATA_SRC, ROLE})
  {
    m[HREF := AttrText(GetAttribute(m, DATA_SRC))] - {DATA_SRC, ROLE}
  }

  /** The test in `connectedCallback`: anything but the literal "lazy" loads at once. */
  predicate IsEager(m: Attrs)
  {
    GetAttribute(m, LOADING) != Some(LAZY)
  }

  /** The selector `[href][loading='lazy']` that the scroll/load/print sweep queries. */
  predicate IsPending(m: Attrs)
  {
    HREF in m && GetAttribute(m, LOADING) == Some(LAZY)
  }

  /** Whatever the starting attributes, each transition lands in exactly one state. */
  lemma TransitionsAreExclusive(m: Attrs)
    ensures IsConsumed(Consume(m)) && !Addressable(Consume(m))
    ensures Addressable(Reset(m)) && !IsConsumed(Reset(m))
  {
  }

  /**
   * A failed load undoes `setSource`: `href` comes back with its old text (the
   * string "null" if there was none), `data-src` and `role` are gone, and
   * nothing else differs.
   */
  lemma ResetUndoesConsume(m: Attrs)
    ensures Reset(Consume(m)) == (m - {DATA_SRC, ROLE})[HREF := AttrText(GetAttribute(m, HREF))]
  {
    var r := Reset(Consume(m));
    var e := (m - {DATA_SRC, ROLE})[HREF := AttrText(GetAttribute(m, HREF))];
    forall k
      ensures (k in r <==> k in e) && (k in r ==> r[k] == e[k])
    {
      assert GetAttribute(r, k) == GetAttribute(e, k);
    }
  }

  /** From the addressable state the round trip restores the attributes exactly. */
  lemma RoundTrip(m: Attrs)
    requires Addressable(m)
    ensures Reset(Consume(m)) == m
  {
    ResetUndoesConsume(m);
    assert m - {DATA_SRC, ROLE} == m;
  }

  /** From the consumed state, reset followed by consume restores it exactly. */
  lemma ConsumeUndoesReset(m: Attrs)
    requires IsConsumed(m)
    ensures Consume(Reset(m)) == m
  {
    var r := Consume(Reset(m));
    forall k
      ensures (k in r <==> k in m) && (k in r ==> r[k] == m[k])
    {
      assert GetAttribute(r, k) == GetAttribute(m, k);
    }
  }

  /**
   * Only the literal "lazy" defers loading: no attribute, "eager", or any
   * other text (the comparison is case-sensitive) loads at once.
   */
  lemma EagerUnlessLazy(m: Attrs)
    ensures IsEager(m) <==> !(LOADING in m && m[LOADING] == LAZY)
    ensures LOADING !in m ==> IsEager(m)
    ensures IsEager(m[LOADING := "eager"]) && IsEager(m[LOADING := "LAZY"])
    ensures !IsEager(m[LOADING := LAZY])
  {
  }

  /**
   * The sweep only ever selects lazy anchors that still hold `href`: a
   * consumed anchor is never selected again, an eager one never, and a lazy
   * anchor whose load failed is selectable once more.
   */
  lemma PendingOnlyBeforeConsume(m: Attrs)
    ensures IsPending(m) ==> !IsEager(m)
    ensures !IsPending(Consume(m))
    ensures IsPending(Reset(m)) <==> GetAttribute(m, LOADING) == Some(LAZY)
  {
    assert GetAttribute(Consume(m), LOADING) == GetAttribute(m, LOADING);
    assert GetAttribute(Reset(m), LOADING) == GetAttribute(m, LOADING);
  }
}
