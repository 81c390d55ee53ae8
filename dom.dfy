/**
 * An abstract page document.  Nodes are numbered in document order; each
 * records its parent (`-1` for none), whether it is a text node, whether it
 * is `document.body`, whether it carries `role="contentinfo"`, and its
 * rendered text (`innerText` for an element, `textContent` for a text node).  The per-element inline
 * `display: none` style and the `data-privacy-hidden` attribute are the only
 * parts that the hiding engine changes.
 */
module Dom {

  datatype Node = Node(parent: int, isText: bool, isBody: bool, contentinfo: bool, text: string)

  type Tree = seq<Node>

  /**
   * A parent precedes its children in document order and is an element;
   * text nodes carry no role and are not the body; at most one element is
   * the body.
   */
  predicate WellFormed(t: Tree) {
    forall i :: 0 <= i < |t| ==>
      -1 <= t[i].parent < i &&
      (t[i].parent >= 0 ==> !t[t[i].parent].isText) &&
      (t[i].isText ==> !t[i].contentinfo && !t[i].isBody) &&
      (t[i].isBody ==> forall j :: 0 <= j < i ==> !t[j].isBody)
  }

  predicate IsElement(t: Tree, e: int) {
    0 <= e < |t| && !t[e].isText
  }

  /** `a` is `e` or one of its ancestors. */
  predicate AncestorOrSelf(t: Tree, a: int, e: int)
    requires WellFormed(t) && 0 <= e < |t|
    decreases e
  {
    a == e || (t[e].parent >= 0 && AncestorOrSelf(t, a, t[e].parent))
  }

  /** An ancestor has an index no larger than its descendant. */
  lemma {:induction false} AncestorIndex(t: Tree, a: int, e: int)
    requires WellFormed(t) && 0 <= e < |t| && AncestorOrSelf(t, a, e)
    ensures 0 <= a <= e
    decreases e
  {
    if a != e {
      AncestorIndex(t, a, t[e].parent);
    }
  }

  /** `e` lies inside `document.body`: the body is `e` or one of its ancestors. */
  predicate UnderBody(t: Tree, e: int)
    requires WellFormed(t) && 0 <= e < |t|
    decreases e
  {
    t[e].isBody || (t[e].parent >= 0 && UnderBody(t, t[e].parent))
  }

  /** `UnderBody` holds exactly when some ancestor-or-self of `e` is the body. */
  lemma {:induction false} UnderBodySpec(t: Tree, e: int)
    requires WellFormed(t) && 0 <= e < |t|
    ensures UnderBody(t, e) <==> exists a :: 0 <= a < |t| && AncestorOrSelf(t, a, e) && t[a].isBody
    decreases e
  {
    if !t[e].isBody && t[e].parent >= 0 {
      var p := t[e].parent;
      UnderBodySpec(t, p);
      if exists a :: 0 <= a < |t| && AncestorOrSelf(t, a, e) && t[a].isBody {
        var a :| 0 <= a < |t| && AncestorOrSelf(t, a, e) && t[a].isBody;
        assert AncestorOrSelf(t, a, p);
      }
    } else if !t[e].isBody {
      forall a | 0 <= a < |t| && AncestorOrSelf(t, a, e)
        ensures !t[a].isBody
      {
      }
    }
  }

  /** `el.closest('[role="contentinfo"]')`, `-1` for `null`. */
  function Closest(t: Tree, e: int): (r: int)
    requires WellFormed(t) && 0 <= e < |t|
    ensures -1 <= r <= e
    decreases e
  {
    if t[e].contentinfo then e
    else if t[e].parent < 0 then -1
    else Closest(t, t[e].parent)
  }

  /**
   * `closest` finds the nearest ancestor-or-self with the role, and `null`
   * exactly when no ancestor-or-self has it.
   */
  lemma {:induction false} ClosestSpec(t: Tree, e: int)
    requires WellFormed(t) && 0 <= e < |t|
    ensures Closest(t, e) == -1 <==> forall a :: 0 <= a < |t| && AncestorOrSelf(t, a, e) ==> !t[a].contentinfo
    ensures Closest(t, e) != -1 ==>
              AncestorOrSelf(t, Closest(t, e), e) && t[Closest(t, e)].contentinfo &&
              forall a :: 0 <= a < |t| && AncestorOrSelf(t, a, e) && Closest(t, e) < a ==> !t[a].contentinfo
    decreases e
  {
    if !t[e].contentinfo {
      if t[e].parent >= 0 {
        var p := t[e].parent;
        ClosestSpec(t, p);
        forall a | AncestorOrSelf(t, a, e) && a != e
          ensures AncestorOrSelf(t, a, p)
        {
        }
      } else {
        forall a | AncestorOrSelf(t, a, e)
          ensures a == e
        {
        }
      }
    } else {
      forall a | AncestorOrSelf(t, a, e) && e < a
        ensures false
      {
        AncestorIndex(t, a, e);
      }
    }
  }

  /** The element a selector match stands for: `el.closest('[role="contentinfo"]') || el`. */
  function SelectorTarget(t: Tree, e: int): (r: int)
    requires WellFormed(t) && 0 <= e < |t|
  {
    if Closest(t, e) >= 0 then Closest(t, e) else e
  }

  /** The target of a selector match on an element is an element that is the match or one of its ancestors. */
  lemma SelectorTargetIsElement(t: Tree, e: int)
    requires WellFormed(t) && IsElement(t, e)
    ensures IsElement(t, SelectorTarget(t, e)) && AncestorOrSelf(t, SelectorTarget(t, e), e)
  {
    ClosestSpec(t, e);
    if Closest(t, e) >= 0 {
      AncestorIndex(t, Closest(t, e), e);
    }
  }

  /** The rendered page: the fixed tree and the two mutable per-node flags. */
  class Document {
    const nodes: Tree
    var displayNone: seq<bool>
    var marker: seq<bool>

    ghost predicate Valid()
      reads this
    {
      WellFormed(nodes) && |displayNone| == |nodes| && |marker| == |nodes|
    }

    /** A freshly loaded page: its own inline styles, and no `data-privacy-hidden` attribute yet. */
    constructor (t: Tree, display: seq<bool>)
      requires WellFormed(t) && |display| == |t|
      ensures Valid() && nodes == t && displayNone == display
      ensures |marker| == |t| && forall i :: 0 <= i < |t| ==> !marker[i]
    {
      nodes := t;
      displayNone := display;
      marker := seq(|t|, _ => false);
    }
  }
}
