/**
 * The widget tree the peers read (`self.parent`, `self.kids`, `self.onMouseDown`). The
 * tree itself belongs to the widget object model and is not changed by the peer layer.
 * Widgets are numbered 0 .. Count()-1 and every widget's parent has a smaller number
 * than the widget, which is how this model states that the tree is finite and acyclic.
 */
module Widgets {
  import opened Wrappers
  import Dom

  type WId = nat

  datatype Tree = Tree(parent: seq<Option<WId>>, kids: seq<seq<WId>>, onMouseDown: seq<seq<Dom.Handler>>) {

    function Count(): nat { |parent| }

    /** Every kid names its parent back, and parents come before their kids. */
    predicate Valid() {
      && |kids| == |parent| && |onMouseDown| == |parent|
      && (forall w :: 0 <= w < |parent| && parent[w].Some? ==> parent[w].value < w)
      && (forall p, i :: 0 <= p < |kids| && 0 <= i < |kids[p]| ==> p < kids[p][i] < |parent| && parent[kids[p][i]] == Some(p))
    }

    /** Every widget that has a parent is among that parent's kids. */
    predicate Listed()
      requires Valid()
    {
      forall w :: 0 <= w < |parent| && parent[w].Some? ==> w in kids[parent[w].value]
    }

    /** `v` is `a` or lies below `a`. */
    predicate Desc(a: WId, v: WId)
      requires Valid() && v < Count()
      decreases v
    {
      v == a || (parent[v].Some? && Desc(a, parent[v].value))
    }

    /** The ancestors of `w`, nearest first, ending at the root. */
    function Ancestors(w: WId): (r: seq<WId>)
      requires Valid() && w < Count()
      ensures forall i :: 0 <= i < |r| ==> r[i] < w
      decreases w
    {
      if parent[w].None? then [] else [parent[w].value] + Ancestors(parent[w].value)
    }
  }

  /** A descendant is numbered no lower than its ancestor. */
  lemma {:induction false} DescBelow(t: Tree, a: WId, v: WId)
    requires t.Valid() && v < t.Count() && t.Desc(a, v)
    ensures a <= v
    decreases v
  {
    if v != a {
      DescBelow(t, a, t.parent[v].value);
    }
  }

  /** Being below is transitive. */
  lemma {:induction false} DescTrans(t: Tree, a: WId, b: WId, v: WId)
    requires t.Valid() && b < t.Count() && v < t.Count() && t.Desc(a, b) && t.Desc(b, v)
    ensures t.Desc(a, v)
    decreases v
  {
    if v != b {
      DescTrans(t, a, b, t.parent[v].value);
    }
  }

  /** Two widgets above the same widget lie on one chain: one is above the other. */
  lemma {:induction false} DescChain(t: Tree, a: WId, b: WId, v: WId)
    requires t.Valid() && a < t.Count() && b < t.Count() && v < t.Count() && t.Desc(a, v) && t.Desc(b, v)
    ensures t.Desc(a, b) || t.Desc(b, a)
    decreases v
  {
    if v != a && v != b {
      DescChain(t, a, b, t.parent[v].value);
    }
  }

  /** The subtrees of two different kids of one widget share no widget. */
  lemma SiblingsDisjoint(t: Tree, w: WId, a: WId, b: WId, v: WId)
    requires t.Valid() && a < t.Count() && b < t.Count() && v < t.Count()
    requires t.parent[a] == Some(w) && t.parent[b] == Some(w) && a != b
    requires t.Desc(a, v)
    ensures !t.Desc(b, v)
  {
    if t.Desc(b, v) {
      DescChain(t, a, b, v);
      if t.Desc(a, b) {
        assert t.Desc(a, w);
        DescBelow(t, a, w);
      } else {
        assert t.Desc(b, w);
        DescBelow(t, b, w);
      }
    }
  }

  /** Everything strictly below `w` lies in the subtree of one of `w`'s kids. */
  lemma {:induction false} BelowSomeKid(t: Tree, w: WId, v: WId)
    requires t.Valid() && t.Listed() && w < t.Count() && v < t.Count() && t.Desc(w, v) && v != w
    ensures exists i :: 0 <= i < |t.kids[w]| && t.Desc(t.kids[w][i], v)
    decreases v
  {
    var p := t.parent[v].value;
    if p == w {
      var i :| 0 <= i < |t.kids[w]| && t.kids[w][i] == v;
      assert t.Desc(t.kids[w][i], v);
    } else {
      BelowSomeKid(t, w, p);
      var i :| 0 <= i < |t.kids[w]| && t.Desc(t.kids[w][i], p);
      assert t.Desc(t.kids[w][i], v);
    }
  }

  /** A kid's subtree lies below its parent. */
  lemma KidBelow(t: Tree, w: WId, i: nat, v: WId)
    requires t.Valid() && w < t.Count() && i < |t.kids[w]| && v < t.Count() && t.Desc(t.kids[w][i], v)
    ensures t.Desc(w, v) && v != w
  {
    var k := t.kids[w][i];
    assert t.Desc(w, k);
    DescTrans(t, w, k, v);
    DescBelow(t, k, v);
  }
}
