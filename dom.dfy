/**
 * The part of the browser DOM the peer layer touches: a store of elements, each with a
 * style record, a parent link, an ordered child list and a log of registered listeners.
 * Element creation and removal are the primitives `createElement` + `appendChild` and
 * `removeChild`; nothing is ever deleted from the store (a removed element still exists,
 * it is only unlinked from its parent).
 */
module Dom {
  import opened Wrappers

  type ElemId = nat
  /** An opaque event callback. */
  type Handler = nat

  /** A CSS length as this layer writes it: never set, "auto", or a pixel count. */
  datatype Length = Unset | Auto | Px(px: int)
  datatype Display = DisplayUnset | Block | DisplayNone
  datatype Style = Style(display: Display, left: Length, top: Length, width: Length, height: Length)

  /** The style of a freshly created div: left and top "0", nothing else set. */
  const FreshStyle := Style(DisplayUnset, Px(0), Px(0), Unset, Unset)

  datatype Listener = Listener(event: string, handler: Handler)

  datatype Element = Element(style: Style, parent: Option<ElemId>, children: seq<ElemId>, listeners: seq<Listener>)

  predicate NoDup(s: seq<ElemId>) {
    forall i, j :: 0 <= i < j < |s| ==> s[i] != s[j]
  }

  /** `s` with every occurrence of `x` taken out, order kept. */
  function Without(s: seq<ElemId>, x: ElemId): (r: seq<ElemId>)
    ensures forall y :: y in r <==> y in s && y != x
    ensures |r| <= |s|
  {
    if s == [] then []
    else if s[0] == x then Without(s[1..], x)
    else [s[0]] + Without(s[1..], x)
  }

  lemma {:induction false} WithoutNoDup(s: seq<ElemId>, x: ElemId)
    requires NoDup(s)
    ensures NoDup(Without(s, x))
    ensures x in s ==> |Without(s, x)| == |s| - 1
    ensures x !in s ==> Without(s, x) == s
  {
    if s != [] {
      assert NoDup(s[1..]) by {
        forall i, j | 0 <= i < j < |s[1..]| ensures s[1..][i] != s[1..][j] {
          assert s[1..][i] == s[i + 1] && s[1..][j] == s[j + 1];
        }
      }
      WithoutNoDup(s[1..], x);
      if s[0] == x {
        assert x !in s[1..] by {
          forall k | 0 <= k < |s[1..]| ensures s[1..][k] != x {
            assert s[1..][k] == s[k + 1];
          }
        }
      } else {
        var r := [s[0]] + Without(s[1..], x);
        forall i, j | 0 <= i < j < |r| ensures r[i] != r[j] {
          if i == 0 {
            assert r[j] in Without(s[1..], x);
            assert s[0] !in s[1..] by {
              forall k | 0 <= k < |s[1..]| ensures s[1..][k] != s[0] {
                assert s[1..][k] == s[k + 1];
              }
            }
          } else {
            assert r[i] == Without(s[1..], x)[i - 1] && r[j] == Without(s[1..], x)[j - 1];
          }
        }
        if x !in s {
          assert s == [s[0]] + s[1..];
        }
      }
    }
  }

  /** The element store of one document; `next` is the id the next created element gets. */
  datatype Doc = Doc(elems: map<ElemId, Element>, next: ElemId) {

    /** Ids below `next`; parent and child links agree in both directions; no child twice;
        a parent's id is below its child's (so the element tree has no cycle). */
    predicate Valid() {
      IdsBelowNext() && ChildLinks() && ParentLinks() && ChildrenDistinct() && ParentsBelow()
    }

    predicate IdsBelowNext() {
      forall e :: e in elems ==> e < next
    }

    predicate ChildLinks() {
      forall e, c :: e in elems && c in elems[e].children ==> c in elems && elems[c].parent == Some(e)
    }

    predicate ParentLinks() {
      forall c :: c in elems && elems[c].parent.Some? ==>
        elems[c].parent.value in elems && c in elems[elems[c].parent.value].children
    }

    predicate ChildrenDistinct() {
      forall e :: e in elems ==> NoDup(elems[e].children)
    }

    predicate ParentsBelow() {
      forall c :: c in elems && elems[c].parent.Some? ==> elems[c].parent.value < c
    }
  }

  /** `document.createElement("div")` followed by `parentElem.appendChild(div)`. */
  function AppendNew(d: Doc, p: ElemId): (r: Doc)
    ensures r.elems.Keys == d.elems.Keys + {d.next}
  {
    var div := Element(FreshStyle, Some(p), [], []);
    var linked := if p in d.elems then d.elems[p := d.elems[p].(children := d.elems[p].children + [d.next])]
                  else d.elems;
    Doc(linked[d.next := div], d.next + 1)
  }

  /** `elem.parentNode.removeChild(elem)`: unlinks `e` from its parent; `e` itself stays in the store. */
  function RemoveChild(d: Doc, e: ElemId): (r: Doc)
    ensures r.elems.Keys == d.elems.Keys
  {
    if e in d.elems && d.elems[e].parent.Some? && d.elems[e].parent.value in d.elems then
      var p := d.elems[e].parent.value;
      var unlinked := d.elems[p := d.elems[p].(children := Without(d.elems[p].children, e))];
      Doc(unlinked[e := unlinked[e].(parent := None)], d.next)
    else d
  }

  /** Overwrite the style record of `e`. */
  function SetStyle(d: Doc, e: ElemId, s: Style): (r: Doc)
    ensures r.elems.Keys == d.elems.Keys
  {
    if e in d.elems then Doc(d.elems[e := d.elems[e].(style := s)], d.next) else d
  }

  /** `addEventListener(event, handler, false)`: appends to `e`'s listener log. */
  function AddListener(d: Doc, e: ElemId, l: Listener): (r: Doc)
    ensures r.elems.Keys == d.elems.Keys
  {
    if e in d.elems then Doc(d.elems[e := d.elems[e].(listeners := d.elems[e].listeners + [l])], d.next) else d
  }

  /** A created element is new, last among its parent's children, and linked back to it. */
  lemma AppendNewShape(d: Doc, p: ElemId)
    requires d.Valid() && p in d.elems
    ensures var r := AppendNew(d, p);
      && r.Valid()
      && d.next !in d.elems && r.next == d.next + 1
      && r.elems[d.next] == Element(FreshStyle, Some(p), [], [])
      && r.elems[p] == d.elems[p].(children := d.elems[p].children + [d.next])
      && (forall x :: x in d.elems && x != p ==> r.elems[x] == d.elems[x])
  {
    AppendNewValid(d, p);
  }

  lemma AppendNewValid(d: Doc, p: ElemId)
    requires d.Valid() && p in d.elems
    ensures AppendNew(d, p).Valid()
  {
    AppendNewLinks(d, p);
    AppendNewDistinct(d, p);
  }

  lemma AppendNewLinks(d: Doc, p: ElemId)
    requires d.IdsBelowNext() && d.ChildLinks() && d.ParentLinks() && d.ParentsBelow() && p in d.elems
    ensures var r := AppendNew(d, p); r.IdsBelowNext() && r.ChildLinks() && r.ParentLinks() && r.ParentsBelow()
  {
    AppendNewChildLinks(d, p);
    AppendNewParentLinks(d, p);
  }

  lemma AppendNewChildLinks(d: Doc, p: ElemId)
    requires d.IdsBelowNext() && d.ChildLinks() && p in d.elems
    ensures AppendNew(d, p).ChildLinks()
  {
    var r := AppendNew(d, p);
    var n := d.next;
    assert r.elems == d.elems[p := d.elems[p].(children := d.elems[p].children + [n])][n := Element(FreshStyle, Some(p), [], [])];
    forall x, c | x in r.elems && c in r.elems[x].children
      ensures c in r.elems && r.elems[c].parent == Some(x)
    {
      if x != p || c != n {
        assert c in d.elems[x].children;
      }
    }
  }

  lemma AppendNewParentLinks(d: Doc, p: ElemId)
    requires d.IdsBelowNext() && d.ParentLinks() && p in d.elems
    ensures AppendNew(d, p).ParentLinks()
  {
    var r := AppendNew(d, p);
    var n := d.next;
    assert r.elems == d.elems[p := d.elems[p].(children := d.elems[p].children + [n])][n := Element(FreshStyle, Some(p), [], [])];
    forall c | c in r.elems && r.elems[c].parent.Some?
      ensures r.elems[c].parent.value in r.elems && c in r.elems[r.elems[c].parent.value].children
    {
      if c != n {
        var q := d.elems[c].parent.value;
        assert c in d.elems[q].children;
      }
    }
  }

  lemma AppendNewDistinct(d: Doc, p: ElemId)
    requires d.IdsBelowNext() && d.ChildLinks() && d.ChildrenDistinct() && p in d.elems
    ensures AppendNew(d, p).ChildrenDistinct()
  {
    var r := AppendNew(d, p);
    var n := d.next;
    assert r.elems == d.elems[p := d.elems[p].(children := d.elems[p].children + [n])][n := Element(FreshStyle, Some(p), [], [])];
    forall x | x in r.elems ensures NoDup(r.elems[x].children) {
      if x == p {
        var s := d.elems[p].children + [n];
        assert forall c :: c in d.elems[p].children ==> c in d.elems;
        assert n !in d.elems[p].children;
        forall i, j | 0 <= i < j < |s| ensures s[i] != s[j] {
          if j < |s| - 1 { assert s[i] == d.elems[p].children[i] && s[j] == d.elems[p].children[j]; }
          else { assert s[i] in d.elems[p].children; }
        }
      } else {
        assert x == n || r.elems[x].children == d.elems[x].children;
      }
    }
  }

  /** Removing `e` takes exactly that one child out of its parent's list and clears its parent link. */
  lemma RemoveChildShape(d: Doc, e: ElemId)
    requires d.Valid() && e in d.elems && d.elems[e].parent.Some?
    ensures var p := d.elems[e].parent.value; var r := RemoveChild(d, e);
      && r.Valid()
      && r.next == d.next && r.elems.Keys == d.elems.Keys
      && e in d.elems[p].children && e !in r.elems[p].children
      && r.elems[p].children == Without(d.elems[p].children, e)
      && |r.elems[p].children| == |d.elems[p].children| - 1
      && r.elems[e] == d.elems[e].(parent := None)
      && (forall x :: x in d.elems && x != p && x != e ==> r.elems[x] == d.elems[x])
  {
    var p := d.elems[e].parent.value;
    WithoutNoDup(d.elems[p].children, e);
    RemoveChildValid(d, e);
  }

  lemma RemoveChildValid(d: Doc, e: ElemId)
    requires d.Valid() && e in d.elems && d.elems[e].parent.Some?
    ensures RemoveChild(d, e).Valid()
  {
    var p := d.elems[e].parent.value;
    WithoutNoDup(d.elems[p].children, e);
    RemoveChildLinks(d, e);
    RemoveChildDistinct(d, e);
  }

  lemma RemoveChildLinks(d: Doc, e: ElemId)
    requires d.IdsBelowNext() && d.ChildLinks() && d.ParentLinks() && d.ParentsBelow()
    requires e in d.elems && d.elems[e].parent.Some?
    ensures var r := RemoveChild(d, e); r.IdsBelowNext() && r.ChildLinks() && r.ParentLinks() && r.ParentsBelow()
  {
    RemoveChildChildLinks(d, e);
    RemoveChildParentLinks(d, e);
  }

  lemma RemoveChildChildLinks(d: Doc, e: ElemId)
    requires d.ChildLinks() && d.ParentsBelow() && e in d.elems && d.elems[e].parent.Some?
    ensures RemoveChild(d, e).ChildLinks()
  {
    var p := d.elems[e].parent.value;
    var r := RemoveChild(d, e);
    if p in d.elems {
      assert p != e;
      assert r.elems == d.elems[p := d.elems[p].(children := Without(d.elems[p].children, e))][e := d.elems[e].(parent := None)];
      forall x, c | x in r.elems && c in r.elems[x].children
        ensures c in r.elems && r.elems[c].parent == Some(x)
      {
        assert c in d.elems[x].children;
      }
    }
  }

  lemma RemoveChildParentLinks(d: Doc, e: ElemId)
    requires d.ChildLinks() && d.ParentLinks() && d.ParentsBelow() && e in d.elems && d.elems[e].parent.Some?
    ensures RemoveChild(d, e).ParentLinks()
  {
    var p := d.elems[e].parent.value;
    var r := RemoveChild(d, e);
    assert p in d.elems;
    assert p != e;
    assert r.elems == d.elems[p := d.elems[p].(children := Without(d.elems[p].children, e))][e := d.elems[e].(parent := None)];
    forall c | c in r.elems && r.elems[c].parent.Some?
      ensures r.elems[c].parent.value in r.elems && c in r.elems[r.elems[c].parent.value].children
    {
      assert c != e;
      var q := d.elems[c].parent.value;
      assert c in d.elems[q].children;
    }
  }

  lemma RemoveChildDistinct(d: Doc, e: ElemId)
    requires d.ChildrenDistinct() && d.ParentsBelow() && e in d.elems && d.elems[e].parent.Some?
    requires d.elems[e].parent.value in d.elems
    requires NoDup(Without(d.elems[d.elems[e].parent.value].children, e))
    ensures RemoveChild(d, e).ChildrenDistinct()
  {
    var p := d.elems[e].parent.value;
    var r := RemoveChild(d, e);
    assert p != e;
    assert r.elems == d.elems[p := d.elems[p].(children := Without(d.elems[p].children, e))][e := d.elems[e].(parent := None)];
    forall x | x in r.elems ensures NoDup(r.elems[x].children) {
      assert x == p || r.elems[x].children == d.elems[x].children;
    }
  }

  lemma SetStyleValid(d: Doc, e: ElemId, s: Style)
    requires d.Valid() && e in d.elems
    ensures var r := SetStyle(d, e, s);
      r.Valid() && r.elems[e].style == s && r.elems[e] == d.elems[e].(style := s)
      && r.elems.Keys == d.elems.Keys && r.next == d.next
      && forall x :: x in d.elems && x != e ==> r.elems[x] == d.elems[x]
  {
  }

  lemma AddListenerValid(d: Doc, e: ElemId, l: Listener)
    requires d.Valid() && e in d.elems
    ensures var r := AddListener(d, e, l);
      r.Valid() && r.elems[e].listeners == d.elems[e].listeners + [l]
      && r.elems[e] == d.elems[e].(listeners := d.elems[e].listeners + [l])
      && r.elems.Keys == d.elems.Keys && r.next == d.next
      && forall x :: x in d.elems && x != e ==> r.elems[x] == d.elems[x]
  {
  }
}
