/**
 * `fan.fwt.WidgetPeer`: the peers of one widget tree and the document they render into.
 * Each method takes the widget it acts for (the source's `self`) and changes the fields of
 * that widget's peer, the fields of the peers below it, and the document, in place.
 */
module WidgetPeer {
  import opened Wrappers
  import opened Geometry
  import opened Dom
  import opened Widgets
  import opened PeerSpec

  class Peers {
    const tree: Tree
    /** The fields of each widget's peer, indexed by widget. */
    var peers: seq<Peer>
    /** The document the elements live in. */
    var doc: Doc

    /** One peer per widget and only live handles; the document's own link invariant is proved of the operations in AttachProofs. */
    ghost predicate Valid()
      reads this
    {
      Fits(tree, State(peers, doc))
    }

    function Snapshot(): State
      reads this
    {
      State(peers, doc)
    }

    /** One fresh, unmounted peer per widget of `tree`, rendering into `doc`. */
    constructor (tree: Tree, doc: Doc)
      requires tree.Valid()
      ensures Valid() && this.tree == tree && this.doc == doc
      ensures |peers| == tree.Count() && forall v :: 0 <= v < |peers| ==> peers[v] == DefaultPeer
    {
      this.tree := tree;
      this.doc := doc;
      this.peers := seq(tree.Count(), _ => DefaultPeer);
    }

    //////////////////////////////////////////////////////////////////////////
    // Layout
    //////////////////////////////////////////////////////////////////////////

    method Relayout(w: WId, onLayout: LayoutFn)
      requires Valid() && w < tree.Count()
      modifies this
      ensures Valid()
      ensures Snapshot() == RelayoutF(tree, onLayout, old(Snapshot()), w)
      decreases tree.Count() - w
    {
      // an unmounted widget has nothing to lay out
      if peers[w].elem.None? {
        return;
      }
      ghost var st0 := Snapshot();
      Sync(w, None, None);
      ghost var synced := Snapshot();
      OnLayout(w, onLayout);
      ghost var laid := Snapshot();
      ghost var target := RelayoutKidsF(tree, onLayout, laid, w, |tree.kids[w]|);
      assert RelayoutF(tree, onLayout, st0, w) == target;
      var kids := tree.kids[w];
      for i := 0 to |kids|
        invariant Valid()
        invariant Snapshot() == RelayoutKidsF(tree, onLayout, laid, w, i)
      {
        assert w < kids[i] < tree.Count();
        assert RelayoutKidsF(tree, onLayout, laid, w, i + 1) == RelayoutF(tree, onLayout, RelayoutKidsF(tree, onLayout, laid, w, i), kids[i]);
        Relayout(kids[i], onLayout);
      }
      assert Snapshot() == target;
    }

    /** `self.onLayout()`: the callback sets the bounds of some of `w`'s kids. */
    method OnLayout(w: WId, onLayout: LayoutFn)
      requires Valid() && w < tree.Count()
      modifies this
      ensures Valid()
      ensures Snapshot() == old(Snapshot()).(peers := Laid(tree, old(peers), w, onLayout(w, old(peers))))
    {
      LaidInv(tree, Snapshot(), w, onLayout(w, peers));
      peers := Laid(tree, peers, w, onLayout(w, peers));
    }

    /** Sums `pos` up the parent chain; changes nothing. */
    method PosOnDisplay(w: WId) returns (p: Point)
      requires Valid() && w < tree.Count()
      ensures p == AbsPos(tree, peers, w)
    {
      var x := peers[w].pos.x;
      var y := peers[w].pos.y;
      var q: Option<WId> := tree.parent[w];
      while q.Some?
        invariant q.Some? ==> q.value < tree.Count() && Add(Point(x, y), AbsPos(tree, peers, q.value)) == AbsPos(tree, peers, w)
        invariant q.None? ==> Point(x, y) == AbsPos(tree, peers, w)
        decreases if q.Some? then q.value + 1 else 0
      {
        x := x + peers[q.value].pos.x;
        y := y + peers[q.value].pos.y;
        q := tree.parent[q.value];
      }
      p := Point(x, y);
    }

    /** Measures `w`'s element with width and height "auto" and then puts them back as they were. */
    method PrefSize(w: WId, hints: Size, measure: (Doc, ElemId) -> Size) returns (pref: Size)
      requires Valid() && w < tree.Count() && peers[w].elem.Some?
      modifies this
      ensures Valid()
      ensures (Snapshot(), pref) == PrefSizeF(old(Snapshot()), w, measure)
    {
      var e := peers[w].elem.value;
      var oldw := doc.elems[e].style.width;
      var oldh := doc.elems[e].style.height;
      ghost var d0 := doc;
      ghost var synced := SyncStyle(peers[w], None, None);

      Sync(w, None, None);
      SetStyleWidth(e, Auto);
      SetStyleHeight(e, Auto);
      SetStyleTwice(d0, e, synced, synced.(width := Auto));
      SetStyleTwice(d0, e, synced.(width := Auto), synced.(width := Auto, height := Auto));
      pref := measure(doc, e);

      SetStyleWidth(e, oldw);
      SetStyleHeight(e, oldh);
      SetStyleTwice(d0, e, synced.(width := Auto, height := Auto), synced.(width := oldw, height := Auto));
      SetStyleTwice(d0, e, synced.(width := oldw, height := Auto), synced.(width := oldw, height := oldh));
    }

    /** `elem.style.width = val` */
    method SetStyleWidth(e: ElemId, val: Length)
      requires Valid() && e in doc.elems
      modifies this
      ensures Valid() && peers == old(peers) && e in doc.elems
      ensures doc == SetStyle(old(doc), e, old(doc).elems[e].style.(width := val))
    {
      doc := SetStyle(doc, e, doc.elems[e].style.(width := val));
    }

    /** `elem.style.height = val` */
    method SetStyleHeight(e: ElemId, val: Length)
      requires Valid() && e in doc.elems
      modifies this
      ensures Valid() && peers == old(peers) && e in doc.elems
      ensures doc == SetStyle(old(doc), e, old(doc).elems[e].style.(height := val))
    {
      doc := SetStyle(doc, e, doc.elems[e].style.(height := val));
    }

    //////////////////////////////////////////////////////////////////////////
    // Properties: each setter assigns one field and nothing else; the getter is the field.
    //////////////////////////////////////////////////////////////////////////

    method SetEnabled(w: WId, val: bool)
      requires Valid() && w < tree.Count()
      modifies this
      ensures Valid() && doc == old(doc) && peers == old(peers)[w := old(peers)[w].(enabled := val)]
    {
      peers := peers[w := peers[w].(enabled := val)];
    }

    method SetVisible(w: WId, val: bool)
      requires Valid() && w < tree.Count()
      modifies this
      ensures Valid() && doc == old(doc) && peers == old(peers)[w := old(peers)[w].(visible := val)]
    {
      peers := peers[w := peers[w].(visible := val)];
    }

    method SetPos(w: WId, val: Point)
      requires Valid() && w < tree.Count()
      modifies this
      ensures Valid() && doc == old(doc) && peers == old(peers)[w := old(peers)[w].(pos := val)]
    {
      peers := peers[w := peers[w].(pos := val)];
    }

    method SetSize(w: WId, val: Size)
      requires Valid() && w < tree.Count()
      modifies this
      ensures Valid() && doc == old(doc) && peers == old(peers)[w := old(peers)[w].(size := val)]
    {
      peers := peers[w := peers[w].(size := val)];
    }

    //////////////////////////////////////////////////////////////////////////
    // Attach
    //////////////////////////////////////////////////////////////////////////

    method Attach(w: WId)
      requires Valid() && w < tree.Count()
      modifies this
      ensures Valid()
      ensures Snapshot() == AttachF(tree, old(Snapshot()), w)
      decreases tree.Count() - w, 2
    {
      // already attached
      if peers[w].elem.Some? {
        return;
      }
      // parent missing or not attached
      var parent := tree.parent[w];
      if parent.None? || peers[parent.value].elem.None? {
        return;
      }
      var e := Create(peers[parent.value].elem.value);
      AttachTo(w, e);
    }

    method AttachTo(w: WId, e: ElemId)
      requires Valid() && w < tree.Count() && e in doc.elems
      modifies this
      ensures Valid()
      ensures Snapshot() == AttachToF(tree, old(Snapshot()), w, e)
      decreases tree.Count() - w, 1
    {
      peers := peers[w := peers[w].(elem := Some(e))];
      Sync(w, None, None);
      AttachEvents(e, MouseDown, tree.onMouseDown[w]);

      ghost var listening := Snapshot();
      var kids := tree.kids[w];
      for i := 0 to |kids|
        invariant Valid()
        invariant Snapshot() == AttachKidsF(tree, listening, w, i)
      {
        Attach(kids[i]);
      }
    }

    /** Registers each handler of `list` on `e` for `event`, in list order. */
    method AttachEvents(e: ElemId, event: string, list: seq<Handler>)
      requires Valid() && e in doc.elems
      modifies this
      ensures Valid() && peers == old(peers)
      ensures doc == AddListeners(old(doc), e, event, list)
    {
      AddListenersStep(doc, e, event, [], 0);
      for i := 0 to |list|
        invariant Valid() && peers == old(peers) && e in doc.elems
        invariant doc == AddListeners(old(doc), e, event, list[..i])
      {
        assert list[..i + 1] == list[..i] + [list[i]];
        AddListenersStep(old(doc), e, event, list[..i], list[i]);
        doc := AddListener(doc, e, Listener(event, list[i]));
      }
      assert list[..|list|] == list;
    }

    /** A new div appended as the last child of `parentElem`. */
    method Create(parentElem: ElemId) returns (e: ElemId)
      requires Valid() && parentElem in doc.elems
      modifies this
      ensures Valid() && peers == old(peers)
      ensures e == old(doc).next && e in doc.elems
      ensures doc == AppendNew(old(doc), parentElem)
    {
      e := doc.next;
      doc := AppendNew(doc, parentElem);
    }

    /** Unlinks `w`'s element from its parent element and clears `w`'s handle, and only that. */
    method Detach(w: WId)
      requires Valid() && w < tree.Count() && peers[w].elem.Some?
      requires doc.elems[peers[w].elem.value].parent.Some?
      modifies this
      ensures Valid()
      ensures Snapshot() == DetachF(old(Snapshot()), w)
    {
      var e := peers[w].elem.value;
      doc := RemoveChild(doc, e);
      peers := peers[w := peers[w].(elem := None)];
    }

    //////////////////////////////////////////////////////////////////////////
    // Widget/Element synchronization
    //////////////////////////////////////////////////////////////////////////

    method Sync(w: WId, ow: Option<int>, oh: Option<int>)
      requires Valid() && w < tree.Count() && peers[w].elem.Some?
      modifies this
      ensures Valid()
      ensures Snapshot() == SyncF(old(Snapshot()), w, ow, oh)
    {
      var e := peers[w].elem.value;
      doc := SetStyle(doc, e, SyncStyle(peers[w], ow, oh));
    }
  }
}
