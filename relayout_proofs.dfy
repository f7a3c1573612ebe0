/**
 * What `relayout` does: nothing on an unmounted widget; otherwise it writes only styles and
 * the geometry of widgets strictly below `w`, the widget's own style is its synced peer,
 * and every kid ends up with the bounds `onLayout` gave it and a style synced from them.
 */
module RelayoutProofs {
  import opened Wrappers
  import opened Dom
  import opened Widgets
  import opened PeerSpec

  /** Peers differ only in `pos` and `size`. */
  predicate GeomOnly(a: seq<Peer>, b: seq<Peer>) {
    |b| == |a| && forall v :: 0 <= v < |a| ==> b[v] == a[v].(pos := b[v].pos, size := b[v].size)
  }

  /** Same elements, links, listeners and `next`; only styles may differ. */
  predicate SameShape(a: Doc, b: Doc) {
    && b.next == a.next && b.elems.Keys == a.elems.Keys
    && forall x :: x in a.elems ==> b.elems[x] == a.elems[x].(style := b.elems[x].style)
  }

  /** No widget strictly below `w` holds element `x`. */
  predicate Untouched(t: Tree, peers: seq<Peer>, w: WId, x: ElemId)
    requires t.Valid() && |peers| == t.Count()
  {
    forall v :: 0 <= v < |peers| && v != w && t.Desc(w, v) ==> peers[v].elem != Some(x)
  }

  /** What one `relayout` step may change, from `a` to `b`, for the subtree of `w`. */
  predicate Framed(t: Tree, a: State, b: State, w: WId)
    requires t.Valid() && w < t.Count() && |a.peers| == t.Count()
  {
    && GeomOnly(a.peers, b.peers) && SameShape(a.doc, b.doc)
    && (forall v :: 0 <= v < |a.peers| && (v == w || !t.Desc(w, v)) ==> b.peers[v] == a.peers[v])
    && (forall x :: x in a.doc.elems && Untouched(t, a.peers, w, x) && a.peers[w].elem != Some(x) ==> b.doc.elems[x] == a.doc.elems[x])
  }

  /** `Framed`, except that `w`'s own element is kept too when no widget strictly below holds it. */
  predicate KidsFramed(t: Tree, a: State, b: State, w: WId)
    requires t.Valid() && w < t.Count() && |a.peers| == t.Count()
  {
    && GeomOnly(a.peers, b.peers) && SameShape(a.doc, b.doc)
    && (forall v :: 0 <= v < |a.peers| && (v == w || !t.Desc(w, v)) ==> b.peers[v] == a.peers[v])
    && (forall x :: x in a.doc.elems && Untouched(t, a.peers, w, x) ==> b.doc.elems[x] == a.doc.elems[x])
  }

  lemma GeomFits(t: Tree, a: State, b: State)
    requires Fits(t, a) && GeomOnly(a.peers, b.peers) && SameShape(a.doc, b.doc)
    ensures Fits(t, b)
    ensures Inv(t, a) ==> Inv(t, b)
    ensures DistinctHandles(a) ==> DistinctHandles(b)
  {
    assert forall v :: 0 <= v < |a.peers| ==> b.peers[v].elem == a.peers[v].elem;
    if a.doc.Valid() {
      assert forall x :: x in a.doc.elems ==> b.doc.elems[x].parent == a.doc.elems[x].parent && b.doc.elems[x].children == a.doc.elems[x].children;
    }
  }

  lemma ShapeTrans(a: Doc, b: Doc, c: Doc)
    requires SameShape(a, b) && SameShape(b, c)
    ensures SameShape(a, c)
  {
  }

  lemma GeomTrans(a: seq<Peer>, b: seq<Peer>, c: seq<Peer>)
    requires GeomOnly(a, b) && GeomOnly(b, c)
    ensures GeomOnly(a, c)
  {
  }

  /** The steps `relayout(w)` takes before its kid loop: sync, then `onLayout`. */
  lemma SyncLaid(t: Tree, layout: LayoutFn, st: State, w: WId) returns (laid: State)
    requires Fits(t, st) && w < t.Count() && st.peers[w].elem.Some?
    ensures laid == SyncF(st, w, None, None).(peers := Laid(t, st.peers, w, layout(w, st.peers)))
    ensures RelayoutF(t, layout, st, w) == RelayoutKidsF(t, layout, laid, w, |t.kids[w]|)
    ensures Fits(t, laid) && Framed(t, st, laid, w)
    ensures forall v :: 0 <= v < |st.peers| ==> laid.peers[v] == Placed(t, st.peers[v], v, w, layout(w, st.peers))
    ensures laid.doc == SetStyle(st.doc, st.peers[w].elem.value, SyncStyle(st.peers[w], None, None))
  {
    var e := st.peers[w].elem.value;
    var upd := layout(w, st.peers);
    laid := SyncF(st, w, None, None).(peers := Laid(t, st.peers, w, upd));
    forall v | 0 <= v < |st.peers| {
      LaidAt(t, st.peers, w, upd, v);
    }
    StyleShape(st.doc, e, SyncStyle(st.peers[w], None, None));
  }

  /** `SetStyle` keeps the shape and every other element. */
  lemma StyleShape(d: Doc, e: ElemId, s: Style)
    requires e in d.elems
    ensures SameShape(d, SetStyle(d, e, s))
    ensures SetStyle(d, e, s).elems[e].style == s
    ensures forall x :: x in d.elems && x != e ==> SetStyle(d, e, s).elems[x] == d.elems[x]
  {
  }

  /** `relayout(w)` changes geometry only strictly below `w`, styles only of the subtree's elements, and nothing else. */
  lemma {:induction false} RelayoutFrame(t: Tree, layout: LayoutFn, st: State, w: WId)
    requires Fits(t, st) && w < t.Count()
    ensures Fits(t, RelayoutF(t, layout, st, w)) && Framed(t, st, RelayoutF(t, layout, st, w), w)
    decreases t.Count() - w, 1, 0
  {
    if st.peers[w].elem.Some? {
      var laid := SyncLaid(t, layout, st, w);
      RelayoutKidsFrame(t, layout, laid, w, |t.kids[w]|);
      var r := RelayoutF(t, layout, st, w);
      FrameCompose(t, st, laid, r, w);
    }
  }

  lemma FrameCompose(t: Tree, st: State, laid: State, r: State, w: WId)
    requires Fits(t, st) && w < t.Count() && Fits(t, laid)
    requires Framed(t, st, laid, w) && KidsFramed(t, laid, r, w) && Fits(t, r)
    ensures Framed(t, st, r, w)
  {
    GeomTrans(st.peers, laid.peers, r.peers);
    ShapeTrans(st.doc, laid.doc, r.doc);
    forall x | x in st.doc.elems && Untouched(t, st.peers, w, x) && st.peers[w].elem != Some(x)
      ensures r.doc.elems[x] == st.doc.elems[x]
    {
      assert Untouched(t, laid.peers, w, x);
    }
  }

  /** The first `i` kid relayouts of `w` change geometry and styles only strictly below `w`. */
  lemma {:induction false} RelayoutKidsFrame(t: Tree, layout: LayoutFn, st: State, w: WId, i: nat)
    requires Fits(t, st) && w < t.Count() && i <= |t.kids[w]|
    ensures Fits(t, RelayoutKidsF(t, layout, st, w, i)) && KidsFramed(t, st, RelayoutKidsF(t, layout, st, w, i), w)
    decreases t.Count() - w, 0, i
  {
    if i > 0 {
      RelayoutKidsFrame(t, layout, st, w, i - 1);
      var s := RelayoutKidsF(t, layout, st, w, i - 1);
      var k := t.kids[w][i - 1];
      assert w < k < t.Count() && t.parent[k] == Some(w);
      RelayoutFrame(t, layout, s, k);
      KidFrameCompose(t, st, s, RelayoutF(t, layout, s, k), w, i);
    }
  }

  lemma KidFrameCompose(t: Tree, st: State, s: State, r: State, w: WId, i: nat)
    requires Fits(t, st) && w < t.Count() && 0 < i <= |t.kids[w]| && Fits(t, s)
    requires KidsFramed(t, st, s, w) && Framed(t, s, r, t.kids[w][i - 1]) && Fits(t, r)
    ensures KidsFramed(t, st, r, w)
  {
    var k := t.kids[w][i - 1];
    GeomTrans(st.peers, s.peers, r.peers);
    ShapeTrans(st.doc, s.doc, r.doc);
    forall v | 0 <= v < |st.peers| && (v == w || !t.Desc(w, v))
      ensures r.peers[v] == st.peers[v]
    {
      if v != k && t.Desc(k, v) {
        KidBelow(t, w, i - 1, v);
      }
    }
    forall x | x in st.doc.elems && Untouched(t, st.peers, w, x)
      ensures r.doc.elems[x] == s.doc.elems[x]
    {
      assert t.Desc(w, k) && k != w;
      forall v | 0 <= v < |s.peers| && v != k && t.Desc(k, v)
        ensures s.peers[v].elem != Some(x)
      {
        KidBelow(t, w, i - 1, v);
      }
    }
  }

  /** After `relayout(w)` on a mounted widget, its own style is its synced peer, and its peer is unchanged. */
  lemma RelayoutOwn(t: Tree, layout: LayoutFn, st: State, w: WId)
    requires Fits(t, st) && DistinctHandles(st) && w < t.Count() && st.peers[w].elem.Some?
    ensures var r := RelayoutF(t, layout, st, w);
      && Fits(t, r) && r.peers[w] == st.peers[w]
      && r.doc.elems[st.peers[w].elem.value].style == SyncStyle(st.peers[w], None, None)
  {
    var e := st.peers[w].elem.value;
    var laid := SyncLaid(t, layout, st, w);
    RelayoutKidsFrame(t, layout, laid, w, |t.kids[w]|);
    assert Untouched(t, laid.peers, w, e);
    RelayoutFrame(t, layout, st, w);
  }

  /** A kid of `w` keeps its peer while the other kids are relayout. */
  lemma {:induction false} KidPeerStays(t: Tree, layout: LayoutFn, st: State, w: WId, j: nat, k: WId)
    requires Fits(t, st) && w < t.Count() && j <= |t.kids[w]| && k < t.Count() && t.parent[k] == Some(w)
    ensures RelayoutKidsF(t, layout, st, w, j).peers[k] == st.peers[k]
    decreases j
  {
    if j > 0 {
      KidPeerStays(t, layout, st, w, j - 1, k);
      var s := RelayoutKidsF(t, layout, st, w, j - 1);
      var c := t.kids[w][j - 1];
      assert w < c && t.parent[c] == Some(w);
      RelayoutKidsFrame(t, layout, st, w, j - 1);
      RelayoutFrame(t, layout, s, c);
      if c != k && t.Desc(c, k) {
        assert t.Desc(c, w);
        DescBelow(t, c, w);
      }
    }
  }

  /**
   * Once kid `kids[w][i]` has been relayout with peer `p`, the later kids leave its peer and
   * the style of its element as they are.
   */
  lemma {:induction false} KidStays(t: Tree, layout: LayoutFn, st: State, w: WId, i: nat, j: nat)
    requires Fits(t, st) && DistinctHandles(st) && w < t.Count() && i < j <= |t.kids[w]|
    ensures var k := t.kids[w][i]; var s := RelayoutKidsF(t, layout, st, w, j);
      && Fits(t, s) && s.peers[k] == st.peers[k]
      && (st.peers[k].elem.Some? ==> s.doc.elems[st.peers[k].elem.value].style == SyncStyle(st.peers[k], None, None))
    decreases j
  {
    var k := t.kids[w][i];
    assert w < k < t.Count() && t.parent[k] == Some(w);
    RelayoutKidsFrame(t, layout, st, w, j - 1);
    var s := RelayoutKidsF(t, layout, st, w, j - 1);
    GeomFits(t, st, s);
    var c := t.kids[w][j - 1];
    assert w < c < t.Count() && t.parent[c] == Some(w);
    if j - 1 == i {
      KidPeerStays(t, layout, st, w, j - 1, k);
    } else {
      KidStays(t, layout, st, w, i, j - 1);
    }
    LaterKidKeeps(t, layout, s, c, k, st.peers[k]);
  }

  /**
   * Relayout of kid `c` keeps the peer `p` of kid `k` and, when `k` is mounted and its element
   * was synced from `p` (or `c` is `k` itself), that synced style.
   */
  lemma LaterKidKeeps(t: Tree, layout: LayoutFn, s: State, c: WId, k: WId, p: Peer)
    requires Fits(t, s) && DistinctHandles(s) && c < t.Count() && k < t.Count()
    requires t.parent[c].Some? && t.parent[k] == t.parent[c] && s.peers[k] == p
    requires c == k || p.elem.None? || s.doc.elems[p.elem.value].style == SyncStyle(p, None, None)
    ensures var r := RelayoutF(t, layout, s, c);
      && Fits(t, r) && r.peers[k] == p
      && (p.elem.Some? ==> r.doc.elems[p.elem.value].style == SyncStyle(p, None, None))
  {
    RelayoutFrame(t, layout, s, c);
    GeomFits(t, s, RelayoutF(t, layout, s, c));
    if c == k {
      if p.elem.Some? {
        RelayoutOwn(t, layout, s, k);
      }
    } else {
      SiblingKeeps(t, layout, s, c, k);
    }
  }

  /** Relayout of a widget `c` leaves a sibling `k` and, when it is mounted, its element as they are. */
  lemma SiblingKeeps(t: Tree, layout: LayoutFn, s: State, c: WId, k: WId)
    requires Fits(t, s) && DistinctHandles(s) && c < t.Count() && k < t.Count() && c != k
    requires t.parent[c].Some? && t.parent[k] == t.parent[c]
    requires Fits(t, RelayoutF(t, layout, s, c)) && Framed(t, s, RelayoutF(t, layout, s, c), c)
    ensures var r := RelayoutF(t, layout, s, c);
      && r.peers[k] == s.peers[k]
      && (s.peers[k].elem.Some? ==> r.doc.elems[s.peers[k].elem.value] == s.doc.elems[s.peers[k].elem.value])
  {
    var w := t.parent[c].value;
    if t.Desc(c, k) {
      SiblingsDisjoint(t, w, c, k, k);
      assert false;
    }
    if s.peers[k].elem.Some? {
      var x := s.peers[k].elem.value;
      assert Untouched(t, s.peers, c, x);
    }
  }

  //////////////////////////////////////////////////////////////////////////
  // What `relayout` promises
  //////////////////////////////////////////////////////////////////////////

  /**
   * `relayout(w)`: nothing changes when `w` is not mounted. Otherwise only the geometry of
   * widgets strictly below `w` and the styles of elements held in `w`'s subtree change; the
   * document keeps its shape; `w`'s own style is synced from its peer; and every kid ends
   * with the bounds `onLayout` (run on the synced peers) gave it, its element synced from them.
   */
  lemma RelayoutSpec(t: Tree, layout: LayoutFn, st: State, w: WId)
    requires Fits(t, st) && DistinctHandles(st) && w < t.Count()
    ensures st.peers[w].elem.None? ==> RelayoutF(t, layout, st, w) == st
    ensures var r := RelayoutF(t, layout, st, w);
      && Fits(t, r) && DistinctHandles(r) && (Inv(t, st) ==> Inv(t, r))
      && Framed(t, st, r, w)
    ensures st.peers[w].elem.Some? ==>
      var r := RelayoutF(t, layout, st, w);
      && r.peers[w] == st.peers[w]
      && r.doc.elems[st.peers[w].elem.value].style == SyncStyle(st.peers[w], None, None)
  {
    RelayoutFrame(t, layout, st, w);
    GeomFits(t, st, RelayoutF(t, layout, st, w));
    if st.peers[w].elem.Some? {
      RelayoutOwn(t, layout, st, w);
    }
  }

  /**
   * The `i`-th kid of a mounted `w` after `relayout(w)`: its peer carries the bounds `onLayout`
   * gave it (when it named the kid), and, when the kid is mounted, its element's style is
   * synced from that peer: left and top are the new position, width and height the new size
   * clamped at 0, display follows `visible`.
   */
  lemma RelayoutKid(t: Tree, layout: LayoutFn, st: State, w: WId, i: nat)
    requires Fits(t, st) && DistinctHandles(st) && w < t.Count() && st.peers[w].elem.Some? && i < |t.kids[w]|
    ensures Fits(t, RelayoutF(t, layout, st, w))
    ensures var k := t.kids[w][i]; var upd := layout(w, st.peers); var r := RelayoutF(t, layout, st, w);
      && r.peers[k] == Placed(t, st.peers[k], k, w, upd)
      && (k in upd ==> r.peers[k].pos == upd[k].pos && r.peers[k].size == upd[k].size)
      && (st.peers[k].elem.Some? ==> r.doc.elems[st.peers[k].elem.value].style == SyncStyle(r.peers[k], None, None))
  {
    var k := t.kids[w][i];
    assert w < k < t.Count() && t.parent[k] == Some(w);
    RelayoutFrame(t, layout, st, w);
    var laid := SyncLaid(t, layout, st, w);
    GeomFits(t, st, laid);
    KidStays(t, layout, laid, w, i, |t.kids[w]|);
  }
}
