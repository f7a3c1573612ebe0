/**
 * What `sync`, `prefSize`, `detach`, `posOnDisplay` and the property setters promise,
 * stated over the functions of PeerSpec.
 */
module PeerProofs {
  import opened Wrappers
  import opened Geometry
  import opened Dom
  import opened Widgets
  import opened PeerSpec
  import opened AttachProofs

  //////////////////////////////////////////////////////////////////////////
  // sync
  //////////////////////////////////////////////////////////////////////////

  /** `sync` rewrites the style of `w`'s element from its peer and touches nothing else. */
  lemma SyncSpec(t: Tree, st: State, w: WId, ow: Option<int>, oh: Option<int>)
    requires Fits(t, st) && w < t.Count() && st.peers[w].elem.Some?
    ensures var r := SyncF(st, w, ow, oh); var e := st.peers[w].elem.value;
      && Fits(t, r) && (Inv(t, st) ==> Inv(t, r)) && (DistinctHandles(st) ==> DistinctHandles(r))
      && r.peers == st.peers && r.doc.next == st.doc.next && r.doc.elems.Keys == st.doc.elems.Keys
      && r.doc.elems[e] == st.doc.elems[e].(style := SyncStyle(st.peers[w], ow, oh))
      && (forall x :: x in st.doc.elems && x != e ==> r.doc.elems[x] == st.doc.elems[x])
  {
    var e := st.peers[w].elem.value;
    var sty := SyncStyle(st.peers[w], ow, oh);
    assert SyncF(st, w, ow, oh) == st.(doc := SetStyle(st.doc, e, sty));
    if st.doc.Valid() {
      SetStyleValid(st.doc, e, sty);
    }
  }

  /** Only the last of two `sync` calls shows: each one overwrites the whole style it writes. */
  lemma SyncTwice(st: State, w: WId, ow1: Option<int>, oh1: Option<int>, ow2: Option<int>, oh2: Option<int>)
    ensures SyncF(SyncF(st, w, ow1, oh1), w, ow2, oh2) == SyncF(st, w, ow2, oh2)
  {
    if w < |st.peers| && st.peers[w].elem.Some? {
      var e := st.peers[w].elem.value;
      SetStyleTwice(st.doc, e, SyncStyle(st.peers[w], ow1, oh1), SyncStyle(st.peers[w], ow2, oh2));
    }
  }

  /** A second `sync` with the same overrides changes nothing. */
  lemma SyncIdempotent(st: State, w: WId, ow: Option<int>, oh: Option<int>)
    ensures SyncF(SyncF(st, w, ow, oh), w, ow, oh) == SyncF(st, w, ow, oh)
  {
    SyncTwice(st, w, ow, oh, ow, oh);
  }

  //////////////////////////////////////////////////////////////////////////
  // prefSize
  //////////////////////////////////////////////////////////////////////////

  /**
   * `prefSize`: the size returned is the measure of the element synced with width and height
   * "auto"; afterwards the element shows the synced display, left and top, but the width and
   * height it had before the call; no peer and no other element changes.
   */
  lemma PrefSizeSpec(t: Tree, st: State, w: WId, measure: (Doc, ElemId) -> Size)
    requires Fits(t, st) && w < t.Count() && st.peers[w].elem.Some?
    ensures var e := st.peers[w].elem.value; var before := st.doc.elems[e].style;
      var synced := SyncStyle(st.peers[w], None, None); var res := PrefSizeF(st, w, measure); var r := res.0;
      && r.peers == st.peers && Fits(t, r) && (Inv(t, st) ==> Inv(t, r)) && (DistinctHandles(st) ==> DistinctHandles(r))
      && r.doc.next == st.doc.next && r.doc.elems.Keys == st.doc.elems.Keys
      && r.doc.elems[e] == st.doc.elems[e].(style := Style(synced.display, synced.left, synced.top, before.width, before.height))
      && (forall x :: x in st.doc.elems && x != e ==> r.doc.elems[x] == st.doc.elems[x])
      && res.1 == measure(SetStyle(st.doc, e, synced.(width := Auto, height := Auto)), e)
  {
    var e := st.peers[w].elem.value;
    var before := st.doc.elems[e].style;
    var kept := SyncStyle(st.peers[w], None, None).(width := before.width, height := before.height);
    var r := PrefSizeF(st, w, measure).0;
    assert r == st.(doc := SetStyle(st.doc, e, kept));
    if st.doc.Valid() {
      SetStyleValid(st.doc, e, kept);
    }
  }

  /** Asking twice gives the same size and leaves the same state as asking once. */
  lemma PrefSizeTwice(st: State, w: WId, measure: (Doc, ElemId) -> Size)
    requires w < |st.peers| && st.peers[w].elem.Some? && st.peers[w].elem.value in st.doc.elems
    ensures var res := PrefSizeF(st, w, measure); PrefSizeF(res.0, w, measure) == res
  {
    var e := st.peers[w].elem.value;
    var before := st.doc.elems[e].style;
    var synced := SyncStyle(st.peers[w], None, None);
    var kept := synced.(width := before.width, height := before.height);
    var r := PrefSizeF(st, w, measure).0;
    assert r.doc == SetStyle(st.doc, e, kept);
    assert r.doc.elems[e].style == kept;
    SetStyleTwice(st.doc, e, kept, synced.(width := Auto, height := Auto));
    SetStyleTwice(st.doc, e, kept, kept);
  }

  /** On an element already synced from its peer (as `relayout` leaves it), `prefSize` changes nothing. */
  lemma PrefSizeSynced(st: State, w: WId, measure: (Doc, ElemId) -> Size)
    requires w < |st.peers| && st.peers[w].elem.Some? && st.peers[w].elem.value in st.doc.elems
    requires st.doc.elems[st.peers[w].elem.value].style == SyncStyle(st.peers[w], None, None)
    ensures PrefSizeF(st, w, measure).0 == st
  {
    var e := st.peers[w].elem.value;
    assert st.doc.elems[e := st.doc.elems[e].(style := st.doc.elems[e].style)] == st.doc.elems;
  }

  //////////////////////////////////////////////////////////////////////////
  // detach
  //////////////////////////////////////////////////////////////////////////

  /**
   * `detach`: `w`'s element leaves its parent's child list (and only it), loses its parent
   * link and stays in the document with its own children; `w`'s handle is cleared and every
   * other peer, including those below `w`, keeps its handle. The invariants survive.
   */
  lemma DetachSpec(t: Tree, st: State, w: WId)
    requires Good(t, st) && w < t.Count() && st.peers[w].elem.Some?
    requires st.doc.elems[st.peers[w].elem.value].parent.Some?
    ensures var r := DetachF(st, w); var e := st.peers[w].elem.value; var p := st.doc.elems[e].parent.value;
      && Good(t, r)
      && r.peers[w] == st.peers[w].(elem := None)
      && (forall v :: 0 <= v < t.Count() && v != w ==> r.peers[v] == st.peers[v])
      && r.doc.next == st.doc.next && r.doc.elems.Keys == st.doc.elems.Keys
      && p in st.doc.elems && e in st.doc.elems[p].children
      && r.doc.elems[p].children == Without(st.doc.elems[p].children, e)
      && |r.doc.elems[p].children| == |st.doc.elems[p].children| - 1
      && r.doc.elems[e] == st.doc.elems[e].(parent := None)
      && (forall x :: x in st.doc.elems && x != p && x != e ==> r.doc.elems[x] == st.doc.elems[x])
  {
    var e := st.peers[w].elem.value;
    RemoveChildShape(st.doc, e);
    var r := DetachF(st, w);
    forall v | 0 <= v < |r.peers| && r.peers[v].elem.Some?
      ensures r.peers[v].elem.value in r.doc.elems
    {
      assert r.peers[v] == st.peers[v];
    }
  }

  /**
   * Detaching `w` and attaching it again mounts `w` on a new element, but `detach` left the
   * peers below `w` mounted, so `attach` does not visit them again: every widget other than
   * `w` that was mounted keeps its peer and its handle, which still names an element under
   * the one `w` was detached from rather than under `w`'s new element.
   */
  lemma DetachThenAttach(t: Tree, st: State, w: WId)
    requires Good(t, st) && t.Listed() && w < t.Count() && st.peers[w].elem.Some?
    requires st.doc.elems[st.peers[w].elem.value].parent.Some?
    requires t.parent[w].Some? && st.peers[t.parent[w].value].elem.Some?
    ensures var r := AttachF(t, DetachF(st, w), w);
      && r.peers[w].elem == Some(st.doc.next) && r.peers[w].elem != st.peers[w].elem
      && (forall v :: 0 <= v < t.Count() && v != w && st.peers[v].elem.Some? ==> r.peers[v] == st.peers[v])
  {
    DetachSpec(t, st, w);
    var d := DetachF(st, w);
    AttachSpec(t, d, w);
    assert st.peers[w].elem.value in st.doc.elems;
  }

  //////////////////////////////////////////////////////////////////////////
  // posOnDisplay
  //////////////////////////////////////////////////////////////////////////

  /** The sum of the positions of the widgets `ws`. */
  function SumPos(peers: seq<Peer>, ws: seq<WId>): Point
    requires forall i :: 0 <= i < |ws| ==> ws[i] < |peers|
  {
    if ws == [] then Origin else Add(peers[ws[0]].pos, SumPos(peers, ws[1..]))
  }

  /** `posOnDisplay` is the widget's own position plus the position of every ancestor. */
  lemma {:induction false} AbsPosAncestors(t: Tree, peers: seq<Peer>, w: WId)
    requires t.Valid() && |peers| == t.Count() && w < t.Count()
    ensures AbsPos(t, peers, w) == Add(peers[w].pos, SumPos(peers, t.Ancestors(w)))
    decreases w
  {
    if t.parent[w].Some? {
      var p := t.parent[w].value;
      AbsPosAncestors(t, peers, p);
      assert t.Ancestors(w)[1..] == t.Ancestors(p);
    }
  }

  /**
   * Moving widget `a` by setting its `pos` moves the display position of `a` and of every
   * widget below it by the same offset, and no other widget's.
   */
  lemma {:induction false} AbsPosMove(t: Tree, peers: seq<Peer>, a: WId, p: Point, v: WId)
    requires t.Valid() && |peers| == t.Count() && a < t.Count() && v < t.Count()
    ensures var moved := peers[a := peers[a].(pos := p)];
      AbsPos(t, moved, v) ==
        if t.Desc(a, v) then Add(AbsPos(t, peers, v), Point(p.x - peers[a].pos.x, p.y - peers[a].pos.y))
        else AbsPos(t, peers, v)
    decreases v
  {
    if t.parent[v].Some? {
      var u := t.parent[v].value;
      AbsPosMove(t, peers, a, p, u);
      if v == a && t.Desc(a, u) {
        DescBelow(t, a, u);
      }
    }
  }

  //////////////////////////////////////////////////////////////////////////
  // Property setters
  //////////////////////////////////////////////////////////////////////////

  /**
   * The setters change a peer's widget fields only, never its handle, so the invariants hold
   * after them; the document shows the new values at the next `sync`, and only then.
   */
  lemma SetFieldsKeep(t: Tree, st: State, w: WId, q: Peer)
    requires Good(t, st) && w < t.Count() && q.elem == st.peers[w].elem
    ensures var r := st.(peers := st.peers[w := q]);
      && Good(t, r) && r.doc == st.doc
      && (q.elem.Some? ==> SyncF(r, w, None, None).doc.elems[q.elem.value].style == SyncStyle(q, None, None))
  {
    var r := st.(peers := st.peers[w := q]);
    assert forall v :: 0 <= v < |r.peers| ==> r.peers[v].elem == st.peers[v].elem;
  }
}
