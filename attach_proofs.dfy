/**
 * What `attach` does to the peers and the document: it only ever mounts widgets that were
 * not mounted, each on a new element that is synced, carries the widget's mouse-down
 * listeners and hangs under the element of the widget's parent; old elements change only
 * in their child lists; and it mounts exactly the unmounted part of the subtree that hangs
 * from `w` without crossing a mounted widget.
 */
module AttachProofs {
  import opened Wrappers
  import opened Dom
  import opened Widgets
  import opened PeerSpec

  /** `v` has no element in `a` and has one in `b`. */
  predicate Mounts(a: State, b: State, v: WId)
    requires v < |a.peers| && v < |b.peers|
  {
    a.peers[v].elem.None? && b.peers[v].elem.Some?
  }

  /** The invariants the peer layer keeps: `Inv` and no element shared by two peers. */
  predicate Good(t: Tree, s: State) {
    Inv(t, s) && DistinctHandles(s)
  }

  /** From `a` to `b` a peer changes only by getting an element. */
  predicate PeersMono(a: State, b: State) {
    && |b.peers| == |a.peers|
    && forall v :: 0 <= v < |a.peers| ==>
         b.peers[v] == a.peers[v] || (Mounts(a, b, v) && b.peers[v] == a.peers[v].(elem := b.peers[v].elem))
  }

  /** Every element a widget gets from `a` to `b` was created after `a`. */
  predicate NewHandles(a: State, b: State)
    requires |b.peers| == |a.peers|
  {
    forall v :: 0 <= v < |a.peers| && Mounts(a, b, v) ==> a.doc.next <= b.peers[v].elem.value
  }

  /** From `a` to `b` elements are only added, and an old element changes only in its child list. */
  predicate DocGrows(a: Doc, b: Doc) {
    && a.next <= b.next
    && forall x :: x in a.elems ==> x in b.elems && b.elems[x] == a.elems[x].(children := b.elems[x].children)
  }

  predicate Grows(t: Tree, a: State, b: State) {
    Good(t, b) && PeersMono(a, b) && NewHandles(a, b) && DocGrows(a.doc, b.doc)
  }

  /**
   * Every widget mounted from `a` to `b` has an element that is synced from its peer, carries
   * its mouse-down listeners, and hangs under the element of its (mounted) parent.
   */
  predicate Fresh(t: Tree, a: State, b: State)
    requires Fits(t, b) && |a.peers| == |b.peers|
  {
    forall v :: 0 <= v < |a.peers| && Mounts(a, b, v) ==>
      && b.doc.elems[b.peers[v].elem.value].style == SyncStyle(a.peers[v], None, None)
      && b.doc.elems[b.peers[v].elem.value].listeners == ListenersFor(MouseDown, t.onMouseDown[v])
      && t.parent[v].Some? && b.peers[t.parent[v].value].elem.Some?
      && b.doc.elems[b.peers[v].elem.value].parent == b.peers[t.parent[v].value].elem
  }

  /** Whatever `attach(w)` mounts lies below `w`, and hangs from `w` through mounted widgets. */
  predicate AttachScope(t: Tree, a: State, b: State, w: WId)
    requires t.Valid() && |a.peers| == t.Count() && |b.peers| == t.Count()
  {
    forall v :: 0 <= v < |a.peers| && Mounts(a, b, v) ==>
      t.Desc(w, v) && (v != w ==> Mounts(a, b, t.parent[v].value))
  }

  /**
   * Whatever the first `i` kid attachments of `w` mount lies strictly below `w`; a kid of `w`
   * mounted is one of those `i` kids, and anything deeper hangs from a widget mounted too.
   */
  predicate KidsScope(t: Tree, a: State, b: State, w: WId, i: nat)
    requires t.Valid() && |a.peers| == t.Count() && |b.peers| == t.Count() && w < t.Count() && i <= |t.kids[w]|
  {
    forall v :: 0 <= v < |a.peers| && Mounts(a, b, v) ==>
      && t.Desc(w, v) && v != w
      && (t.parent[v] == Some(w) ==> v in t.kids[w][..i])
      && (t.parent[v] != Some(w) ==> Mounts(a, b, t.parent[v].value))
  }

  /** Every element of `a` other than `e` is in `b` as it was. */
  predicate Kept(a: Doc, b: Doc, e: ElemId) {
    forall x :: x in a.elems && x != e ==> x in b.elems && b.elems[x] == a.elems[x]
  }

  lemma GrowsRefl(t: Tree, a: State)
    requires Good(t, a)
    ensures Grows(t, a, a) && Fresh(t, a, a)
  {
  }

  lemma MonoTrans(a: State, b: State, c: State)
    requires PeersMono(a, b) && PeersMono(b, c)
    ensures PeersMono(a, c)
  {
  }

  lemma NewTrans(a: State, b: State, c: State)
    requires PeersMono(a, b) && PeersMono(b, c) && NewHandles(a, b) && NewHandles(b, c) && a.doc.next <= b.doc.next
    ensures NewHandles(a, c)
  {
  }

  lemma DocTrans(a: Doc, b: Doc, c: Doc)
    requires DocGrows(a, b) && DocGrows(b, c)
    ensures DocGrows(a, c)
  {
    forall x | x in a.elems
      ensures x in c.elems && c.elems[x] == a.elems[x].(children := c.elems[x].children)
    {
      assert x in b.elems;
    }
  }

  lemma {:induction false} FreshTrans(t: Tree, a: State, b: State, c: State)
    requires Fits(t, b) && Fits(t, c) && |a.peers| == |b.peers|
    requires PeersMono(a, b) && PeersMono(b, c) && DocGrows(b.doc, c.doc)
    requires Fresh(t, a, b) && Fresh(t, b, c)
    ensures Fresh(t, a, c)
  {
    forall v | 0 <= v < |a.peers| && Mounts(a, c, v)
      ensures && c.doc.elems[c.peers[v].elem.value].style == SyncStyle(a.peers[v], None, None)
              && c.doc.elems[c.peers[v].elem.value].listeners == ListenersFor(MouseDown, t.onMouseDown[v])
              && t.parent[v].Some? && c.peers[t.parent[v].value].elem.Some?
              && c.doc.elems[c.peers[v].elem.value].parent == c.peers[t.parent[v].value].elem
    {
      if Mounts(a, b, v) {
        var x := b.peers[v].elem.value;
        assert x in b.doc.elems;
        var u := t.parent[v].value;
        assert b.peers[u].elem.Some?;
        assert c.peers[u] == b.peers[u];
      } else {
        assert b.peers[v] == a.peers[v];
      }
    }
  }

  lemma GrowsTrans(t: Tree, a: State, b: State, c: State)
    requires Fits(t, a) && Grows(t, a, b) && Fresh(t, a, b) && Grows(t, b, c) && Fresh(t, b, c)
    ensures Grows(t, a, c) && Fresh(t, a, c)
  {
    MonoTrans(a, b, c);
    NewTrans(a, b, c);
    DocTrans(a.doc, b.doc, c.doc);
    FreshTrans(t, a, b, c);
  }

  lemma KeptTrans(a: Doc, b: Doc, c: Doc, e: ElemId, e': ElemId)
    requires Kept(a, b, e) && Kept(b, c, e') && (e' == e || e' !in a.elems)
    ensures Kept(a, c, e)
  {
  }

  /** The document after the first steps of a successful `attach`: a new element under `pe`, synced with `sty`, with the listeners `hs`. */
  lemma CreateDoc(d: Doc, pe: ElemId, sty: Style, hs: seq<Handler>)
    requires d.Valid() && pe in d.elems
    ensures var n := d.next; var r := AddListeners(SetStyle(AppendNew(d, pe), n, sty), n, MouseDown, hs);
      && r.Valid() && n !in d.elems && r.next == n + 1 && r.elems.Keys == d.elems.Keys + {n}
      && r.elems[n] == Element(sty, Some(pe), [], ListenersFor(MouseDown, hs))
      && r.elems[pe] == d.elems[pe].(children := d.elems[pe].children + [n])
      && Kept(d, r, pe) && DocGrows(d, r)
  {
    var n := d.next;
    var d2 := SetStyle(AppendNew(d, pe), n, sty);
    NewStyled(d, pe, sty);
    AddListenersShape(d2, n, MouseDown, hs);
    assert [] + ListenersFor(MouseDown, hs) == ListenersFor(MouseDown, hs);
  }

  /** `createElement`, `appendChild` and the style `sync` writes on the new element. */
  lemma NewStyled(d: Doc, pe: ElemId, sty: Style)
    requires d.Valid() && pe in d.elems
    ensures var n := d.next; var r := SetStyle(AppendNew(d, pe), n, sty);
      && r.Valid() && n !in d.elems && r.next == n + 1 && r.elems.Keys == d.elems.Keys + {n}
      && r.elems[n] == Element(sty, Some(pe), [], [])
      && r.elems[pe] == d.elems[pe].(children := d.elems[pe].children + [n])
      && Kept(d, r, pe) && DocGrows(d, r)
  {
    var d1 := AppendNew(d, pe);
    AppendNewShape(d, pe);
    SetStyleValid(d1, d.next, sty);
  }

  /**
   * The first steps of a successful `attach(w)`: the new element under the parent's element,
   * bound to `w`, synced, with `w`'s mouse-down listeners.
   */
  lemma CreateStep(t: Tree, st: State, w: WId) returns (listening: State)
    requires Good(t, st) && w < t.Count()
    requires st.peers[w].elem.None? && t.parent[w].Some? && st.peers[t.parent[w].value].elem.Some?
    ensures |listening.peers| == t.Count() && listening.peers[w].elem == Some(st.doc.next)
    ensures forall v :: 0 <= v < |st.peers| && v != w ==> listening.peers[v] == st.peers[v]
    ensures AttachF(t, st, w) == AttachKidsF(t, listening, w, |t.kids[w]|)
    ensures Grows(t, st, listening) && Fresh(t, st, listening)
    ensures var pe := st.peers[t.parent[w].value].elem.value;
      && Kept(st.doc, listening.doc, pe) && st.doc.next != pe && st.doc.next !in st.doc.elems
      && listening.doc.elems[pe].children == st.doc.elems[pe].children + [st.doc.next]
  {
    var pe := st.peers[t.parent[w].value].elem.value;
    var n := st.doc.next;
    var peers := st.peers[w := st.peers[w].(elem := Some(n))];
    var sty := SyncStyle(peers[w], None, None);
    CreateDoc(st.doc, pe, sty, t.onMouseDown[w]);
    var d3 := AddListeners(SetStyle(AppendNew(st.doc, pe), n, sty), n, MouseDown, t.onMouseDown[w]);
    listening := State(peers, d3);
    assert AttachF(t, st, w) == AttachKidsF(t, listening, w, |t.kids[w]|);
    BindGrows(t, st, w, listening);
  }

  /** Binding `w` to the new element keeps the invariants, and the new element is as `Fresh` says. */
  lemma BindGrows(t: Tree, st: State, w: WId, r: State)
    requires Good(t, st) && w < t.Count()
    requires st.peers[w].elem.None? && t.parent[w].Some? && st.peers[t.parent[w].value].elem.Some?
    requires r.peers == st.peers[w := st.peers[w].(elem := Some(st.doc.next))]
    requires r.doc.Valid() && DocGrows(st.doc, r.doc) && st.doc.next !in st.doc.elems
    requires r.doc.elems.Keys == st.doc.elems.Keys + {st.doc.next}
    requires r.doc.elems[st.doc.next] == Element(SyncStyle(st.peers[w], None, None), st.peers[t.parent[w].value].elem, [], ListenersFor(MouseDown, t.onMouseDown[w]))
    ensures Grows(t, st, r) && Fresh(t, st, r)
  {
    assert Fits(t, r);
    assert DistinctHandles(r);
  }

  /** Composes the scope of the first steps of `attach(w)` with that of its kid attachments. */
  lemma ScopeAfterCreate(t: Tree, st: State, listening: State, r: State, w: WId)
    requires t.Valid() && w < t.Count() && |st.peers| == t.Count() && |listening.peers| == t.Count() && |r.peers| == t.Count()
    requires forall v :: 0 <= v < |st.peers| && v != w ==> listening.peers[v] == st.peers[v]
    requires st.peers[w].elem.None? && r.peers[w].elem.Some?
    requires KidsScope(t, listening, r, w, |t.kids[w]|)
    ensures AttachScope(t, st, r, w)
  {
    forall v | 0 <= v < |st.peers| && Mounts(st, r, v)
      ensures t.Desc(w, v) && (v != w ==> Mounts(st, r, t.parent[v].value))
    {
      if v != w {
        assert Mounts(listening, r, v);
      }
    }
  }

  /** Composes the scope of the first `i - 1` kid attachments with that of the `i`-th. */
  lemma {:induction false} ScopeAfterKid(t: Tree, st: State, s: State, r: State, w: WId, i: nat)
    requires t.Valid() && w < t.Count() && 0 < i <= |t.kids[w]|
    requires |st.peers| == t.Count() && |s.peers| == t.Count() && |r.peers| == t.Count()
    requires KidsScope(t, st, s, w, i - 1)
    requires AttachScope(t, s, r, t.kids[w][i - 1])
    requires PeersMono(st, s) && PeersMono(s, r)
    ensures KidsScope(t, st, r, w, i)
  {
    var k := t.kids[w][i - 1];
    assert w < k && t.parent[k] == Some(w);
    forall v | 0 <= v < |st.peers| && Mounts(st, r, v)
      ensures && t.Desc(w, v) && v != w
              && (t.parent[v] == Some(w) ==> v in t.kids[w][..i])
              && (t.parent[v] != Some(w) ==> Mounts(st, r, t.parent[v].value))
    {
      if Mounts(st, s, v) {
        assert v in t.kids[w][..i - 1] ==> v in t.kids[w][..i];
      } else {
        assert Mounts(s, r, v) && t.Desc(k, v);
        KidBelow(t, w, i - 1, v);
        if t.parent[v] == Some(w) {
          if v != k {
            assert t.Desc(k, w);
            DescBelow(t, k, w);
          }
          assert t.kids[w][..i][i - 1] == k;
        }
      }
    }
  }

  /** One more kid attachment, composed with the ones before it. */
  lemma KidStep(t: Tree, st: State, s: State, r: State, w: WId, i: nat)
    requires Good(t, st) && w < t.Count() && 0 < i <= |t.kids[w]| && st.peers[w].elem.Some?
    requires Grows(t, st, s) && Fresh(t, st, s) && Kept(st.doc, s.doc, st.peers[w].elem.value)
    requires Grows(t, s, r) && Fresh(t, s, r) && Kept(s.doc, r.doc, s.peers[w].elem.value)
    ensures Grows(t, st, r) && Fresh(t, st, r)
    ensures Kept(st.doc, r.doc, st.peers[w].elem.value)
  {
    assert s.peers[w] == st.peers[w];
    GrowsTrans(t, st, s, r);
    KeptTrans(st.doc, s.doc, r.doc, st.peers[w].elem.value, st.peers[w].elem.value);
  }

  /**
   * `attach(w)` grows the state, mounts only below `w`, and — when it does anything —
   * changes the old elements only by appending one new element to the parent's element.
   */
  lemma {:induction false} AttachGrows(t: Tree, st: State, w: WId)
    requires Good(t, st) && w < t.Count()
    ensures var r := AttachF(t, st, w);
      Grows(t, st, r) && Fresh(t, st, r)
    ensures t.parent[w].Some? && st.peers[t.parent[w].value].elem.Some? ==>
      Kept(st.doc, AttachF(t, st, w).doc, st.peers[t.parent[w].value].elem.value)
    ensures st.peers[w].elem.None? && t.parent[w].Some? && st.peers[t.parent[w].value].elem.Some? ==>
      var r := AttachF(t, st, w); var pe := st.peers[t.parent[w].value].elem.value;
      && r.peers[w].elem == Some(st.doc.next)
      && r.doc.elems[pe].children == st.doc.elems[pe].children + [st.doc.next]
    decreases t.Count() - w, 1, 0
  {
    if st.peers[w].elem.Some? || t.parent[w].None? || st.peers[t.parent[w].value].elem.None? {
      GrowsRefl(t, st);
    } else {
      var pe := st.peers[t.parent[w].value].elem.value;
      var listening := CreateStep(t, st, w);
      var r := AttachKidsF(t, listening, w, |t.kids[w]|);
      KidsGrows(t, listening, w, |t.kids[w]|);
      GrowsTrans(t, st, listening, r);
      KeptTrans(st.doc, listening.doc, r.doc, pe, st.doc.next);
    }
  }

  /** The first `i` kid attachments of a mounted `w` grow the state and leave every old element but `w`'s as it was. */
  lemma {:induction false} KidsGrows(t: Tree, st: State, w: WId, i: nat)
    requires Good(t, st) && w < t.Count() && i <= |t.kids[w]| && st.peers[w].elem.Some?
    ensures var r := AttachKidsF(t, st, w, i);
      && Grows(t, st, r) && Fresh(t, st, r)
      && Kept(st.doc, r.doc, st.peers[w].elem.value)
    decreases t.Count() - w, 0, i
  {
    if i == 0 {
      GrowsRefl(t, st);
    } else {
      KidsGrows(t, st, w, i - 1);
      var s := AttachKidsF(t, st, w, i - 1);
      var k := t.kids[w][i - 1];
      assert w < k && t.parent[k] == Some(w);
      AttachGrows(t, s, k);
      KidStep(t, st, s, AttachF(t, s, k), w, i);
    }
  }

  //////////////////////////////////////////////////////////////////////////
  // The peers alone: what `attach` mounts lies below `w`
  //////////////////////////////////////////////////////////////////////////

  /** The state `attachTo(w, e)` starts its kid loop from, after a successful `attach(w)` created `e`. */
  lemma BindPeers(t: Tree, st: State, w: WId) returns (listening: State)
    requires t.Valid() && w < t.Count() && |st.peers| == t.Count()
    requires st.peers[w].elem.None? && t.parent[w].Some? && st.peers[t.parent[w].value].elem.Some?
    ensures listening.peers == st.peers[w := st.peers[w].(elem := Some(st.doc.next))]
    ensures AttachF(t, st, w) == AttachKidsF(t, listening, w, |t.kids[w]|)
  {
    var pe := st.peers[t.parent[w].value].elem.value;
    var st1 := st.(doc := AppendNew(st.doc, pe));
    var bound := st1.(peers := st1.peers[w := st1.peers[w].(elem := Some(st.doc.next))]);
    var synced := SyncF(bound, w, None, None);
    listening := synced.(doc := AddListeners(synced.doc, st.doc.next, MouseDown, t.onMouseDown[w]));
  }

  /** `attach(w)` only mounts, only below `w`, and only through widgets it mounts itself. */
  lemma {:induction false} AttachPeers(t: Tree, st: State, w: WId)
    requires t.Valid() && w < t.Count() && |st.peers| == t.Count()
    ensures var r := AttachF(t, st, w); PeersMono(st, r) && AttachScope(t, st, r, w)
    decreases t.Count() - w, 1, 0
  {
    if st.peers[w].elem.None? && t.parent[w].Some? && st.peers[t.parent[w].value].elem.Some? {
      var listening := BindPeers(t, st, w);
      var r := AttachKidsF(t, listening, w, |t.kids[w]|);
      KidsPeers(t, listening, w, |t.kids[w]|);
      MonoTrans(st, listening, r);
      ScopeAfterCreate(t, st, listening, r, w);
    }
  }

  /** The first `i` kid attachments of a mounted `w` only mount, and only strictly below `w`. */
  lemma {:induction false} KidsPeers(t: Tree, st: State, w: WId, i: nat)
    requires t.Valid() && w < t.Count() && |st.peers| == t.Count() && i <= |t.kids[w]| && st.peers[w].elem.Some?
    ensures var r := AttachKidsF(t, st, w, i); PeersMono(st, r) && KidsScope(t, st, r, w, i)
    decreases t.Count() - w, 0, i
  {
    if i > 0 {
      KidsPeers(t, st, w, i - 1);
      var s := AttachKidsF(t, st, w, i - 1);
      var k := t.kids[w][i - 1];
      assert w < k && t.parent[k] == Some(w);
      AttachPeers(t, s, k);
      var r := AttachF(t, s, k);
      MonoTrans(st, s, r);
      ScopeAfterKid(t, st, s, r, w, i);
    }
  }

  //////////////////////////////////////////////////////////////////////////
  // Which widgets `attach` mounts
  //////////////////////////////////////////////////////////////////////////

  /** `v` hangs from `k` through widgets none of which, `k` and `v` included, is mounted in `peers`. */
  predicate Reach(t: Tree, peers: seq<Peer>, k: WId, v: WId)
    requires t.Valid() && |peers| == t.Count() && v < t.Count()
    decreases v
  {
    peers[v].elem.None? && (v == k || (t.parent[v].Some? && Reach(t, peers, k, t.parent[v].value)))
  }

  lemma {:induction false} ReachTop(t: Tree, peers: seq<Peer>, k: WId, v: WId)
    requires t.Valid() && |peers| == t.Count() && v < t.Count() && Reach(t, peers, k, v)
    ensures k <= v && peers[k].elem.None?
    decreases v
  {
    if v != k {
      ReachTop(t, peers, k, t.parent[v].value);
    }
  }

  /** A path that avoids widget `x` is unaffected by a change at `x`. */
  lemma {:induction false} ReachFrame(t: Tree, a: seq<Peer>, b: seq<Peer>, x: WId, k: WId, v: WId)
    requires t.Valid() && |a| == t.Count() && |b| == t.Count() && v < t.Count() && x < k
    requires forall u :: 0 <= u < |a| && u != x ==> b[u].elem == a[u].elem
    requires Reach(t, a, k, v)
    ensures Reach(t, b, k, v)
    decreases v
  {
    ReachTop(t, a, k, v);
    if v != k {
      ReachFrame(t, a, b, x, k, t.parent[v].value);
    }
  }

  /** Below `w`, an unmounted path starts at one of `w`'s kids. */
  lemma {:induction false} ReachKid(t: Tree, peers: seq<Peer>, w: WId, v: WId) returns (j: nat)
    requires t.Valid() && t.Listed() && |peers| == t.Count() && v < t.Count() && w < t.Count()
    requires Reach(t, peers, w, v) && v != w
    ensures j < |t.kids[w]| && Reach(t, peers, t.kids[w][j], v)
    decreases v
  {
    var u := t.parent[v].value;
    if u == w {
      assert v in t.kids[w];
      j :| 0 <= j < |t.kids[w]| && t.kids[w][j] == v;
    } else {
      j := ReachKid(t, peers, w, u);
      assert Reach(t, peers, t.kids[w][j], v);
    }
  }

  /** Whatever `attach(w)` mounted lay on an unmounted path from `w`. */
  lemma {:induction false} MountsReach(t: Tree, st: State, r: State, w: WId, v: WId)
    requires t.Valid() && |st.peers| == t.Count() && |r.peers| == t.Count() && v < t.Count()
    requires AttachScope(t, st, r, w) && Mounts(st, r, v)
    ensures Reach(t, st.peers, w, v)
    decreases v
  {
    if v != w {
      MountsReach(t, st, r, w, t.parent[v].value);
    }
  }

  /**
   * An unmounted path from kid `k` of `w` stays unmounted while the kids before it are
   * attached, unless they had mounted `k` itself.
   */
  lemma {:induction false} ReachStays(t: Tree, st: State, s: State, w: WId, i: nat, k: WId, v: WId)
    requires t.Valid() && |st.peers| == t.Count() && |s.peers| == t.Count() && v < t.Count() && k < t.Count()
    requires w < t.Count() && i <= |t.kids[w]| && KidsScope(t, st, s, w, i)
    requires t.parent[k] == Some(w) && s.peers[k].elem.None? && Reach(t, st.peers, k, v)
    ensures Reach(t, s.peers, k, v)
    decreases v
  {
    if v != k {
      var u := t.parent[v].value;
      ReachStays(t, st, s, w, i, k, u);
      ReachTop(t, st.peers, k, u);
    }
  }

  /** `attach` never unmounts. */
  lemma AttachKeeps(t: Tree, s: State, k: WId, v: WId)
    requires t.Valid() && |s.peers| == t.Count() && k < t.Count() && v < t.Count() && s.peers[v].elem.Some?
    ensures AttachF(t, s, k).peers[v].elem.Some?
  {
    AttachPeers(t, s, k);
  }

  /** `attach(w)`, when it runs, mounts everything on an unmounted path from `w`. */
  lemma {:induction false} AttachComplete(t: Tree, st: State, w: WId, v: WId)
    requires t.Valid() && t.Listed() && |st.peers| == t.Count() && w < t.Count() && v < t.Count()
    requires st.peers[w].elem.None? && t.parent[w].Some? && st.peers[t.parent[w].value].elem.Some?
    requires Reach(t, st.peers, w, v)
    ensures AttachF(t, st, w).peers[v].elem.Some?
    decreases t.Count() - w, 1, 0
  {
    var listening := BindPeers(t, st, w);
    if v == w {
      KidsPeers(t, listening, w, |t.kids[w]|);
    } else {
      var j := ReachKid(t, st.peers, w, v);
      assert w < t.kids[w][j];
      ReachFrame(t, st.peers, listening.peers, w, t.kids[w][j], v);
      KidsComplete(t, listening, w, |t.kids[w]|, j, v);
    }
  }

  /** The first `i` kid attachments mount everything on an unmounted path from any of those kids. */
  lemma {:induction false} KidsComplete(t: Tree, st: State, w: WId, i: nat, j: nat, v: WId)
    requires t.Valid() && t.Listed() && |st.peers| == t.Count() && w < t.Count() && v < t.Count() && st.peers[w].elem.Some?
    requires j < i <= |t.kids[w]| && Reach(t, st.peers, t.kids[w][j], v)
    ensures AttachKidsF(t, st, w, i).peers[v].elem.Some?
    decreases t.Count() - w, 0, i
  {
    var s := AttachKidsF(t, st, w, i - 1);
    var k := t.kids[w][i - 1];
    assert w < k < t.Count() && t.parent[k] == Some(w);
    if j < i - 1 {
      KidsComplete(t, st, w, i - 1, j, v);
      AttachKeeps(t, s, k, v);
    } else if s.peers[k].elem.Some? {
      ReachTop(t, st.peers, k, v);
      var j' := EarlierKid(t, st, w, i - 1, k);
      KidsComplete(t, st, w, i - 1, j', v);
      AttachKeeps(t, s, k, v);
    } else {
      KidsPeers(t, st, w, i - 1);
      ReachStays(t, st, s, w, i - 1, k, v);
      AttachComplete(t, s, k, v);
    }
  }

  /** A kid of `w` that was unmounted and is mounted after the first `i` kid attachments is one of those kids. */
  lemma EarlierKid(t: Tree, st: State, w: WId, i: nat, k: WId) returns (j: nat)
    requires t.Valid() && w < t.Count() && |st.peers| == t.Count() && i <= |t.kids[w]| && st.peers[w].elem.Some?
    requires k < t.Count() && t.parent[k] == Some(w)
    requires st.peers[k].elem.None? && AttachKidsF(t, st, w, i).peers[k].elem.Some?
    ensures j < i && t.kids[w][j] == k
  {
    KidsPeers(t, st, w, i);
    assert Mounts(st, AttachKidsF(t, st, w, i), k);
    assert k in t.kids[w][..i];
    j :| 0 <= j < i && t.kids[w][..i][j] == k;
  }

  //////////////////////////////////////////////////////////////////////////
  // What `attach` promises
  //////////////////////////////////////////////////////////////////////////

  /**
   * `attach(w)`: nothing changes when `w` is mounted, has no parent, or its parent is not
   * mounted (so a root is never mounted this way). Otherwise exactly one new element is
   * appended as the last child of the parent's element and bound to `w`, and the widgets
   * mounted are exactly those on an unmounted path from `w`; each gets a new element that is
   * synced, carries its mouse-down listeners and hangs under its parent's element. Widgets that
   * were mounted keep their peer, old elements other than the parent's are left as they were,
   * and the invariants hold after.
   */
  lemma AttachSpec(t: Tree, st: State, w: WId)
    requires Good(t, st) && t.Listed() && w < t.Count()
    ensures var r := AttachF(t, st, w);
      && Good(t, r) && PeersMono(st, r) && NewHandles(st, r) && DocGrows(st.doc, r.doc) && Fresh(t, st, r)
      && (forall v :: 0 <= v < t.Count() && st.peers[v].elem.Some? ==> r.peers[v] == st.peers[v])
    ensures st.peers[w].elem.Some? || t.parent[w].None? || st.peers[t.parent[w].value].elem.None? ==>
      AttachF(t, st, w) == st
    ensures st.peers[w].elem.None? && t.parent[w].Some? && st.peers[t.parent[w].value].elem.Some? ==>
      var r := AttachF(t, st, w); var pe := st.peers[t.parent[w].value].elem.value;
      && r.peers[w].elem == Some(st.doc.next)
      && r.doc.elems[pe].children == st.doc.elems[pe].children + [st.doc.next]
      && Kept(st.doc, r.doc, pe)
      && (forall v :: 0 <= v < t.Count() ==> (Mounts(st, r, v) <==> Reach(t, st.peers, w, v)))
  {
    AttachGrows(t, st, w);
    AttachPeers(t, st, w);
    var r := AttachF(t, st, w);
    if st.peers[w].elem.None? && t.parent[w].Some? && st.peers[t.parent[w].value].elem.Some? {
      forall v | 0 <= v < t.Count()
        ensures Mounts(st, r, v) <==> Reach(t, st.peers, w, v)
      {
        if Mounts(st, r, v) {
          MountsReach(t, st, r, w, v);
        }
        if Reach(t, st.peers, w, v) {
          AttachComplete(t, st, w, v);
        }
      }
    }
  }

  //////////////////////////////////////////////////////////////////////////
  // What `attachTo` promises
  //////////////////////////////////////////////////////////////////////////

  /** The state `attachTo(w, e)` starts its kid loop from: `w` bound to `e`, `e` synced and listening. */
  lemma BindTo(t: Tree, st: State, w: WId, e: ElemId) returns (listening: State)
    requires Good(t, st) && w < t.Count() && e in st.doc.elems
    requires forall v :: 0 <= v < t.Count() && v != w && st.peers[v].elem.Some? ==> st.peers[v].elem.value != e
    ensures listening.peers == st.peers[w := st.peers[w].(elem := Some(e))]
    ensures AttachToF(t, st, w, e) == AttachKidsF(t, listening, w, |t.kids[w]|)
    ensures Good(t, listening) && listening.doc.next == st.doc.next && Kept(st.doc, listening.doc, e)
    ensures listening.doc.elems[e] == st.doc.elems[e].(style := SyncStyle(st.peers[w], None, None),
      listeners := st.doc.elems[e].listeners + ListenersFor(MouseDown, t.onMouseDown[w]))
  {
    var peers := st.peers[w := st.peers[w].(elem := Some(e))];
    var sty := SyncStyle(peers[w], None, None);
    assert sty == SyncStyle(st.peers[w], None, None);
    var d1 := SetStyle(st.doc, e, sty);
    SetStyleValid(st.doc, e, sty);
    AddListenersShape(d1, e, MouseDown, t.onMouseDown[w]);
    listening := State(peers, AddListeners(d1, e, MouseDown, t.onMouseDown[w]));
  }

  /** Whatever the kid loop of `w` mounted lay on an unmounted path from one of `w`'s kids. */
  lemma {:induction false} KidsMountsReach(t: Tree, a: State, r: State, w: WId, v: WId) returns (j: nat)
    requires t.Valid() && |a.peers| == t.Count() && |r.peers| == t.Count() && w < t.Count() && v < t.Count()
    requires KidsScope(t, a, r, w, |t.kids[w]|) && Mounts(a, r, v)
    ensures j < |t.kids[w]| && Reach(t, a.peers, t.kids[w][j], v)
    decreases v
  {
    if t.parent[v] == Some(w) {
      assert t.kids[w][..|t.kids[w]|] == t.kids[w];
      j :| 0 <= j < |t.kids[w]| && t.kids[w][j] == v;
    } else {
      j := KidsMountsReach(t, a, r, w, t.parent[v].value);
    }
  }

  /** What the bind step and the kid loop of `attachTo` each keep, composed into what `attachTo` keeps. */
  lemma BindThenKids(t: Tree, st: State, listening: State, r: State, w: WId, e: ElemId)
    requires Good(t, st) && w < t.Count() && e in st.doc.elems
    requires listening.peers == st.peers[w := st.peers[w].(elem := Some(e))]
    requires listening.doc.next == st.doc.next && Kept(st.doc, listening.doc, e) && e in listening.doc.elems
    requires listening.doc.elems[e] == st.doc.elems[e].(style := SyncStyle(st.peers[w], None, None),
      listeners := st.doc.elems[e].listeners + ListenersFor(MouseDown, t.onMouseDown[w]))
    requires Grows(t, listening, r) && Fresh(t, listening, r) && Kept(listening.doc, r.doc, e)
    requires KidsScope(t, listening, r, w, |t.kids[w]|)
    ensures && Good(t, r) && r.peers[w] == st.peers[w].(elem := Some(e))
      && r.doc.elems[e] == st.doc.elems[e].(style := SyncStyle(st.peers[w], None, None),
           listeners := st.doc.elems[e].listeners + ListenersFor(MouseDown, t.onMouseDown[w]),
           children := r.doc.elems[e].children)
      && Kept(st.doc, r.doc, e) && st.doc.next <= r.doc.next
      && (forall v :: 0 <= v < t.Count() && v != w ==>
            r.peers[v] == st.peers[v] || (Mounts(st, r, v) && r.peers[v] == st.peers[v].(elem := r.peers[v].elem)))
    ensures forall v :: 0 <= v < t.Count() && v != w && Mounts(st, r, v) ==>
      && st.doc.next <= r.peers[v].elem.value
      && r.doc.elems[r.peers[v].elem.value].style == SyncStyle(st.peers[v], None, None)
      && r.doc.elems[r.peers[v].elem.value].listeners == ListenersFor(MouseDown, t.onMouseDown[v])
      && t.parent[v].Some? && r.peers[t.parent[v].value].elem.Some?
      && r.doc.elems[r.peers[v].elem.value].parent == r.peers[t.parent[v].value].elem
  {
    KeptTrans(st.doc, listening.doc, r.doc, e, e);
    assert r.doc.elems[e] == listening.doc.elems[e].(children := r.doc.elems[e].children);
    forall v | 0 <= v < t.Count() && v != w
      ensures listening.peers[v] == st.peers[v]
    {
    }
  }

  /**
   * `attachTo(w, e)` on an element `e` no other peer holds: `w` is bound to `e`, whose style
   * becomes `w`'s synced style and whose listener log gains `w`'s mouse-down list; every other
   * old element is left as it was; each widget mounted besides `w` gets a new element that is
   * synced, carries its listeners and hangs under its parent's element; mounted widgets keep
   * their peer, and the invariants hold after.
   */
  lemma AttachToSpec(t: Tree, st: State, w: WId, e: ElemId)
    requires Good(t, st) && w < t.Count() && e in st.doc.elems
    requires forall v :: 0 <= v < t.Count() && v != w && st.peers[v].elem.Some? ==> st.peers[v].elem.value != e
    ensures var r := AttachToF(t, st, w, e);
      && Good(t, r) && r.peers[w] == st.peers[w].(elem := Some(e))
      && r.doc.elems[e] == st.doc.elems[e].(style := SyncStyle(st.peers[w], None, None),
           listeners := st.doc.elems[e].listeners + ListenersFor(MouseDown, t.onMouseDown[w]),
           children := r.doc.elems[e].children)
      && Kept(st.doc, r.doc, e) && st.doc.next <= r.doc.next
      && (forall v :: 0 <= v < t.Count() && v != w ==>
            r.peers[v] == st.peers[v] || (Mounts(st, r, v) && r.peers[v] == st.peers[v].(elem := r.peers[v].elem)))
    ensures var r := AttachToF(t, st, w, e);
      forall v :: 0 <= v < t.Count() && v != w && Mounts(st, r, v) ==>
        && st.doc.next <= r.peers[v].elem.value
        && r.doc.elems[r.peers[v].elem.value].style == SyncStyle(st.peers[v], None, None)
        && r.doc.elems[r.peers[v].elem.value].listeners == ListenersFor(MouseDown, t.onMouseDown[v])
        && t.parent[v].Some? && r.peers[t.parent[v].value].elem.Some?
        && r.doc.elems[r.peers[v].elem.value].parent == r.peers[t.parent[v].value].elem
  {
    var listening := BindTo(t, st, w, e);
    var r := AttachKidsF(t, listening, w, |t.kids[w]|);
    KidsGrows(t, listening, w, |t.kids[w]|);
    KidsPeers(t, listening, w, |t.kids[w]|);
    BindThenKids(t, st, listening, r, w, e);
  }

  /** The kid loop mounts exactly the widgets on an unmounted path from one of `w`'s kids. */
  lemma KidsMountSet(t: Tree, st: State, listening: State, r: State, w: WId)
    requires t.Valid() && w < t.Count() && |st.peers| == t.Count() && |listening.peers| == t.Count() && |r.peers| == t.Count()
    requires forall u :: 0 <= u < t.Count() && u != w ==> listening.peers[u] == st.peers[u]
    requires KidsScope(t, listening, r, w, |t.kids[w]|)
    requires forall j, v :: 0 <= j < |t.kids[w]| && 0 <= v < t.Count() && Reach(t, listening.peers, t.kids[w][j], v) ==> r.peers[v].elem.Some?
    ensures forall v :: 0 <= v < t.Count() && v != w ==>
      (Mounts(st, r, v) <==> exists j :: 0 <= j < |t.kids[w]| && Reach(t, st.peers, t.kids[w][j], v))
  {
    forall v | 0 <= v < t.Count() && v != w
      ensures Mounts(st, r, v) <==> exists j :: 0 <= j < |t.kids[w]| && Reach(t, st.peers, t.kids[w][j], v)
    {
      if Mounts(st, r, v) {
        assert Mounts(listening, r, v);
        var j := KidsMountsReach(t, listening, r, w, v);
        assert w < t.kids[w][j];
        ReachFrame(t, listening.peers, st.peers, w, t.kids[w][j], v);
      }
      if exists j :: 0 <= j < |t.kids[w]| && Reach(t, st.peers, t.kids[w][j], v) {
        var j :| 0 <= j < |t.kids[w]| && Reach(t, st.peers, t.kids[w][j], v);
        assert w < t.kids[w][j];
        ReachFrame(t, st.peers, listening.peers, w, t.kids[w][j], v);
      }
    }
  }

  /**
   * The widgets `attachTo(w, e)` mounts besides `w` are exactly those on an unmounted path from
   * one of `w`'s kids.
   */
  lemma AttachToMounts(t: Tree, st: State, w: WId, e: ElemId)
    requires Good(t, st) && t.Listed() && w < t.Count() && e in st.doc.elems
    requires forall v :: 0 <= v < t.Count() && v != w && st.peers[v].elem.Some? ==> st.peers[v].elem.value != e
    ensures var r := AttachToF(t, st, w, e);
      forall v :: 0 <= v < t.Count() && v != w ==>
        (Mounts(st, r, v) <==> exists j :: 0 <= j < |t.kids[w]| && Reach(t, st.peers, t.kids[w][j], v))
  {
    var listening := BindTo(t, st, w, e);
    var r := AttachKidsF(t, listening, w, |t.kids[w]|);
    KidsPeers(t, listening, w, |t.kids[w]|);
    forall j, v | 0 <= j < |t.kids[w]| && 0 <= v < t.Count() && Reach(t, listening.peers, t.kids[w][j], v)
      ensures r.peers[v].elem.Some?
    {
      KidsComplete(t, listening, w, |t.kids[w]|, j, v);
    }
    KidsMountSet(t, st, listening, r, w);
  }
}
