/**
 * The peer protocol of `WidgetPeer.js` as functions over a snapshot of the state it
 * changes: every peer's fields and the document. The class in module WidgetPeer runs
 * the same steps in place and is proved to end in the state these functions compute.
 */
module PeerSpec {
  import opened Wrappers
  import opened Geometry
  import opened Dom
  import opened Widgets

  /** The fields of one peer: its element (absent: not mounted) and its widget state. */
  datatype Peer = Peer(elem: Option<ElemId>, pos: Point, size: Size, enabled: bool, visible: bool)

  /** The prototype defaults: not mounted, pos (0,0), size (0,0), enabled, visible. */
  const DefaultPeer := Peer(None, Origin, Empty, true, true)

  /** Every peer's fields, indexed by widget, and the document. */
  datatype State = State(peers: seq<Peer>, doc: Doc)

  datatype Bounds = Bounds(pos: Point, size: Size)

  /**
   * A widget's `onLayout` callback: from the widget and the current peers, the new
   * bounds it gives to some of its kids (an empty map when the widget has none).
   */
  type LayoutFn = (WId, seq<Peer>) -> map<WId, Bounds>

  /** The event name `attachTo` registers the widget's `onMouseDown` list under. */
  const MouseDown := "mousedown"

  /** There is one peer per widget of a well-formed tree, and every handle names an element of the document. */
  predicate Fits(t: Tree, st: State) {
    && t.Valid() && |st.peers| == t.Count()
    && forall v :: 0 <= v < |st.peers| && st.peers[v].elem.Some? ==> st.peers[v].elem.value in st.doc.elems
  }

  /** `Fits`, and the document's parent and child links agree. */
  predicate Inv(t: Tree, st: State) {
    Fits(t, st) && st.doc.Valid()
  }

  /** No two peers hold the same element. */
  predicate DistinctHandles(st: State) {
    forall u, v :: 0 <= u < |st.peers| && 0 <= v < |st.peers| && u != v && st.peers[u].elem.Some? && st.peers[v].elem.Some?
      ==> st.peers[u].elem != st.peers[v].elem
  }

  function Clamp(n: int): nat {
    if n < 0 then 0 else n
  }

  //////////////////////////////////////////////////////////////////////////
  // Synchronization
  //////////////////////////////////////////////////////////////////////////

  /**
   * The style `sync(self, w, h)` writes: width and height are the overrides when given and
   * the peer's size otherwise, never below 0; display follows `visible`; left/top follow `pos`.
   */
  function SyncStyle(p: Peer, w: Option<int>, h: Option<int>): (s: Style)
    ensures s.display == Block <==> p.visible
    ensures s.display == DisplayNone <==> !p.visible
    ensures s.left == Px(p.pos.x) && s.top == Px(p.pos.y)
    ensures s.width.Px? && s.width.px >= 0 && s.height.Px? && s.height.px >= 0
    ensures w.None? && p.size.w >= 0 ==> s.width.px == p.size.w
    ensures w.Some? && w.value >= 0 ==> s.width.px == w.value
    ensures h.None? && p.size.h >= 0 ==> s.height.px == p.size.h
    ensures h.Some? && h.value >= 0 ==> s.height.px == h.value
    ensures (if w.Some? then w.value else p.size.w) < 0 ==> s.width.px == 0
    ensures (if h.Some? then h.value else p.size.h) < 0 ==> s.height.px == 0
  {
    var ww := if w.Some? then w.value else p.size.w;
    var hh := if h.Some? then h.value else p.size.h;
    Style(if p.visible then Block else DisplayNone, Px(p.pos.x), Px(p.pos.y), Px(Clamp(ww)), Px(Clamp(hh)))
  }

  /** `sync` on widget `w`: writes its style; a widget without an element is left alone. */
  function SyncF(st: State, w: WId, ow: Option<int>, oh: Option<int>): (r: State)
    ensures r.peers == st.peers
  {
    if w < |st.peers| && st.peers[w].elem.Some? then
      st.(doc := SetStyle(st.doc, st.peers[w].elem.value, SyncStyle(st.peers[w], ow, oh)))
    else st
  }

  //////////////////////////////////////////////////////////////////////////
  // Attach
  //////////////////////////////////////////////////////////////////////////

  /** The listeners `attachEvents(elem, event, list)` registers, in list order. */
  function ListenersFor(event: string, hs: seq<Handler>): (r: seq<Listener>)
    ensures |r| == |hs| && forall i :: 0 <= i < |hs| ==> r[i] == Listener(event, hs[i])
  {
    seq(|hs|, i requires 0 <= i < |hs| => Listener(event, hs[i]))
  }

  /** The document after `attachEvents(e, event, hs)`. */
  function AddListeners(d: Doc, e: ElemId, event: string, hs: seq<Handler>): (r: Doc)
    ensures r.elems.Keys == d.elems.Keys
  {
    if e in d.elems then Doc(d.elems[e := d.elems[e].(listeners := d.elems[e].listeners + ListenersFor(event, hs))], d.next)
    else d
  }

  /** Registering listeners changes only `e`'s listener log, so the links stay as they were. */
  lemma AddListenersShape(d: Doc, e: ElemId, event: string, hs: seq<Handler>)
    requires e in d.elems
    ensures var r := AddListeners(d, e, event, hs);
      && r.next == d.next
      && r.elems[e] == d.elems[e].(listeners := d.elems[e].listeners + ListenersFor(event, hs))
      && (forall x :: x in d.elems && x != e ==> r.elems[x] == d.elems[x])
      && (d.Valid() ==> r.Valid())
  {
  }

  lemma AddListenersStep(d: Doc, e: ElemId, event: string, hs: seq<Handler>, h: Handler)
    requires e in d.elems
    ensures AddListeners(d, e, event, []) == d
    ensures AddListeners(d, e, event, hs + [h]) == AddListener(AddListeners(d, e, event, hs), e, Listener(event, h))
  {
    assert ListenersFor(event, []) == [];
    assert d.elems[e].listeners + [] == d.elems[e].listeners;
    assert d.elems[e].(listeners := d.elems[e].listeners) == d.elems[e];
    assert d.elems[e := d.elems[e]] == d.elems;
    var before := d.elems[e].listeners;
    assert ListenersFor(event, hs + [h]) == ListenersFor(event, hs) + [Listener(event, h)];
    assert before + ListenersFor(event, hs + [h]) == (before + ListenersFor(event, hs)) + [Listener(event, h)];
  }

  /**
   * `attach`: nothing when `w` is mounted, has no parent or its parent is not mounted;
   * otherwise a new element under the parent's element, then `attachTo`.
   */
  function AttachF(t: Tree, st: State, w: WId): (r: State)
    requires t.Valid() && w < t.Count() && |st.peers| == t.Count()
    ensures |r.peers| == |st.peers|
    decreases t.Count() - w, 2, 0
  {
    if st.peers[w].elem.Some? then st
    else if t.parent[w].None? || st.peers[t.parent[w].value].elem.None? then st
    else
      var pe := st.peers[t.parent[w].value].elem.value;
      AttachToF(t, st.(doc := AppendNew(st.doc, pe)), w, st.doc.next)
  }

  /** `attachTo(self, e)`: bind, sync, register mouse-down listeners, then attach every kid in order. */
  function AttachToF(t: Tree, st: State, w: WId, e: ElemId): (r: State)
    requires t.Valid() && w < t.Count() && |st.peers| == t.Count()
    ensures |r.peers| == |st.peers|
    decreases t.Count() - w, 1, 0
  {
    var bound := st.(peers := st.peers[w := st.peers[w].(elem := Some(e))]);
    var synced := SyncF(bound, w, None, None);
    var listening := synced.(doc := AddListeners(synced.doc, e, MouseDown, t.onMouseDown[w]));
    AttachKidsF(t, listening, w, |t.kids[w]|)
  }

  /** The state after `attach` has run on the first `i` kids of `w`. */
  function AttachKidsF(t: Tree, st: State, w: WId, i: nat): (r: State)
    requires t.Valid() && w < t.Count() && |st.peers| == t.Count() && i <= |t.kids[w]|
    ensures |r.peers| == |st.peers|
    decreases t.Count() - w, 0, i
  {
    if i == 0 then st
    else AttachF(t, AttachKidsF(t, st, w, i - 1), t.kids[w][i - 1])
  }

  /** `detach`: unlink the element from its parent element and clear this peer's handle only. */
  function DetachF(st: State, w: WId): (r: State)
    requires w < |st.peers| && st.peers[w].elem.Some?
  {
    State(st.peers[w := st.peers[w].(elem := None)], RemoveChild(st.doc, st.peers[w].elem.value))
  }

  //////////////////////////////////////////////////////////////////////////
  // Layout
  //////////////////////////////////////////////////////////////////////////

  /** Peer `v` after `onLayout` of `w`: the bounds `upd` gives it if it is a kid of `w` that `upd` names. */
  function Placed(t: Tree, p: Peer, v: WId, w: WId, upd: map<WId, Bounds>): Peer
    requires t.Valid() && v < t.Count()
  {
    if t.parent[v] == Some(w) && v in upd then p.(pos := upd[v].pos, size := upd[v].size) else p
  }

  /** The peers after `onLayout` of `w` assigned the bounds in `upd` to those of its kids it names. */
  function Laid(t: Tree, peers: seq<Peer>, w: WId, upd: map<WId, Bounds>): (r: seq<Peer>)
    requires t.Valid() && |peers| <= t.Count()
    ensures |r| == |peers|
    decreases |peers|
  {
    if peers == [] then []
    else
      var last := |peers| - 1;
      Laid(t, peers[..last], w, upd) + [Placed(t, peers[last], last, w, upd)]
  }

  /** Each peer after `onLayout` is the one `Placed` gives. */
  lemma {:induction false} LaidAt(t: Tree, peers: seq<Peer>, w: WId, upd: map<WId, Bounds>, v: WId)
    requires t.Valid() && |peers| <= t.Count() && v < |peers|
    ensures Laid(t, peers, w, upd)[v] == Placed(t, peers[v], v, w, upd)
    decreases |peers|
  {
    var last := |peers| - 1;
    if v < last {
      LaidAt(t, peers[..last], w, upd, v);
    }
  }

  /** `onLayout` changes geometry only, so every invariant of the peers survives it. */
  lemma LaidInv(t: Tree, st: State, w: WId, upd: map<WId, Bounds>)
    requires Fits(t, st)
    ensures Fits(t, st.(peers := Laid(t, st.peers, w, upd)))
    ensures Inv(t, st) ==> Inv(t, st.(peers := Laid(t, st.peers, w, upd)))
    ensures DistinctHandles(st) ==> DistinctHandles(st.(peers := Laid(t, st.peers, w, upd)))
  {
    forall v | 0 <= v < |st.peers| {
      LaidAt(t, st.peers, w, upd, v);
    }
  }

  lemma SetStyleTwice(d: Doc, e: ElemId, s1: Style, s2: Style)
    ensures SetStyle(SetStyle(d, e, s1), e, s2) == SetStyle(d, e, s2)
  {
    if e in d.elems {
      assert d.elems[e := d.elems[e].(style := s1)][e := d.elems[e].(style := s2)] == d.elems[e := d.elems[e].(style := s2)];
    }
  }

  /**
   * `relayout`: nothing when not mounted; otherwise sync, then `onLayout`, then every kid's
   * `relayout` in order.
   */
  function RelayoutF(t: Tree, layout: LayoutFn, st: State, w: WId): (r: State)
    requires t.Valid() && w < t.Count() && |st.peers| == t.Count()
    ensures |r.peers| == |st.peers|
    decreases t.Count() - w, 1, 0
  {
    if st.peers[w].elem.None? then st
    else
      var synced := SyncF(st, w, None, None);
      var laid := synced.(peers := Laid(t, synced.peers, w, layout(w, synced.peers)));
      RelayoutKidsF(t, layout, laid, w, |t.kids[w]|)
  }

  /** The state after `relayout` has run on the first `i` kids of `w`. */
  function RelayoutKidsF(t: Tree, layout: LayoutFn, st: State, w: WId, i: nat): (r: State)
    requires t.Valid() && w < t.Count() && |st.peers| == t.Count() && i <= |t.kids[w]|
    ensures |r.peers| == |st.peers|
    decreases t.Count() - w, 0, i
  {
    if i == 0 then st
    else RelayoutF(t, layout, RelayoutKidsF(t, layout, st, w, i - 1), t.kids[w][i - 1])
  }

  /** The position of `w` relative to the root: its own `pos` plus that of each widget above it. */
  function AbsPos(t: Tree, peers: seq<Peer>, w: WId): Point
    requires t.Valid() && |peers| == t.Count() && w < t.Count()
    decreases w
  {
    if t.parent[w].None? then peers[w].pos
    else Add(peers[w].pos, AbsPos(t, peers, t.parent[w].value))
  }

  /**
   * `prefSize`: sync, set width and height to "auto", measure, put the width and height
   * read before the call back. Returns the new state and the measured size.
   */
  function PrefSizeF(st: State, w: WId, measure: (Doc, ElemId) -> Size): (State, Size)
    requires w < |st.peers| && st.peers[w].elem.Some? && st.peers[w].elem.value in st.doc.elems
  {
    var e := st.peers[w].elem.value;
    var before := st.doc.elems[e].style;
    var synced := SyncStyle(st.peers[w], None, None);
    var measured := measure(SetStyle(st.doc, e, synced.(width := Auto, height := Auto)), e);
    (st.(doc := SetStyle(st.doc, e, synced.(width := before.width, height := before.height))), measured)
  }
}
