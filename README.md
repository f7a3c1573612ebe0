# Fantom fwt widget peers and fcode attribute decoding, in Dafny

This project models two parts of the Fantom repository and proves properties of them.

**The JavaScript widget peer (`src/fwt/js/WidgetPeer.js`).** Every widget of an fwt widget tree
has a peer. The peer holds the widget's bounds (`pos`, `size`), its `enabled`/`visible` flags and
the DOM element it is mounted on (`elem`; none while unmounted). The model covers:

- `attach` / `attachTo` / `create`: mount a widget on a new `div` under its parent's element,
  sync its style, register its mouse-down listeners, then attach every kid.
- `detach`: unlink the element from its parent element and forget the handle.
- `sync`: write display, left, top, width and height from the peer.
- `relayout`: sync, run the widget's `onLayout`, then relayout every kid.
- `prefSize`: measure with width and height "auto", then restore them.
- `posOnDisplay`: sum the positions up the parent chain.
- The four property setters.

The model's parts:

- The tree is a value (`Widgets.Tree`). Widgets are numbered, and each parent's number is below
  its kids' numbers, which is how finiteness and acyclicity are stated.
- The DOM is a store of elements with style records, parent/child links and listener logs
  (`Dom.Doc`).
- Every operation is a function over a snapshot of all peers and the document (`PeerSpec`).
- The class `WidgetPeer.Peers` runs the same steps in place: for loops over the kids, recursive
  calls, field updates. Each method is proved to end in the state the function computes.
- The properties are lemmas in `AttachProofs`, `RelayoutProofs` and `PeerProofs`.

**The Java attribute decoder (`src/sys/java/fanx/fcode/FAttrs.java`).** `FAttrs.read` reads a u2
count. A count of 0 returns the shared `none`. Otherwise it reads that many records: each record
has a name and is dispatched to a handler (`ErrTable`, the legacy facets, `LineNumber`,
`LineNumbers`, `SourceFile`) or skipped by its u2 length. The model's parts:

- `FStore.Input` is a cursor over a byte sequence, with `u2` and `skip` as in `DataInputStream`.
- The pod's own reader steps come in as deterministic functions inside `FStore.Pod`: name table,
  `utf`, `FBuf.read`, `symbolRef(..).qname()`, `Symbol.initVal`.
- `FAttrsSpec` decodes each record to an `Update` of one field.
- `FCode.FAttrs` is the class with the five fields, its handler methods and the `read` loop.
- `FAttrsProofs` holds the properties.

## Model

| member | source | states |
|---|---|---|
| WidgetPeer.Peers.constructor | src/fwt/js/WidgetPeer.js:70-84 | every peer starts unmounted with the prototype defaults: pos (0,0), size (0,0), enabled, visible |
| WidgetPeer.Peers.Relayout | src/fwt/js/WidgetPeer.js:19-35 | the loop of kid relayouts ends in exactly the state `RelayoutF` gives: nothing on an unmounted widget, else sync, onLayout, each kid in order |
| WidgetPeer.Peers.OnLayout | src/fwt/js/WidgetPeer.js:25 | the callback changes only the bounds of the kids it names, nothing in the document |
| WidgetPeer.Peers.PosOnDisplay | src/fwt/js/WidgetPeer.js:37-49 | the while loop up the parent chain returns `AbsPos`: own pos plus every ancestor's pos |
| WidgetPeer.Peers.PrefSize | src/fwt/js/WidgetPeer.js:51-68 | returns the measure taken with width/height "auto" and ends in the state `PrefSizeF` gives |
| WidgetPeer.Peers.SetStyleWidth | src/fwt/js/WidgetPeer.js:59 | `elem.style.width = val` overwrites that one style field of that one element |
| WidgetPeer.Peers.SetStyleHeight | src/fwt/js/WidgetPeer.js:60 | `elem.style.height = val` overwrites that one style field of that one element |
| WidgetPeer.Peers.SetEnabled | src/fwt/js/WidgetPeer.js:70-71 | assigns `enabled` of that peer only; the document is untouched |
| WidgetPeer.Peers.SetVisible | src/fwt/js/WidgetPeer.js:74-75 | assigns `visible` of that peer only; the document is untouched |
| WidgetPeer.Peers.SetPos | src/fwt/js/WidgetPeer.js:78-79 | assigns `pos` of that peer only; the document is untouched |
| WidgetPeer.Peers.SetSize | src/fwt/js/WidgetPeer.js:82-83 | assigns `size` of that peer only; the document is untouched |
| WidgetPeer.Peers.Attach | src/fwt/js/WidgetPeer.js:94-109 | ends in the state `AttachF` gives: no-op when mounted or when the parent is missing or unmounted, else create under the parent's element and attachTo |
| WidgetPeer.Peers.AttachTo | src/fwt/js/WidgetPeer.js:111-126 | binds the handle, syncs, registers the mouse-down list, then attaches each kid in order (`AttachToF`) |
| WidgetPeer.Peers.AttachEvents | src/fwt/js/WidgetPeer.js:128-137 | appends one listener per handler, in list order, to that element only |
| WidgetPeer.Peers.Create | src/fwt/js/WidgetPeer.js:139-144 | returns the id of a new element appended as last child of the parent element |
| WidgetPeer.Peers.Detach | src/fwt/js/WidgetPeer.js:159-164 | ends in `DetachF`: element unlinked from its parent and this peer's handle cleared |
| WidgetPeer.Peers.Sync | src/fwt/js/WidgetPeer.js:170-187 | rewrites the style of this peer's element with `SyncStyle` and changes nothing else |
| PeerSpec.SyncStyle | src/fwt/js/WidgetPeer.js:170-187 | display is block iff visible; left/top are pos; width/height are the override if given else size, clamped at 0 |
| PeerSpec.SyncF | src/fwt/js/WidgetPeer.js:170-187 | sync never changes a peer |
| PeerSpec.AddListenersShape | src/fwt/js/WidgetPeer.js:128-137 | registering extends only that element's listener log by the list; links and the other elements stay, so the document stays valid |
| PeerSpec.AddListenersStep | src/fwt/js/WidgetPeer.js:130-136 | registering the list is registering its handlers one at a time (the loop's step) |
| PeerSpec.LaidAt | src/fwt/js/WidgetPeer.js:25 | after onLayout each peer is its old self, or its old self with the bounds onLayout gave it when it is a kid that onLayout named |
| PeerSpec.LaidInv | src/fwt/js/WidgetPeer.js:25 | onLayout keeps every handle, so the invariants survive it |
| PeerSpec.SetStyleTwice | src/fwt/js/WidgetPeer.js:58-66 | a second style write to an element hides the first |
| Dom.AppendNewShape | src/fwt/js/WidgetPeer.js:139-157 | create: the new element is fresh, has left/top 0, no children, the parent as parent, and is last among the parent's children; nothing else changes; links stay valid |
| Dom.RemoveChildShape | src/fwt/js/WidgetPeer.js:162 | removeChild takes exactly that child out of its parent's list (one shorter) and clears its parent link; everything else stays; links stay valid |
| Dom.SetStyleValid | src/fwt/js/WidgetPeer.js:172-186 | a style write changes one element's style only |
| Dom.AddListenerValid | src/fwt/js/WidgetPeer.js:133 | addEventListener appends to one element's log only |
| AttachProofs.AttachSpec | src/fwt/js/WidgetPeer.js:94-126 | attach keeps the invariants, mounts only on new elements, never changes a mounted peer, is a no-op in the three short-circuit cases, gives `w` the next element under its parent's element, and mounts a widget iff it is reached from `w` through unmounted widgets |
| AttachProofs.AttachToSpec | src/fwt/js/WidgetPeer.js:111-126 | attachTo on an element no other peer holds keeps the invariants, binds `w` to it, gives it `w`'s synced style and mouse-down listeners, keeps every other old element and every mounted peer, and puts each widget it mounts on a new synced element under its parent's element |
| AttachProofs.AttachToMounts | src/fwt/js/WidgetPeer.js:119-125 | besides `w`, attachTo mounts a widget iff it is reached from one of `w`'s kids through unmounted widgets |
| AttachProofs.AttachGrows | src/fwt/js/WidgetPeer.js:94-109 | every widget attach mounts gets an element synced from its peer, carrying its mouse-down listeners, under its parent's element; old elements change only by new children |
| AttachProofs.KidsGrows | src/fwt/js/WidgetPeer.js:119-125 | the kid loop of attachTo keeps these facts and leaves every old element but `w`'s as it was |
| AttachProofs.CreateStep | src/fwt/js/WidgetPeer.js:103-116 | create, bind, sync and listener registration give `w` the next element id and touch no other peer |
| AttachProofs.AttachPeers | src/fwt/js/WidgetPeer.js:94-126 | attach only mounts peers, only below `w`, and each mounted widget other than `w` has a parent mounted by the same call |
| AttachProofs.KidsPeers | src/fwt/js/WidgetPeer.js:119-125 | after the first i kid attachments only widgets strictly below `w` are mounted, and a kid of `w` mounted is among the first i |
| AttachProofs.MountsReach | src/fwt/js/WidgetPeer.js:97-101 | a widget attach mounts was unmounted with an unmounted path up to `w` |
| AttachProofs.AttachComplete | src/fwt/js/WidgetPeer.js:94-126 | when `w` is unmounted and its parent is mounted, every widget reached from `w` through unmounted widgets is mounted by attach |
| AttachProofs.KidsComplete | src/fwt/js/WidgetPeer.js:119-125 | what the first i kid attachments reach is mounted |
| AttachProofs.AttachKeeps | src/fwt/js/WidgetPeer.js:97 | attach never unmounts a widget |
| RelayoutProofs.RelayoutSpec | src/fwt/js/WidgetPeer.js:19-35 | relayout is a no-op on an unmounted widget; otherwise it keeps the invariants and `w`'s peer, syncs `w`'s element, changes only geometry strictly below `w` and styles of elements held in its subtree |
| RelayoutProofs.RelayoutKid | src/fwt/js/WidgetPeer.js:24-32 | after relayout each kid carries the bounds onLayout (run after the sync) gave it, and its element is synced from them |
| RelayoutProofs.RelayoutFrame | src/fwt/js/WidgetPeer.js:19-35 | what relayout may change: geometry strictly below `w`, styles of elements held in the subtree, never links, listeners or handles |
| RelayoutProofs.RelayoutKidsFrame | src/fwt/js/WidgetPeer.js:27-32 | the kid loop changes geometry and styles strictly below `w` only |
| RelayoutProofs.RelayoutOwn | src/fwt/js/WidgetPeer.js:24 | after relayout the widget's own element shows its synced peer, which later kids do not overwrite |
| RelayoutProofs.KidStays | src/fwt/js/WidgetPeer.js:27-32 | a kid relaid out keeps its peer and synced style while the later kids are relaid out |
| RelayoutProofs.SyncLaid | src/fwt/js/WidgetPeer.js:24-25 | the state before the kid loop is the sync of `w` followed by onLayout |
| PeerProofs.SyncSpec | src/fwt/js/WidgetPeer.js:170-187 | sync rewrites only the style of this element, keeps every peer and the invariants |
| PeerProofs.SyncTwice | src/fwt/js/WidgetPeer.js:170-187 | of two syncs only the last shows |
| PeerProofs.SyncIdempotent | src/fwt/js/WidgetPeer.js:170-187 | a repeated sync changes nothing |
| PeerProofs.PrefSizeSpec | src/fwt/js/WidgetPeer.js:51-68 | returns the measure of the element synced with width/height auto; afterwards display/left/top are synced but width/height are those read before the call; no peer and no other element changes |
| PeerProofs.PrefSizeTwice | src/fwt/js/WidgetPeer.js:51-68 | asking twice gives the same size and state as asking once |
| PeerProofs.PrefSizeSynced | src/fwt/js/WidgetPeer.js:51-68 | on an element already synced, prefSize leaves the state as it was |
| PeerProofs.DetachSpec | src/fwt/js/WidgetPeer.js:159-164 | detach takes the element out of its parent's child list, clears its parent link and `w`'s handle only; peers below keep their handles; the invariants survive |
| PeerProofs.DetachThenAttach | src/fwt/js/WidgetPeer.js:94-109 | after detach, attach mounts `w` on a new element but leaves every other mounted peer, including `w`'s mounted kids, as it was |
| PeerProofs.AbsPosAncestors | src/fwt/js/WidgetPeer.js:37-49 | posOnDisplay is the widget's pos plus the sum of its ancestors' pos |
| PeerProofs.AbsPosMove | src/fwt/js/WidgetPeer.js:37-49 | setting `pos` of a widget shifts posOnDisplay of it and of everything below it by the same offset, and of nothing else |
| PeerProofs.SetFieldsKeep | src/fwt/js/WidgetPeer.js:70-84 | the setters keep the invariants and reach the document only at the next sync |
| FStore.U2RoundTrip | src/sys/java/fanx/fcode/FAttrs.java:34 | reading a u2 gives back the two-byte big-endian value written there |
| FStore.SkipCount | src/sys/java/fanx/fcode/FAttrs.java:62 | skip passes over all n bytes exactly when n bytes remain (or n is 0), fewer otherwise |
| FStore.Input.U2 | src/sys/java/fanx/fcode/FAttrs.java:34 | two bytes high first and the cursor moves by 2; EOF when fewer remain |
| FStore.Input.Skip | src/sys/java/fanx/fcode/FAttrs.java:62 | moves the cursor by the count it returns |
| FStore.Input.Name | src/sys/java/fanx/fcode/FAttrs.java:39 | the pod's name step at the cursor |
| FStore.Input.Utf | src/sys/java/fanx/fcode/FAttrs.java:80 | the pod's utf step at the cursor |
| FStore.ReadFBuf | src/sys/java/fanx/fcode/FAttrs.java:69 | the pod's FBuf step at the cursor |
| FAttrsSpec.ClassifyByName | src/sys/java/fanx/fcode/FAttrs.java:42-60 | the first-character switch selects by exact name: each handler runs for its name only, the legacy facets test for OldFacets or Facets at version 0x1000045, the empty name throws, every other name is skipped |
| FAttrsSpec.LastWins | src/sys/java/fanx/fcode/FAttrs.java:67-101 | when a field is written by several records, the last one wins, whatever the earlier ones wrote |
| FAttrsSpec.NeverSet | src/sys/java/fanx/fcode/FAttrs.java:36 | a field no record writes keeps its default |
| FAttrsSpec.ApplyFields | src/sys/java/fanx/fcode/FAttrs.java:67-101 | each handler overwrites its own field whatever it held, and no other |
| FAttrsSpec.PutAllKeys | src/sys/java/fanx/fcode/FAttrs.java:76-83 | the facets map holds exactly the qnames of its entries |
| FAttrsSpec.PutAllLast | src/sys/java/fanx/fcode/FAttrs.java:77-82 | a later entry with the same qname overwrites the earlier one |
| FAttrsSpec.FacetEntries | src/sys/java/fanx/fcode/FAttrs.java:77-82 | m entries decode to m pairs; a failure there is an IOException |
| FAttrsSpec.FacetEntriesFailStays | src/sys/java/fanx/fcode/FAttrs.java:77-82 | once an entry throws, the whole attribute throws that error |
| FAttrsSpec.DecodeRecords | src/sys/java/fanx/fcode/FAttrs.java:37-63 | n records decode to n updates |
| FAttrsSpec.DecodeRecordsFailStays | src/sys/java/fanx/fcode/FAttrs.java:37-63 | once a record throws, read throws that error and reads no further record |
| FCode.FAttrs.constructor | src/sys/java/fanx/fcode/FAttrs.java:107-113 | a new FAttrs has every field at Java's default |
| FCode.FAttrs.ErrTable | src/sys/java/fanx/fcode/FAttrs.java:67-70 | sets errTable to what FBuf.read returns; on an exception no field changes |
| FCode.FAttrs.Facets | src/sys/java/fanx/fcode/FAttrs.java:72-84 | discards a u2, reads m entries into a new map, then replaces facets whole; on an exception no field changes |
| FCode.FAttrs.LineNumber | src/sys/java/fanx/fcode/FAttrs.java:86-90 | discards a u2 and sets lineNum to the next u2 |
| FCode.FAttrs.LineNumbers | src/sys/java/fanx/fcode/FAttrs.java:92-95 | sets lineNums to what FBuf.read returns |
| FCode.FAttrs.SourceFile | src/sys/java/fanx/fcode/FAttrs.java:97-101 | discards a u2 and sets sourceFile to the next utf string |
| FCode.Read | src/sys/java/fanx/fcode/FAttrs.java:32-65 | count 0 returns the shared none, whose fields are all at their defaults; otherwise a new object, never none, holding the records' updates in order, or the exception of the first failing record |
| FCode.ReadRecord | src/sys/java/fanx/fcode/FAttrs.java:39-62 | one record: name, then the handler it selects, or a skip by the u2 length that throws when short |
| FAttrsProofs.ReadZero | src/sys/java/fanx/fcode/FAttrs.java:34-35 | read gives none exactly when the count bytes are 0, after consuming only those two bytes |
| FAttrsProofs.ReadRecords | src/sys/java/fanx/fcode/FAttrs.java:36-64 | for a count n > 0 read never returns the shared none; it throws the first failing record's error, or returns an object in which each field holds what the last record writing it wrote, and its default when no record writes it |
| FAttrsProofs.DecodeRecordsPrefix | src/sys/java/fanx/fcode/FAttrs.java:37-63 | records are consumed in order: every prefix of a decoded run decodes to the prefix of its updates |
| FAttrsProofs.SkipUnknown | src/sys/java/fanx/fcode/FAttrs.java:50-62 | an unhandled name is skipped by exactly its u2 length with no field changed, and throws when fewer bytes remain |
| FAttrsProofs.LineNumberRecord | src/sys/java/fanx/fcode/FAttrs.java:54 | a LineNumber record discards one u2 and sets lineNum to the next, changing nothing else |
| FAttrsProofs.SourceFileRecord | src/sys/java/fanx/fcode/FAttrs.java:58 | a SourceFile record discards one u2 and sets sourceFile to the utf string after it |
| FAttrsProofs.FacetsRecord | src/sys/java/fanx/fcode/FAttrs.java:72-84 | after the discarded u2 and the count, the entries decoded from the bytes give the new facets field: exactly their qnames, each bound to its last entry's value; the cursor ends after the last entry |
| FAttrsProofs.ExampleRead | src/sys/java/fanx/fcode/FAttrs.java:32-65 | on a two-record stream (an unknown attribute, then LineNumber 42), read skips the first and returns lineNum 42 after all 15 bytes |
| FAttrsProofs.ExampleShortSkip | src/sys/java/fanx/fcode/FAttrs.java:61-62 | the same stream cut inside the skipped attribute throws |

## Left out

- The DOM is modelled only as far as the peers use it: a store of elements with a style record,
  a parent link, a child list and a listener log. Removed elements stay in the store, unlinked.
- `emptyDiv` also sets `position: absolute` and `overflow: hidden`. Those style fields are not
  modelled; `left`/`top` "0" are `Px(0)`.
- CSS values are not strings: a pixel value is `Px(n)` rather than `n + "px"`, "auto" is `Auto`,
  and "block"/"none" are enumeration values.
- `attachEvents` calls `addEventListener` or, on old browsers, `attachEvent("on" + event)`. Both
  register the same handlers in the same order, so one listener log models both.
- `offsetWidth`/`offsetHeight` come from the browser's layout engine. `prefSize` takes them as a
  `measure` function of the document and the element. The `hints` argument is unused in the
  source and in the model.
- `onLayout` is a widget callback this file does not define. It is a `LayoutFn` parameter that
  gives new bounds to some kids of the widget; a callback that does anything else is not
  modelled.
- The empty `attached` hook and the commented-out `childAdded` call do nothing and are not
  modelled.
- The peers of one tree are one `Peers` object holding a sequence indexed by widget, not one
  JavaScript object per widget. Prototype-shared defaults become `DefaultPeer` per widget, so
  aliasing between peer objects is not modelled.
- The widget tree is a fixed value. Adding or removing widgets belongs to the widget layer, not
  to the peer.
- JavaScript numbers are doubles. Positions and sizes are unbounded integers: no rounding and no
  overflow.
- WidgetPeer.Peers.Valid: states one peer per widget and live handles only. The document's link
  invariant and distinct handles are proved per operation (`AttachSpec`, `DetachSpec`,
  `RelayoutSpec`, `SyncSpec`, `PrefSizeSpec`) rather than kept as a class invariant.
- AttachProofs.AttachToSpec: requires that no other peer holds `e`. `attachTo` does not check
  this, and neither does `WidgetPeer.Peers.AttachTo`; binding an element another peer holds
  leaves two peers on one element, which the other lemmas exclude.
- WidgetPeer.Peers.Detach: requires a mounted widget whose element has a parent. In the source
  both cases throw a TypeError, and the throw is not modelled.
- WidgetPeer.Peers.Sync: requires a mounted widget, because `with (this.elem.style)` throws on an
  unmounted one. `SyncF` itself leaves an unmounted widget alone. PrefSize has the same
  requirement.
- AttachProofs.AttachSpec: the completeness half is stated with `Reach`: a widget is mounted iff
  it is reached from `w` through unmounted widgets. It is not "every unmounted widget below
  `w`", because `attach` returns at a mounted kid and never visits below it
  (`DetachThenAttach` shows the consequence).
- `FStore.Input`'s own byte layout and the pod steps are deterministic functions inside
  `FStore.Pod`, not code: `name()`, `utf()`, `FBuf.read`, `symbolRef(i).qname()` and
  `Symbol.initVal`. The two latter are total, so an out-of-range symbol index or an unparsable
  facet literal is not modelled. `FConst` is not part of this model; the attribute names are
  those of the fcode format.
- The accessor `facets()` wraps the map with `Facets.make`, which is not part of this model.
- The `System.out.println("TODO: new facets!")` on an 'F' name is output only. The record still
  falls through to the skip, which is modelled.
- FAttrsSpec.Classify: `name == "Facets"` is Java reference equality. It is modelled as string
  equality, which holds only if the pod's name table interns its strings. Otherwise a "Facets"
  record at version 0x1000045 is skipped like any other 'F' name.
- FStore.Input.Skip: `InputStream.skip` may pass over fewer bytes than remain. The model skips
  as many as remain, up to the count, so a short skip happens exactly at the end of the stream.
- Where the cursor stands after an exception, and the exception's message, are not stated.
- Dafny classes have no static fields, so the shared `none` is a parameter of `FCode.Read`. It
  is required to hold every field at its default, as `new FAttrs()` does. The body of `read`'s
  loop is the method `FCode.ReadRecord`.
