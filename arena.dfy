/** All the controls of the program as one value: each per-control field
    of `Control` (and of its `Window` subclass) is a map from the control's
    identity. `ShapeOk` ties the maps together; the lemmas here lift the
    tree lemmas of `Forest` to the whole arena, one per state change. */
module Arenas {
  import opened Wrappers
  import opened Geometry
  import opened Forest

  datatype Arena = Arena(
    parent: map<Id, Option<Id>>,   // `parent_`; `None` is `nullptr`
    children: map<Id, seq<Id>>,    // `children_`, in order
    window: map<Id, Option<Id>>,   // `window_`: the Window a control is attached to
    position: map<Id, Point>,      // `position_`: the lefttop relative to the parent
    cache: map<Id, Point>,         // `position_cache_`: the cached absolute lefttop
    windows: set<Id>,              // the controls whose dynamic type is `Window`
    nextId: Id)                    // the identity the next new control gets

  /** The tree invariants together with the bookkeeping of the arena: every
      per-control map has the same controls, all below `nextId`. */
  ghost predicate ShapeOk(a: Arena, anc: map<Id, seq<Id>>) {
    && Wf(a.parent, a.children, anc, a.windows)
    && a.window.Keys == a.parent.Keys && a.position.Keys == a.parent.Keys && a.cache.Keys == a.parent.Keys
    && forall x | x in a.parent :: x < a.nextId
  }

  /** `ShapeOk` with window back-references that agree with the roots. */
  ghost predicate ArenaOk(a: Arena, anc: map<Id, seq<Id>>) {
    ShapeOk(a, anc) && WindowsOk(a.window, anc, a.windows)
  }

  /** The arena with one more control: a root with no children and no
      window, at `lefttop`, which is a Window when `isWindow`. */
  function Allocated(a: Arena, lefttop: Point, isWindow: bool): (r: Arena)
    ensures r.parent == a.parent[a.nextId := None] && r.children == a.children[a.nextId := []]
    ensures r.window == a.window[a.nextId := None]
    ensures r.position == a.position[a.nextId := lefttop] && r.cache == a.cache[a.nextId := Origin]
    ensures r.windows == (if isWindow then a.windows + {a.nextId} else a.windows)
    ensures r.nextId == a.nextId + 1
  {
    var c := a.nextId;
    Arena(a.parent[c := None], a.children[c := []], a.window[c := None], a.position[c := lefttop],
          a.cache[c := Origin], if isWindow then a.windows + {c} else a.windows, c + 1)
  }

  /** A new control keeps the arena well formed. */
  lemma AllocatedOk(a: Arena, anc: map<Id, seq<Id>>, lefttop: Point, isWindow: bool)
    requires ArenaOk(a, anc)
    ensures a.nextId !in a.parent
    ensures ArenaOk(Allocated(a, lefttop, isWindow), anc[a.nextId := [a.nextId]])
  {
    AddRootOk(a.parent, a.children, anc, a.windows, a.window, a.nextId, isWindow);
  }

  /** The shape does not depend on the values of the window references
      and the cached positions, only on which controls have them. */
  lemma ReframeOk(a: Arena, anc: map<Id, seq<Id>>, window: map<Id, Option<Id>>, cache: map<Id, Point>)
    requires ShapeOk(a, anc)
    requires window.Keys == a.window.Keys && cache.Keys == a.cache.Keys
    ensures ShapeOk(a.(window := window, cache := cache), anc)
  {
  }

  /** The arena with `control` hung under `x` at index `pos` of its
      children; window references and positions are left as they were. */
  function WithChild(a: Arena, x: Id, control: Id, pos: nat): Arena
    requires x in a.children && pos <= |a.children[x]|
  {
    a.(parent := a.parent[control := Some(x)], children := a.children[x := InsertAt(a.children[x], pos, control)])
  }

  /** The arena with child `i` of `x` cut loose. */
  function WithoutChild(a: Arena, x: Id, i: nat): Arena
    requires x in a.children && i < |a.children[x]|
  {
    a.(parent := a.parent[a.children[x][i] := None], children := a.children[x := EraseAt(a.children[x], i)])
  }

  /** What `OnAddChild(x, child)` starts from: the shape holds, `x` is
      above `child`, and the window back-references are right once the
      subtree of `child` is attached to the Window at the root of `x`,
      when there is one. */
  ghost predicate ReadyToAttach(a: Arena, anc: map<Id, seq<Id>>, x: Id, child: Id) {
    && ShapeOk(a, anc) && x in a.parent && child in a.parent && x in anc[child]
    && WindowRefOk(a.window, anc, a.windows, x)
    && (anc[x][0] in a.windows ==> WindowsOk(Retarget(a.window, SubtreeOf(anc, child), Some(anc[x][0])), anc, a.windows))
    && (anc[x][0] !in a.windows ==> WindowsOk(a.window, anc, a.windows))
  }

  /** What `OnRemoveChild(x, child)` starts from: the shape holds and the
      window back-references are right once the subtree of `child` is
      detached, when the root of `x` is a Window. */
  ghost predicate ReadyToDetach(a: Arena, anc: map<Id, seq<Id>>, x: Id, child: Id) {
    && ShapeOk(a, anc) && x in a.parent && child in a.parent
    && WindowRefOk(a.window, anc, a.windows, x)
    && (anc[x][0] in a.windows ==> WindowsOk(Retarget(a.window, SubtreeOf(anc, child), None), anc, a.windows))
    && (anc[x][0] !in a.windows ==> WindowsOk(a.window, anc, a.windows))
  }

  /** Linking keeps the shape, and leaves the arena ready for attaching
      the subtree of `control` (`AddChild`) or of `x` (the positional
      `AddChild`). */
  lemma LinkOk(a: Arena, anc: map<Id, seq<Id>>, x: Id, control: Id, pos: nat)
    requires ArenaOk(a, anc)
    requires x in a.parent && control in a.parent
    requires a.parent[control] == None && control !in a.windows && anc[x][0] != control
    requires pos <= |a.children[x]|
    ensures var a', anc' := WithChild(a, x, control, pos), Linked(anc, x, control);
      && anc'[x] == anc[x] && ReadyToAttach(a', anc', x, control) && ReadyToAttach(a', anc', x, x)
  {
    var anc' := Linked(anc, x, control);
    LinkPreservesWf(a.parent, a.children, anc, a.windows, x, control, pos);
    LinkedShape(a.parent, anc, x, control, x);
    LinkedShape(a.parent, anc, x, control, control);
    assert AncLink(a.parent, anc, control);
    AncLast(a.parent, anc, x);
    assert WindowRefOk(a.window, anc, a.windows, x);
    LinkWindowsOk(a.parent, anc, a.windows, a.window, x, control, control, SubtreeOf(anc', control));
    LinkWindowsOk(a.parent, anc, a.windows, a.window, x, control, x, SubtreeOf(anc', x));
  }

  /** Cutting child `i` of `x` loose keeps the shape and leaves the arena
      ready for detaching the child's subtree. */
  lemma UnlinkOk(a: Arena, anc: map<Id, seq<Id>>, x: Id, i: nat)
    requires ArenaOk(a, anc)
    requires x in a.parent && i < |a.children[x]|
    ensures var c := a.children[x][i];
      var anc' := Unlinked(anc, x, c);
      && anc'[x] == anc[x] && ReadyToDetach(WithoutChild(a, x, i), anc', x, c)
  {
    var c := a.children[x][i];
    var anc' := Unlinked(anc, x, c);
    UnlinkPreservesWf(a.parent, a.children, anc, a.windows, x, i);
    assert a.parent[c] == Some(x);
    UnlinkedShape(a.parent, anc, x, c, x);
    AncLast(a.parent, anc, x);
    AncDistinct(a.parent, anc, x);
    assert c !in anc[x] by {
      assert AncLink(a.parent, anc, c);
      AncDistinct(a.parent, anc, c);
      forall k | 0 <= k < |anc[x]|
        ensures anc[x][k] != c
      {
        assert anc[c][k] == anc[x][k];
        assert anc[c][|anc[x]|] == c;
      }
    }
    assert WindowRefOk(a.window, anc, a.windows, x);
    UnlinkWindowsOk(a.parent, anc, a.windows, a.window, x, c, SubtreeOf(anc', c));
  }

  // ---------------------------------------------------------------------
  // The position cache

  /** The position cache is right for every control attached to a Window:
      it holds the relative lefttops summed along the ancestor list.
      Controls outside a Window's tree are refreshed when they are attached,
      so their cache is not constrained. */
  ghost predicate CacheOk(a: Arena, anc: map<Id, seq<Id>>) {
    && AncOk(a.parent, anc) && a.parent.Keys <= a.position.Keys && a.parent.Keys <= a.cache.Keys
    && forall y | y in a.parent && anc[y][0] in a.windows ::
         a.cache[y] == Absolute(a.parent, anc, Offsets(a.position, a.windows), y)
  }

  /** A Window that is a root sits at the origin. */
  lemma RootWindowAtOrigin(parent: map<Id, Option<Id>>, anc: map<Id, seq<Id>>, position: map<Id, Point>,
                           windows: set<Id>, w: Id)
    requires AncOk(parent, anc) && parent.Keys <= position.Keys && w in parent && anc[w] == [w] && w in windows
    ensures Absolute(parent, anc, Offsets(position, windows), w) == Origin
  {
    var offset := Offsets(position, windows);
    assert offset[w] == Origin;
    assert [w][..0] == [];
    assert PathOffset(offset, [w]) == AddPoints(Origin, offset[w]);
  }

  /** `CacheOk` for an older control `y` after a new control `c` is added:
      the path of `y` does not go through `c`. */
  lemma AllocatedCacheOld(a: Arena, anc: map<Id, seq<Id>>, lefttop: Point, isWindow: bool, y: Id)
    requires CacheOk(a, anc) && forall z | z in a.parent :: z < a.nextId
    requires y in a.parent
    requires AncOk(a.parent[a.nextId := None], anc[a.nextId := [a.nextId]])
    ensures var b, anc' := Allocated(a, lefttop, isWindow), anc[a.nextId := [a.nextId]];
      anc'[y][0] in b.windows ==> b.cache[y] == Absolute(b.parent, anc', Offsets(b.position, b.windows), y)
  {
    var c, b, anc' := a.nextId, Allocated(a, lefttop, isWindow), anc[a.nextId := [a.nextId]];
    var offset, offset' := Offsets(a.position, a.windows), Offsets(b.position, b.windows);
    AncInTree(a.parent, anc, y);
    assert anc'[y] == anc[y] && anc[y][0] in a.parent;
    forall i | 0 <= i < |anc[y]|
      ensures anc[y][i] in offset && anc[y][i] in offset' && offset[anc[y][i]] == offset'[anc[y][i]]
    {
      assert anc[y][i] != c;
    }
    PathOffsetFrame(offset, offset', anc[y]);
    var r := anc[y][0];
    assert r != c && b.windows - {c} == a.windows - {c};
    if r in b.windows {
      assert r in a.windows;
      assert b.cache[y] == a.cache[y] == Absolute(a.parent, anc, offset, y);
    }
  }

  /** A new control keeps the cache right: a new Window is its own root at
      the origin, and no other control's path goes through it. */
  lemma AllocatedCacheOk(a: Arena, anc: map<Id, seq<Id>>, lefttop: Point, isWindow: bool)
    requires ArenaOk(a, anc) && CacheOk(a, anc)
    ensures CacheOk(Allocated(a, lefttop, isWindow), anc[a.nextId := [a.nextId]])
  {
    var b, anc' := Allocated(a, lefttop, isWindow), anc[a.nextId := [a.nextId]];
    AllocatedOk(a, anc, lefttop, isWindow);
    forall y | y in b.parent && anc'[y][0] in b.windows
      ensures b.cache[y] == Absolute(b.parent, anc', Offsets(b.position, b.windows), y)
    {
      if y == a.nextId {
        RootWindowAtOrigin(b.parent, anc', b.position, b.windows, y);
      } else {
        AllocatedCacheOld(a, anc, lefttop, isWindow, y);
      }
    }
  }

  /** `CacheOk` for one control after `control` is hung under `x`, given
      the cache `OnAddChild` leaves behind in `b`. */
  lemma LinkCacheAt(a: Arena, anc: map<Id, seq<Id>>, x: Id, control: Id, b: Arena, y: Id)
    requires CacheOk(a, anc)
    requires x in a.parent && control in a.parent && a.parent[control] == None && anc[x][0] != control
    requires b.parent == a.parent[control := Some(x)] && b.position == a.position && b.windows == a.windows
    requires AncOk(b.parent, Linked(anc, x, control)) && b.cache.Keys == a.cache.Keys
    requires anc[x][0] !in a.windows ==> b.cache == a.cache
    requires anc[x][0] in a.windows ==> forall z | z in b.parent ::
      b.cache[z] == if x in Linked(anc, x, control)[z]
                    then Absolute(b.parent, Linked(anc, x, control), Offsets(b.position, b.windows), z)
                    else a.cache[z]
    requires y in b.parent && Linked(anc, x, control)[y][0] in b.windows
    ensures b.cache[y] == Absolute(b.parent, Linked(anc, x, control), Offsets(b.position, b.windows), y)
  {
    var anc' := Linked(anc, x, control);
    LinkedShape(a.parent, anc, x, control, y);
    AncLast(a.parent, anc, x);
    if control in anc[y] {
      assert anc'[y][0] == anc[x][0];
      assert x in anc'[y];
    } else {
      assert anc'[y] == anc[y];
    }
  }

  /** Hanging `control` under `x` and running `OnAddChild` keeps the cache
      right: the moved subtree lies under `x`, which is refreshed when its
      root is a Window, and every other ancestor list is unchanged. */
  lemma LinkCacheOk(a: Arena, anc: map<Id, seq<Id>>, x: Id, control: Id, b: Arena)
    requires ArenaOk(a, anc) && CacheOk(a, anc)
    requires x in a.parent && control in a.parent && a.parent[control] == None && anc[x][0] != control
    requires b.parent == a.parent[control := Some(x)] && b.position == a.position && b.windows == a.windows
    requires AncOk(b.parent, Linked(anc, x, control)) && b.cache.Keys == a.cache.Keys
    requires anc[x][0] !in a.windows ==> b.cache == a.cache
    requires anc[x][0] in a.windows ==> forall z | z in b.parent ::
      b.cache[z] == if x in Linked(anc, x, control)[z]
                    then Absolute(b.parent, Linked(anc, x, control), Offsets(b.position, b.windows), z)
                    else a.cache[z]
    ensures CacheOk(b, Linked(anc, x, control))
  {
    var anc' := Linked(anc, x, control);
    forall y | y in b.parent && anc'[y][0] in b.windows
      ensures b.cache[y] == Absolute(b.parent, anc', Offsets(b.position, b.windows), y)
    {
      LinkCacheAt(a, anc, x, control, b, y);
    }
  }

  /** `CacheOk` for one control after child `c` of `x` is cut loose: the
      subtree of `c` now has `c` as its root, which is not a Window. */
  lemma UnlinkCacheAt(a: Arena, anc: map<Id, seq<Id>>, x: Id, c: Id, b: Arena, y: Id)
    requires CacheOk(a, anc)
    requires c in a.parent && a.parent[c] == Some(x) && c !in a.windows
    requires b.parent == a.parent[c := None] && b.position == a.position && b.windows == a.windows && b.cache == a.cache
    requires AncOk(b.parent, Unlinked(anc, x, c))
    requires y in b.parent && Unlinked(anc, x, c)[y][0] in b.windows
    ensures b.cache[y] == Absolute(b.parent, Unlinked(anc, x, c), Offsets(b.position, b.windows), y)
  {
    UnlinkedShape(a.parent, anc, x, c, y);
    UnlinkedRoot(a.parent, anc, x, c, y);
  }

  /** Once child `c` of `x` is cut loose, it is the root of every control
      of its subtree. */
  lemma UnlinkedRoot(parent: map<Id, Option<Id>>, anc: map<Id, seq<Id>>, x: Id, c: Id, y: Id)
    requires AncOk(parent, anc) && c in parent && parent[c] == Some(x) && y in parent
    ensures c in anc[y] ==> |Unlinked(anc, x, c)[y]| > 0 && Unlinked(anc, x, c)[y][0] == c
  {
    if c in anc[y] {
      UnlinkedShape(parent, anc, x, c, y);
      assert AncLink(parent, anc, c);
      AncestorAt(parent, anc, y, c);
      assert Unlinked(anc, x, c)[y][0] == anc[y][|anc[x]|] == anc[c][|anc[x]|] == c;
    }
  }

  /** Cutting a child loose keeps the cache right: its subtree leaves the
      Window's tree, and every other ancestor list is unchanged. */
  lemma UnlinkCacheOk(a: Arena, anc: map<Id, seq<Id>>, x: Id, c: Id, b: Arena)
    requires ArenaOk(a, anc) && CacheOk(a, anc)
    requires c in a.parent && a.parent[c] == Some(x)
    requires b.parent == a.parent[c := None] && b.position == a.position && b.windows == a.windows && b.cache == a.cache
    requires AncOk(b.parent, Unlinked(anc, x, c))
    ensures CacheOk(b, Unlinked(anc, x, c))
  {
    var anc' := Unlinked(anc, x, c);
    forall y | y in b.parent && anc'[y][0] in b.windows
      ensures b.cache[y] == Absolute(b.parent, anc', Offsets(b.position, b.windows), y)
    {
      UnlinkCacheAt(a, anc, x, c, b, y);
    }
  }
}
