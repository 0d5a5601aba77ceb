/** The control tree of the UI: every `Control` object, its parent and
    ordered children, the Window its tree is attached to and its cached
    absolute position. The controls live in one `Arena` value indexed by
    `Id`; each per-control field of the source is a map from `Id`. */
module Controls {
  import opened Wrappers
  import opened Geometry
  import opened Forest
  import opened Arenas

  /** What a visitor returns to `foreachChild`: go on, or stop here. */
  datatype FlowControl = Continue | Break

  /** The `std::invalid_argument` errors of the child operations. */
  datatype TreeError =
    | AlreadyHasParent    // the control to add already has a parent
    | WindowAsChild       // the control to add is a Window
    | WouldCreateCycle    // the control to add is the root of the receiver
    | PositionOutOfRange  // the insertion or removal index is out of range
    | NotAChild           // the control to remove is not a child

  /** The part of the subtree of `x` a refresh has reached once it has
      done the first `i` of the children `kids` of `x`: `x` and the
      subtrees of those children. */
  ghost function Reached(anc: map<Id, seq<Id>>, kids: seq<Id>, x: Id, i: nat): set<Id>
    requires i <= |kids|
  {
    if i == 0 then {x} else Reached(anc, kids, x, i - 1) + SubtreeOf(anc, kids[i - 1])
  }

  /** A control other than `x` is reached only through one of the first
      `i` children, whose index is returned. */
  lemma {:induction false} ReachedThrough(anc: map<Id, seq<Id>>, kids: seq<Id>, x: Id, i: nat, y: Id) returns (j: nat)
    requires i <= |kids| && y in Reached(anc, kids, x, i) && y != x
    ensures j < i && y in anc && kids[j] in anc[y]
    decreases i
  {
    if y in Reached(anc, kids, x, i - 1) {
      j := ReachedThrough(anc, kids, x, i - 1, y);
    } else {
      j := i - 1;
    }
  }

  /** A control other than `x` under none of the first `i` children is
      not reached. */
  lemma {:induction false} NotReachedThrough(anc: map<Id, seq<Id>>, kids: seq<Id>, x: Id, i: nat, y: Id)
    requires i <= |kids| && y != x
    requires forall j | 0 <= j < i :: y !in anc || kids[j] !in anc[y]
    ensures y !in Reached(anc, kids, x, i)
    decreases i
  {
    if i > 0 {
      NotReachedThrough(anc, kids, x, i - 1, y);
    }
  }

  /** A control under a later child `k` has not been reached yet. */
  lemma NotReachedYet(parent: map<Id, Option<Id>>, children: map<Id, seq<Id>>, anc: map<Id, seq<Id>>,
                      windows: set<Id>, x: Id, i: nat, k: nat, y: Id)
    requires Wf(parent, children, anc, windows) && x in parent && i <= k < |children[x]|
    requires y in parent && children[x][k] in anc[y]
    ensures y !in Reached(anc, children[x], x, i)
  {
    var kids := children[x];
    UnderChild(parent, children, anc, windows, x, kids[k], y);
    forall j | 0 <= j < i
      ensures y !in anc || kids[j] !in anc[y]
    {
      if kids[j] in anc[y] {
        UnderChild(parent, children, anc, windows, x, kids[j], y);
        assert false;
      }
    }
    NotReachedThrough(anc, kids, x, i, y);
  }

  /** Everything reached lies in the subtree of `x`. */
  lemma ReachedBelow(parent: map<Id, Option<Id>>, children: map<Id, seq<Id>>, anc: map<Id, seq<Id>>,
                     windows: set<Id>, x: Id, i: nat, y: Id)
    requires Wf(parent, children, anc, windows) && x in parent && i <= |children[x]|
    requires y in Reached(anc, children[x], x, i)
    ensures y in parent && x in anc[y]
  {
    if y == x {
      AncLast(parent, anc, x);
    } else {
      var j := ReachedThrough(anc, children[x], x, i, y);
      UnderChild(parent, children, anc, windows, x, children[x][j], y);
    }
  }

  /** A control under child `k` is reached once that child is done. */
  lemma {:induction false} ReachedAfter(anc: map<Id, seq<Id>>, kids: seq<Id>, x: Id, i: nat, k: nat, y: Id)
    requires k < i <= |kids| && y in anc && kids[k] in anc[y]
    ensures y in Reached(anc, kids, x, i)
    decreases i
  {
    if i > k + 1 {
      ReachedAfter(anc, kids, x, i - 1, k, y);
    }
  }

  /** `x` itself is reached from the start. */
  lemma {:induction false} RootReached(anc: map<Id, seq<Id>>, kids: seq<Id>, x: Id, i: nat)
    requires i <= |kids|
    ensures x in Reached(anc, kids, x, i)
    decreases i
  {
    if i > 0 {
      RootReached(anc, kids, x, i - 1);
    }
  }

  /** Once every child is done, exactly the subtree of `x` is reached. */
  lemma ReachedAll(parent: map<Id, Option<Id>>, children: map<Id, seq<Id>>, anc: map<Id, seq<Id>>,
                   windows: set<Id>, x: Id, y: Id)
    requires Wf(parent, children, anc, windows) && x in parent && y in parent
    ensures y in Reached(anc, children[x], x, |children[x]|) <==> x in anc[y]
  {
    if y in Reached(anc, children[x], x, |children[x]|) {
      ReachedBelow(parent, children, anc, windows, x, |children[x]|, y);
    } else if y == x {
      RootReached(anc, children[x], x, |children[x]|);
    } else if x in anc[y] {
      BelowChild(parent, children, anc, windows, x, y);
      var c := anc[y][|anc[x]|];
      var k :| 0 <= k < |children[x]| && children[x][k] == c;
      ReachedAfter(anc, children[x], x, |children[x]|, k, y);
    }
  }

  /** Refreshing child `i` of `x`, seen from one control `y`: `y` is newly
      reached exactly when it lies under that child, and its position
      computed from the child, at the new lefttop of `x`, is the one
      computed from `x`. */
  lemma RefreshStepAt(parent: map<Id, Option<Id>>, children: map<Id, seq<Id>>, anc: map<Id, seq<Id>>,
                      windows: set<Id>, offset: map<Id, Point>, x: Id, i: nat, y: Id, base: Point)
    requires Wf(parent, children, anc, windows) && parent.Keys <= offset.Keys
    requires x in parent && i < |children[x]| && y in parent
    ensures var c := children[x][i];
      && (y in Reached(anc, children[x], x, i + 1) <==> y in Reached(anc, children[x], x, i) || c in anc[y])
      && (c in anc[y] ==>
            && y !in Reached(anc, children[x], x, i) && x in anc[y]
            && RefreshedAt(parent, anc, offset, x, y, base) == RefreshedAt(parent, anc, offset, c, y, AddPoints(base, offset[x])))
  {
    var c := children[x][i];
    if c in anc[y] {
      NotReachedYet(parent, children, anc, windows, x, i, i, y);
      PathStep(parent, children, anc, windows, offset, x, c, y);
    }
  }

  /** The cache once the refresh of `x` from `base` has done its first `i`
      children: the reached controls hold their positions computed from
      `x`, the others their old cached positions. */
  ghost function PartlyRefreshed(a: Arena, anc: map<Id, seq<Id>>, x: Id, base: Point, i: nat): (r: map<Id, Point>)
    requires AncOk(a.parent, anc) && a.parent.Keys <= a.position.Keys && x in a.children && i <= |a.children[x]|
    ensures r.Keys == a.cache.Keys
  {
    map y | y in a.cache ::
      if y in a.parent && x in anc[y] && y in Reached(anc, a.children[x], x, i)
      then RefreshedAt(a.parent, anc, Offsets(a.position, a.windows), x, y, base)
      else a.cache[y]
  }

  /** Storing the new lefttop of `x` starts the refresh. */
  lemma RefreshStart(a: Arena, anc: map<Id, seq<Id>>, x: Id, base: Point)
    requires AncOk(a.parent, anc) && a.parent.Keys <= a.position.Keys && x in a.parent && x in a.children && x in a.cache
    ensures a.cache[x := AddPoints(base, RelativeLefttop(a.position, a.windows, x))] == PartlyRefreshed(a, anc, x, base, 0)
  {
    RefreshedAtSelf(a.parent, anc, Offsets(a.position, a.windows), x, base);
  }

  /** Two maps with the same keys and the same value at each key are equal. */
  lemma SameMaps(m: map<Id, Point>, m': map<Id, Point>)
    requires m.Keys == m'.Keys && forall y | y in m :: m[y] == m'[y]
    ensures m == m'
  {
  }

  /** Refreshing child `i` of `x` from the new lefttop of `x`, seen from
      one control `y`: the reached part grows by the subtree of that child,
      with the positions computed from `x`. */
  lemma RefreshCacheStepAt(a: Arena, anc: map<Id, seq<Id>>, x: Id, i: nat, base: Point, mid: map<Id, Point>, y: Id)
    requires ShapeOk(a, anc) && x in a.parent && i < |a.children[x]| && y in a.cache
    requires mid == PartlyRefreshed(a, anc, x, base, i)
    ensures RefreshedCache(a.(cache := mid), anc, a.children[x][i], AddPoints(base, RelativeLefttop(a.position, a.windows, x)))[y]
      == PartlyRefreshed(a, anc, x, base, i + 1)[y]
  {
    RefreshStepAt(a.parent, a.children, anc, a.windows, Offsets(a.position, a.windows), x, i, y, base);
  }

  /** The caches before (`mid`) and after (`next`) refreshing child `i` of
      `x`. */
  lemma RefreshCacheStep(a: Arena, anc: map<Id, seq<Id>>, x: Id, i: nat, base: Point,
                         mid: map<Id, Point>, next: map<Id, Point>)
    requires ShapeOk(a, anc) && x in a.parent && i < |a.children[x]|
    requires mid == PartlyRefreshed(a, anc, x, base, i)
    requires next == RefreshedCache(a.(cache := mid), anc, a.children[x][i], AddPoints(base, RelativeLefttop(a.position, a.windows, x)))
    ensures next == PartlyRefreshed(a, anc, x, base, i + 1)
  {
    var after := PartlyRefreshed(a, anc, x, base, i + 1);
    forall y | y in a.cache
      ensures next[y] == after[y]
    {
      RefreshCacheStepAt(a, anc, x, i, base, mid, y);
    }
    SameMaps(next, after);
  }

  /** The cache of `a` once the subtree of `x` holds the positions
      computed from `base`, the absolute lefttop of the parent of `x`;
      every other control keeps its cached position. */
  ghost function RefreshedCache(a: Arena, anc: map<Id, seq<Id>>, x: Id, base: Point): map<Id, Point>
    requires AncOk(a.parent, anc) && a.parent.Keys <= a.position.Keys
  {
    map y | y in a.cache ::
      if y in a.parent && x in anc[y] then RefreshedAt(a.parent, anc, Offsets(a.position, a.windows), x, y, base) else a.cache[y]
  }

  /** The cache of `a` once the subtree of `x` holds the absolute
      positions; every other control keeps its cached position. */
  ghost function AbsoluteCache(a: Arena, anc: map<Id, seq<Id>>, x: Id): map<Id, Point>
    requires AncOk(a.parent, anc) && a.parent.Keys <= a.position.Keys
  {
    map y | y in a.cache ::
      if y in a.parent && x in anc[y] then Absolute(a.parent, anc, Offsets(a.position, a.windows), y) else a.cache[y]
  }

  /** With every child done, the cache holds the refreshed positions of
      the whole subtree of `x`. */
  lemma RefreshEnd(a: Arena, anc: map<Id, seq<Id>>, x: Id, base: Point)
    requires ShapeOk(a, anc) && x in a.parent
    ensures PartlyRefreshed(a, anc, x, base, |a.children[x]|) == RefreshedCache(a, anc, x, base)
  {
    var done, refreshed := PartlyRefreshed(a, anc, x, base, |a.children[x]|), RefreshedCache(a, anc, x, base);
    forall y | y in a.cache
      ensures done[y] == refreshed[y]
    {
      ReachedAll(a.parent, a.children, anc, a.windows, x, y);
    }
    SameMaps(done, refreshed);
  }

  /** `RefreshedIsAbsolute` for one control `y`. */
  lemma RefreshedIsAbsoluteAt(a: Arena, anc: map<Id, seq<Id>>, x: Id, base: Point, y: Id)
    requires ShapeOk(a, anc) && x in a.parent && y in a.cache
    requires base == PathOffset(Offsets(a.position, a.windows), Above(a.parent, anc, x))
    ensures RefreshedCache(a, anc, x, base)[y] == AbsoluteCache(a, anc, x)[y]
  {
    if y in a.parent && x in anc[y] {
      PathSplit(a.parent, anc, Offsets(a.position, a.windows), x, y);
    }
  }

  /** Refreshing the subtree of `x` from the sum of the offsets above `x`
      puts the absolute positions into the cache. */
  lemma RefreshedIsAbsolute(a: Arena, anc: map<Id, seq<Id>>, x: Id, base: Point)
    requires ShapeOk(a, anc) && x in a.parent
    requires base == PathOffset(Offsets(a.position, a.windows), Above(a.parent, anc, x))
    ensures RefreshedCache(a, anc, x, base) == AbsoluteCache(a, anc, x)
  {
    var refreshed, absolute := RefreshedCache(a, anc, x, base), AbsoluteCache(a, anc, x);
    forall y | y in a.cache
      ensures refreshed[y] == absolute[y]
    {
      RefreshedIsAbsoluteAt(a, anc, x, base, y);
    }
    SameMaps(refreshed, absolute);
  }

  /** The walk of `FindLowestCommonAncestor` down two root-first ancestor
      lists with the same root: the last entry of their common prefix. */
  method LastSharedEntry(ll: seq<Id>, rl: seq<Id>) returns (z: Id)
    requires |ll| > 0 && |rl| > 0 && ll[0] == rl[0]
    ensures 0 < CommonPrefix(ll, rl) && z == ll[CommonPrefix(ll, rl) - 1] == rl[CommonPrefix(ll, rl) - 1]
  {
    var i := 0;
    while true
      invariant 0 <= i <= |ll| && i <= |rl| && forall k | 0 <= k < i :: ll[k] == rl[k]
      decreases |ll| - i
    {
      CommonPrefixMaximal(ll, rl, i);
      if i == |ll| {
        return ll[i - 1];
      }
      if i == |rl| {
        return rl[i - 1];
      }
      if ll[i] != rl[i] {
        return ll[i - 1];
      }
      i := i + 1;
    }
  }

  /** `std::find` on a child list: the index of the first occurrence of
      `child`, or the length of the list when there is none. */
  method Find(kids: seq<Id>, child: Id) returns (i: nat)
    ensures i <= |kids|
    ensures i < |kids| ==> kids[i] == child
    ensures forall j | 0 <= j < i :: kids[j] != child
  {
    i := 0;
    while i < |kids| && kids[i] != child
      invariant i <= |kids| && forall j | 0 <= j < i :: kids[j] != child
    {
      i := i + 1;
    }
  }

  /** `TraverseDescendants_`: visits `x`, then the subtree of each child
      in order; the result is the order of the visits. */
  method TraverseDescendantsFrom(a: Arena, ghost anc: map<Id, seq<Id>>, x: Id) returns (visited: seq<Id>)
    requires Wf(a.parent, a.children, anc, a.windows) && x in a.parent
    ensures visited == PreOrder(a.parent, a.children, anc, a.windows, x)
    decreases Unvisited(a.parent, anc, x)
  {
    visited := [x];
    var i := 0;
    while i < |a.children[x]|
      invariant i <= |a.children[x]|
      invariant visited + PreOrderFrom(a.parent, a.children, anc, a.windows, x, i)
        == PreOrder(a.parent, a.children, anc, a.windows, x)
    {
      ChildShrinks(a.parent, a.children, anc, a.windows, x, i);
      var sub := TraverseDescendantsFrom(a, anc, a.children[x][i]);
      visited := visited + sub;
      i := i + 1;
    }
  }

  /** `GetAncestorList`: the controls from the root down to `x`, found by
      following `parent` up and prepending. */
  method GetAncestorList(parent: map<Id, Option<Id>>, ghost anc: map<Id, seq<Id>>, x: Option<Id>) returns (l: seq<Id>)
    requires AncOk(parent, anc) && (x.Some? ==> x.value in parent)
    ensures x.None? ==> l == []
    ensures x.Some? ==> l == anc[x.value]
  {
    l := [];
    var c := x;
    while c.Some?
      invariant c.Some? ==> x.Some? && c.value in parent && anc[x.value] == anc[c.value] + l
      invariant c.None? ==> (x.None? ==> l == []) && (x.Some? ==> l == anc[x.value])
      decreases if c.Some? then |anc[c.value]| else 0
    {
      assert AncLink(parent, anc, c.value);
      l := [c.value] + l;
      c := parent[c.value];
    }
  }

  /** `FindLowestCommonAncestor`: null for a null argument or two
      different trees, otherwise the lowest control above both. */
  method FindLowestCommonAncestor(parent: map<Id, Option<Id>>, ghost anc: map<Id, seq<Id>>,
                                  left: Option<Id>, right: Option<Id>) returns (z: Option<Id>)
    requires AncOk(parent, anc)
    requires left.Some? ==> left.value in parent
    requires right.Some? ==> right.value in parent
    ensures z == Lca(parent, anc, left, right)
  {
    if left.None? || right.None? {
      return None;
    }
    var ll := GetAncestorList(parent, anc, left);
    var rl := GetAncestorList(parent, anc, right);
    if ll[0] != rl[0] {
      return None;
    }
    var last := LastSharedEntry(ll, rl);
    return Some(last);
  }

  /** The loop of `InvalidatePositionCache`: walks up the parents of `x`,
      summing their lefttops relative to their own parents. */
  method SumOffsetsAbove(parent: map<Id, Option<Id>>, position: map<Id, Point>, windows: set<Id>,
                         ghost anc: map<Id, seq<Id>>, x: Id) returns (point: Point)
    requires AncOk(parent, anc) && x in parent && parent.Keys <= position.Keys
    ensures point == PathOffset(Offsets(position, windows), Above(parent, anc, x))
  {
    ghost var offset := Offsets(position, windows);
    point := Origin;
    var p := x;
    AncLast(parent, anc, x);
    AncInTree(parent, anc, x);
    while parent[p].Some?
      invariant p in parent && p in anc[x] && 1 <= |anc[p]| <= |anc[x]|
      invariant anc[x][|anc[p]| - 1] == p
      invariant point == PathOffset(offset, anc[x][|anc[p]| - 1..|anc[x]| - 1])
      decreases |anc[p]|
    {
      var q := parent[p].value;
      assert AncLink(parent, anc, p);
      AncestorAt(parent, anc, x, p);
      AncLast(parent, anc, q);
      assert anc[x][|anc[q]| - 1] == anc[p][|anc[q]| - 1] == q;
      assert anc[x][|anc[q]| - 1..|anc[x]| - 1] == [q] + anc[x][|anc[p]| - 1..|anc[x]| - 1];
      PathOffsetAppend(offset, [q], anc[x][|anc[p]| - 1..|anc[x]| - 1]);
      assert [q][..0] == [];
      point := AddPoints(point, RelativeLefttop(position, windows, q));
      p := q;
    }
    assert AncLink(parent, anc, p);
    assert anc[x][..|anc[x]| - 1] == Above(parent, anc, x);
  }

  /** The loop of `GetAncestor`: follows `parent` up from `x` until a
      control without a parent, which is the root of `x`. */
  method TopOfParentChain(parent: map<Id, Option<Id>>, ghost anc: map<Id, seq<Id>>, x: Id) returns (r: Id)
    requires AncOk(parent, anc) && x in parent
    ensures r in parent && parent[r].None? && r == anc[x][0]
  {
    r := x;
    AncLast(parent, anc, x);
    while parent[r].Some?
      invariant r in parent && r in anc[x]
      decreases |anc[r]|
    {
      assert AncLink(parent, anc, r);
      AncestorAt(parent, anc, x, r);
      var p := parent[r].value;
      AncLast(parent, anc, p);
      assert anc[x][|anc[p]| - 1] == anc[r][|anc[p]| - 1] == p;
      r := p;
    }
    assert AncLink(parent, anc, r);
    AncestorAt(parent, anc, x, r);
  }

  /** The recursion of `RefreshDescendantPositionCache` on the arena `a`:
      stores the absolute lefttop of `x`, computed from `base`, then
      refreshes each child from it in turn; the result is the cache map
      afterwards. */
  method RefreshSubtree(a: Arena, ghost anc: map<Id, seq<Id>>, x: Id, base: Point) returns (cache: map<Id, Point>)
    requires ShapeOk(a, anc) && x in a.parent
    ensures cache == RefreshedCache(a, anc, x, base)
    decreases Unvisited(a.parent, anc, x)
  {
    var lefttop := AddPoints(base, RelativeLefttop(a.position, a.windows, x));
    cache := a.cache[x := lefttop];
    RefreshStart(a, anc, x, base);
    var i := 0;
    while i < |a.children[x]|
      invariant 0 <= i <= |a.children[x]| && cache == PartlyRefreshed(a, anc, x, base, i)
    {
      ChildShrinks(a.parent, a.children, anc, a.windows, x, i);
      ReframeOk(a, anc, a.window, cache);
      var next := RefreshSubtree(a.(cache := cache), anc, a.children[x][i], lefttop);
      RefreshCacheStep(a, anc, x, i, base, cache, next);
      cache := next;
      i := i + 1;
    }
    RefreshEnd(a, anc, x, base);
  }

  class ControlTree {
    /** Every control's fields, as maps from its identity. */
    var arena: Arena
    /** The ancestor list of each control, root first. */
    ghost var anc: map<Id, seq<Id>>

    constructor ()
      ensures ArenaOk(arena, anc) && CacheOk(arena, anc) && arena.parent == map[] && arena.windows == {}
    {
      arena := Arena(map[], map[], map[], map[], map[], {}, 0);
      anc := map[];
    }

    /** `Control()`: a new control with no parent, no children and no
        window, at `lefttop` relative to its future parent. */
    method NewControl(lefttop: Point) returns (c: Id)
      requires ArenaOk(arena, anc) && CacheOk(arena, anc)
      modifies this
      ensures ArenaOk(arena, anc) && CacheOk(arena, anc) && c !in old(arena.parent) && c !in arena.windows
      ensures arena.parent == old(arena.parent)[c := None] && arena.children == old(arena.children)[c := []]
      ensures arena.window == old(arena.window)[c := None] && anc == old(anc)[c := [c]]
      ensures arena.position == old(arena.position)[c := lefttop] && arena.cache == old(arena.cache)[c := Origin]
      ensures arena.windows == old(arena.windows)
    {
      c := Allocate(lefttop, false);
    }

    /** The control part of the `Window` constructor: a new root control
        that is a Window. */
    method NewWindow() returns (w: Id)
      requires ArenaOk(arena, anc) && CacheOk(arena, anc)
      modifies this
      ensures ArenaOk(arena, anc) && CacheOk(arena, anc) && w !in old(arena.parent) && w in arena.windows
      ensures arena.parent == old(arena.parent)[w := None] && arena.children == old(arena.children)[w := []]
      ensures arena.window == old(arena.window)[w := None] && anc == old(anc)[w := [w]]
      ensures arena.position == old(arena.position)[w := Origin] && arena.cache == old(arena.cache)[w := Origin]
      ensures arena.windows == old(arena.windows) + {w}
    {
      w := Allocate(Origin, true);
    }

    /** Puts a fresh root control into the arena. */
    method Allocate(lefttop: Point, isWindow: bool) returns (c: Id)
      requires ArenaOk(arena, anc) && CacheOk(arena, anc)
      modifies this
      ensures ArenaOk(arena, anc) && CacheOk(arena, anc) && c !in old(arena.parent)
      ensures arena == Allocated(old(arena), lefttop, isWindow) && c == old(arena.nextId)
      ensures anc == old(anc)[c := [c]]
    {
      c := arena.nextId;
      AllocatedOk(arena, anc, lefttop, isWindow);
      AllocatedCacheOk(arena, anc, lefttop, isWindow);
      arena, anc := Allocated(arena, lefttop, isWindow), anc[c := [c]];
    }

    // -------------------------------------------------------------------
    // Queries

    /** `GetParent`. */
    function GetParent(x: Id): (p: Option<Id>)
      reads this
      requires ShapeOk(arena, anc) && x in arena.parent
      ensures p.Some? ==> p.value in arena.parent && x in arena.children[p.value]
      ensures p.None? <==> anc[x] == [x]
    {
      assert AncLink(arena.parent, anc, x);
      arena.parent[x]
    }

    /** `GetChildren`: a copy of the child list — exactly the controls whose
        parent is `x`, each once. */
    function GetChildren(x: Id): (r: seq<Id>)
      reads this
      requires ShapeOk(arena, anc) && x in arena.parent
      ensures forall y :: y in r <==> y in arena.parent && arena.parent[y] == Some(x)
      ensures Distinct(r)
    {
      arena.children[x]
    }

    /** `GetWindow`: the Window of `x`'s tree when `x` is attached to it. */
    function GetWindow(x: Id): (w: Option<Id>)
      reads this
      requires ArenaOk(arena, anc) && x in arena.parent
      ensures w.Some? ==> anc[x][0] in arena.windows && w.value == anc[x][0]
      ensures anc[x][0] in arena.windows && x != anc[x][0] ==> w.Some?
      ensures anc[x][0] !in arena.windows ==> w.None?
    {
      assert WindowRefOk(arena.window, anc, arena.windows, x);
      arena.window[x]
    }

    /** `foreachChild` with a visitor that always goes on: the children
        visited, in order. */
    method ForeachChild(x: Id) returns (visited: seq<Id>)
      requires x in arena.children
      ensures visited == arena.children[x]
    {
      visited := [];
      for i := 0 to |arena.children[x]|
        invariant visited == arena.children[x][..i]
      {
        visited := visited + [arena.children[x][i]];
      }
    }

    /** `foreachChild` with a visitor that may stop: the children visited,
        which end at the first one for which `visit` answers `Break`. */
    method ForeachChildUntil(x: Id, visit: Id -> FlowControl) returns (visited: seq<Id>)
      requires x in arena.children
      ensures visited <= arena.children[x]
      ensures forall i | 0 <= i < |visited| - 1 :: visit(visited[i]) == Continue
      ensures |visited| < |arena.children[x]| ==> |visited| > 0 && visit(visited[|visited| - 1]) == Break
    {
      var kids := arena.children[x];
      visited := [];
      var i := 0;
      while i < |kids|
        invariant 0 <= i <= |kids| && visited == kids[..i]
        invariant forall j | 0 <= j < i :: visit(kids[j]) == Continue
      {
        var c := kids[i];
        visited := visited + [c];
        if visit(c) == Break {
          return;
        }
        i := i + 1;
      }
    }

    /** `TraverseDescendants`: the order in which the visitor is applied —
        each control of the subtree of `x` once, parents before children. */
    method TraverseDescendants(x: Id) returns (visited: seq<Id>)
      requires ShapeOk(arena, anc) && x in arena.parent
      ensures visited == PreOrder(arena.parent, arena.children, anc, arena.windows, x)
      ensures |visited| > 0 && visited[0] == x && Distinct(visited)
      ensures forall y :: y in visited <==> y in arena.parent && x in anc[y]
    {
      visited := TraverseDescendantsFrom(arena, anc, x);
      PreOrderMembers(arena.parent, arena.children, anc, arena.windows, x);
      PreOrderDistinct(arena.parent, arena.children, anc, arena.windows, x);
    }

    /** `GetAncestor`: the Window when attached to one, otherwise the top of
        the parent chain. */
    method GetAncestor(x: Id) returns (r: Id)
      requires ShapeOk(arena, anc) && x in arena.parent
      ensures arena.window[x].Some? ==> r == arena.window[x].value
      ensures arena.window[x].None? ==> r == anc[x][0]
      ensures WindowRefOk(arena.window, anc, arena.windows, x) ==> r == anc[x][0]
    {
      if arena.window[x].Some? {
        return arena.window[x].value;
      }
      r := TopOfParentChain(arena.parent, anc, x);
    }

    // -------------------------------------------------------------------
    // Positions

    /** `LocalToAbsolute`, from the cached absolute lefttop. */
    function LocalToAbsolute(x: Id, p: Point): (r: Point)
      reads this
      requires x in arena.cache
      ensures AbsoluteToLocal(x, r) == p
    {
      AddPoints(p, arena.cache[x])
    }

    /** `AbsoluteToLocal`, from the cached absolute lefttop. */
    function AbsoluteToLocal(x: Id, p: Point): (r: Point)
      reads this
      requires x in arena.cache
      ensures AddPoints(r, arena.cache[x]) == p
    {
      SubPoints(p, arena.cache[x])
    }

    /** `RefreshDescendantPositionCache`: recomputes the cache of the
        subtree of `x`, given the absolute lefttop of its parent. */
    method RefreshDescendantPositionCache(x: Id, base: Point)
      requires ShapeOk(arena, anc) && x in arena.parent
      modifies this
      ensures anc == old(anc) && arena == old(arena).(cache := RefreshedCache(old(arena), old(anc), x, base))
    {
      var cache := RefreshSubtree(arena, anc, x, base);
      arena := arena.(cache := cache);
    }

    /** `InvalidatePositionCache`: sums the relative lefttops of the proper
        ancestors of `x`, then refreshes the subtree of `x`, whose cached
        positions become the absolute ones. */
    method InvalidatePositionCache(x: Id)
      requires ShapeOk(arena, anc) && x in arena.parent
      modifies this
      ensures anc == old(anc) && arena == old(arena).(cache := AbsoluteCache(old(arena), old(anc), x))
    {
      var point := SumOffsetsAbove(arena.parent, arena.position, arena.windows, anc, x);
      RefreshedIsAbsolute(arena, anc, x, point);
      RefreshDescendantPositionCache(x, point);
    }

    // -------------------------------------------------------------------
    // Focus

    /** `RequestFocus`: asks the Window, when attached to one, to focus
        `x`; `requestFocusFor` is the Window's `RequestFocusFor`. A control
        outside any Window's tree is refused. */
    function RequestFocus(x: Id, requestFocusFor: (Id, Id) -> bool): (r: bool)
      reads this
      requires ArenaOk(arena, anc) && x in arena.parent
      ensures r ==> anc[x][0] in arena.windows && requestFocusFor(anc[x][0], x)
      ensures anc[x][0] in arena.windows && x != anc[x][0] ==> r == requestFocusFor(anc[x][0], x)
    {
      match GetWindow(x)
      case None => false
      case Some(w) => requestFocusFor(w, x)
    }

    /** `HasFocus`, with the null check the source intends (see the
        findings): whether the Window of `x` has `x` as its focus control;
        `focusControl` is the Window's `GetFocusControl`. */
    function HasFocus(x: Id, focusControl: Id -> Option<Id>): (r: bool)
      reads this
      requires ArenaOk(arena, anc) && x in arena.parent
      ensures r ==> anc[x][0] in arena.windows && focusControl(anc[x][0]) == Some(x)
      ensures anc[x][0] in arena.windows && x != anc[x][0] && focusControl(anc[x][0]) == Some(x) ==> r
    {
      match GetWindow(x)
      case None => false
      case Some(w) => focusControl(w) == Some(x)
    }

    // -------------------------------------------------------------------
    // Adding and removing children

    /** `OnAttachToWindow`. */
    method OnAttachToWindow(c: Id, w: Id)
      requires c in arena.window
      modifies this
      ensures arena == old(arena).(window := old(arena.window)[c := Some(w)]) && anc == old(anc)
    {
      arena := arena.(window := arena.window[c := Some(w)]);
    }

    /** `OnDetachToWindow`. */
    method OnDetachToWindow(c: Id)
      requires c in arena.window
      modifies this
      ensures arena == old(arena).(window := old(arena.window)[c := None]) && anc == old(anc)
    {
      arena := arena.(window := arena.window[c := None]);
    }

    /** Applies `OnAttachToWindow(w)` (`w` present) or `OnDetachToWindow`
        (`w` absent) to each control of `nodes`, in order: the visitor
        `OnAddChild` and `OnRemoveChild` pass to `TraverseDescendants`. */
    method SetWindowOfAll(nodes: seq<Id>, w: Option<Id>)
      requires forall y | y in nodes :: y in arena.window
      modifies this
      ensures arena == old(arena).(window := Retarget(old(arena.window), (set y | y in nodes), w)) && anc == old(anc)
    {
      var i := 0;
      while i < |nodes|
        invariant 0 <= i <= |nodes|
        invariant arena == old(arena).(window := Retarget(old(arena.window), (set y | y in nodes[..i]), w)) && anc == old(anc)
      {
        assert nodes[..i + 1] == nodes[..i] + [nodes[i]];
        if w.Some? {
          OnAttachToWindow(nodes[i], w.value);
        } else {
          OnDetachToWindow(nodes[i]);
        }
        i := i + 1;
      }
      assert nodes[..i] == nodes;
    }

    /** `TraverseDescendants` of `child` with `OnAttachToWindow(w)` (`w`
        present) or `OnDetachToWindow` (`w` absent) as the visitor. */
    method SetWindowOfSubtree(child: Id, w: Option<Id>)
      requires ShapeOk(arena, anc) && child in arena.parent
      modifies this
      ensures arena == old(arena).(window := Retarget(old(arena.window), SubtreeOf(anc, child), w)) && anc == old(anc)
    {
      var nodes := TraverseDescendants(child);
      SetWindowOfAll(nodes, w);
      assert (set y | y in nodes) == SubtreeOf(anc, child);
    }

    /** `OnAddChild`: when the tree of `x` belongs to a Window, attaches the
        subtree of `child` to it and refreshes the positions under `x`. The
        requirements are what linking leaves behind. */
    method OnAddChild(x: Id, child: Id)
      requires ReadyToAttach(arena, anc, x, child)
      modifies this
      ensures ArenaOk(arena, anc) && anc == old(anc)
      ensures anc[x][0] !in arena.windows ==> arena == old(arena)
      ensures anc[x][0] in arena.windows ==>
        arena == old(arena).(window := Retarget(old(arena.window), SubtreeOf(anc, child), Some(anc[x][0])), cache := arena.cache)
      ensures anc[x][0] in arena.windows ==> forall y | y in arena.parent ::
        arena.cache[y] == if x in anc[y] then Absolute(arena.parent, anc, Offsets(arena.position, arena.windows), y) else old(arena.cache[y])
    {
      var root := GetAncestor(x);
      assert root == anc[x][0];
      if root in arena.windows {
        ghost var a0 := arena;
        SetWindowOfSubtree(child, Some(root));
        ReframeOk(a0, anc, arena.window, arena.cache);
        InvalidatePositionCache(x);
      }
    }

    /** `OnRemoveChild` with the detached child as argument: when the tree
        of `x` belongs to a Window, detaches the subtree of `child`. */
    method OnRemoveChild(x: Id, child: Id)
      requires ReadyToDetach(arena, anc, x, child)
      modifies this
      ensures ArenaOk(arena, anc) && anc == old(anc)
      ensures arena == old(arena).(window := if anc[x][0] in arena.windows then Retarget(old(arena.window), SubtreeOf(anc, child), None) else old(arena.window))
    {
      var root := GetAncestor(x);
      assert root == anc[x][0];
      if root in arena.windows {
        ghost var a0 := arena;
        SetWindowOfSubtree(child, None);
        ReframeOk(a0, anc, arena.window, arena.cache);
      }
    }

    /** `AddChildCheck`, with the cycle check the source misses (see the
        findings): the control must have no parent, must not be a Window
        and must not be the root of `x`'s tree. */
    method AddChildCheck(x: Id, control: Id) returns (r: Outcome<TreeError>)
      requires ArenaOk(arena, anc) && x in arena.parent && control in arena.parent
      ensures r.Pass? <==> arena.parent[control].None? && control !in arena.windows && control != anc[x][0]
      ensures arena.parent[control].Some? ==> r == Fail(AlreadyHasParent)
      ensures arena.parent[control].None? && control in arena.windows ==> r == Fail(WindowAsChild)
      ensures arena.parent[control].None? && control !in arena.windows && control == anc[x][0] ==> r == Fail(WouldCreateCycle)
    {
      if arena.parent[control].Some? {
        return Fail(AlreadyHasParent);
      }
      if control in arena.windows {
        return Fail(WindowAsChild);
      }
      var root := GetAncestor(x);
      if root == control {
        return Fail(WouldCreateCycle);
      }
      return Pass;
    }

    /** Hangs `control` under `x` at index `pos` of its children; the
        window references are left for `OnAddChild(x, top)` to mend. */
    method Link(x: Id, control: Id, pos: nat, ghost top: Id)
      requires ArenaOk(arena, anc) && x in arena.parent && control in arena.parent
      requires arena.parent[control].None? && control !in arena.windows && control != anc[x][0]
      requires pos <= |arena.children[x]| && (top == control || top == x)
      modifies this
      ensures arena == WithChild(old(arena), x, control, pos) && anc == Linked(old(anc), x, control)
      ensures anc[x] == old(anc[x]) && ReadyToAttach(arena, anc, x, top)
    {
      ghost var a0, anc0 := arena, anc;
      arena, anc := WithChild(arena, x, control, pos), Linked(anc, x, control);
      LinkOk(a0, anc0, x, control, pos);
    }

    /** `AddChild`: appends `control` to the children of `x`. */
    method AddChild(x: Id, control: Id) returns (r: Outcome<TreeError>)
      requires ArenaOk(arena, anc) && CacheOk(arena, anc) && x in arena.parent && control in arena.parent
      modifies this
      ensures ArenaOk(arena, anc) && CacheOk(arena, anc)
      ensures r.Pass? <==> old(arena.parent[control].None? && control !in arena.windows && control != anc[x][0])
      ensures old(arena.parent[control].Some?) ==> r == Fail(AlreadyHasParent)
      ensures old(arena.parent[control].None? && control in arena.windows) ==> r == Fail(WindowAsChild)
      ensures old(arena.parent[control].None? && control !in arena.windows && control == anc[x][0]) ==> r == Fail(WouldCreateCycle)
      ensures r.Fail? ==> unchanged(this)
      ensures r.Pass? ==>
        && arena.parent == old(arena.parent)[control := Some(x)]
        && arena.children == old(arena.children)[x := old(arena.children[x]) + [control]]
        && anc == Linked(old(anc), x, control)
        && arena.windows == old(arena.windows) && arena.position == old(arena.position) && arena.nextId == old(arena.nextId)
      ensures r.Pass? ==> arena.window == (if anc[x][0] in arena.windows then Retarget(old(arena.window), SubtreeOf(anc, control), Some(anc[x][0])) else old(arena.window))
      ensures r.Pass? && anc[x][0] in arena.windows ==> forall y | y in arena.parent ::
        arena.cache[y] == if x in anc[y] then Absolute(arena.parent, anc, Offsets(arena.position, arena.windows), y) else old(arena.cache[y])
      ensures r.Pass? && anc[x][0] !in arena.windows ==> arena.cache == old(arena.cache)
    {
      r := AddChildCheck(x, control);
      if r.Fail? {
        return;
      }
      ghost var a0, anc0 := arena, anc;
      Link(x, control, |arena.children[x]|, control);
      OnAddChild(x, control);
      LinkCacheOk(a0, anc0, x, control, arena);
    }

    /** The positional `AddChild`: inserts `control` before index
        `position` of the children of `x`. As in the source, it then
        announces `x` itself as the added child, so the whole subtree of
        `x` (the Window itself included, when `x` is one) is attached. */
    method AddChildAt(x: Id, control: Id, pos: int) returns (r: Outcome<TreeError>)
      requires ArenaOk(arena, anc) && CacheOk(arena, anc) && x in arena.parent && control in arena.parent
      modifies this
      ensures ArenaOk(arena, anc) && CacheOk(arena, anc)
      ensures r.Pass? <==> old(arena.parent[control].None? && control !in arena.windows && control != anc[x][0]
                              && 0 <= pos <= |arena.children[x]|)
      ensures old(arena.parent[control].Some?) ==> r == Fail(AlreadyHasParent)
      ensures old(arena.parent[control].None? && control in arena.windows) ==> r == Fail(WindowAsChild)
      ensures old(arena.parent[control].None? && control !in arena.windows && control == anc[x][0]) ==> r == Fail(WouldCreateCycle)
      ensures old(arena.parent[control].None? && control !in arena.windows && control != anc[x][0] && !(0 <= pos <= |arena.children[x]|))
        ==> r == Fail(PositionOutOfRange)
      ensures r.Fail? ==> unchanged(this)
      ensures r.Pass? ==>
        && arena.parent == old(arena.parent)[control := Some(x)]
        && arena.children == old(arena.children)[x := InsertAt(old(arena.children[x]), pos, control)]
        && anc == Linked(old(anc), x, control)
        && arena.windows == old(arena.windows) && arena.position == old(arena.position) && arena.nextId == old(arena.nextId)
      ensures r.Pass? ==> arena.window == (if anc[x][0] in arena.windows then Retarget(old(arena.window), SubtreeOf(anc, x), Some(anc[x][0])) else old(arena.window))
      ensures r.Pass? && anc[x][0] in arena.windows ==> forall y | y in arena.parent ::
        arena.cache[y] == if x in anc[y] then Absolute(arena.parent, anc, Offsets(arena.position, arena.windows), y) else old(arena.cache[y])
      ensures r.Pass? && anc[x][0] !in arena.windows ==> arena.cache == old(arena.cache)
    {
      r := AddChildCheck(x, control);
      if r.Fail? {
        return;
      }
      if pos < 0 || pos > |arena.children[x]| {
        return Fail(PositionOutOfRange);
      }
      ghost var a0, anc0 := arena, anc;
      Link(x, control, pos, x);
      OnAddChild(x, x);
      LinkCacheOk(a0, anc0, x, control, arena);
    }

    /** Cuts the child at index `i` of `x` loose and detaches its subtree
        from the Window: the common tail of both `RemoveChild` overloads. */
    method Detach(x: Id, i: nat)
      requires ArenaOk(arena, anc) && CacheOk(arena, anc) && x in arena.parent && i < |arena.children[x]|
      modifies this
      ensures ArenaOk(arena, anc) && CacheOk(arena, anc)
      ensures anc == Unlinked(old(anc), x, old(arena.children[x][i]))
      ensures arena == WithoutChild(old(arena), x, i).(window :=
        if anc[x][0] in arena.windows then Retarget(old(arena.window), SubtreeOf(anc, old(arena.children[x][i])), None) else old(arena.window))
    {
      var child := arena.children[x][i];
      ghost var a0, anc0 := arena, anc;
      arena, anc := WithoutChild(arena, x, i), Unlinked(anc, x, child);
      UnlinkOk(a0, anc0, x, i);
      OnRemoveChild(x, child);
      assert a0.parent[child] == Some(x) && child !in a0.windows;
      UnlinkCacheOk(a0, anc0, x, child, arena);
    }

    /** `RemoveChild` by control, detaching the removed child's subtree
        from the Window (see the findings for the source's version). */
    method RemoveChild(x: Id, child: Id) returns (r: Outcome<TreeError>)
      requires ArenaOk(arena, anc) && CacheOk(arena, anc) && x in arena.parent
      modifies this
      ensures ArenaOk(arena, anc) && CacheOk(arena, anc)
      ensures r.Fail? <==> old(child !in arena.children[x])
      ensures r.Fail? ==> r == Fail(NotAChild) && unchanged(this)
      ensures r.Pass? ==> exists i | 0 <= i < |old(arena.children[x])| && old(arena.children[x])[i] == child ::
        && arena.children == old(arena.children)[x := EraseAt(old(arena.children[x]), i)]
        && arena.parent == old(arena.parent)[child := None]
        && anc == Unlinked(old(anc), x, child)
      ensures r.Pass? ==>
        && arena.windows == old(arena.windows) && arena.position == old(arena.position)
        && arena.cache == old(arena.cache) && arena.nextId == old(arena.nextId)
      ensures r.Pass? ==> arena.window == (if anc[x][0] in arena.windows then Retarget(old(arena.window), SubtreeOf(anc, child), None) else old(arena.window))
    {
      var i := Find(arena.children[x], child);
      if i == |arena.children[x]| {
        return Fail(NotAChild);
      }
      Detach(x, i);
      r := Pass;
    }

    /** `RemoveChild` by index. */
    method RemoveChildAt(x: Id, pos: int) returns (r: Outcome<TreeError>)
      requires ArenaOk(arena, anc) && CacheOk(arena, anc) && x in arena.parent
      modifies this
      ensures ArenaOk(arena, anc) && CacheOk(arena, anc)
      ensures r.Fail? <==> !(0 <= pos < old(|arena.children[x]|))
      ensures r.Fail? ==> r == Fail(PositionOutOfRange) && unchanged(this)
      ensures r.Pass? ==>
        && arena.children == old(arena.children)[x := EraseAt(old(arena.children[x]), pos)]
        && arena.parent == old(arena.parent)[old(arena.children[x][pos]) := None]
        && anc == Unlinked(old(anc), x, old(arena.children[x][pos]))
        && arena.windows == old(arena.windows) && arena.position == old(arena.position)
        && arena.cache == old(arena.cache) && arena.nextId == old(arena.nextId)
      ensures r.Pass? ==> arena.window == (if anc[x][0] in arena.windows then Retarget(old(arena.window), SubtreeOf(anc, old(arena.children[x][pos])), None) else old(arena.window))
    {
      if pos < 0 || pos >= |arena.children[x]| {
        return Fail(PositionOutOfRange);
      }
      Detach(x, pos);
      r := Pass;
    }
  }
}
