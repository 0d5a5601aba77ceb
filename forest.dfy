/** The shape of the control tree as values: for each control its parent,
    its ordered children and (ghost) its ancestor list, root first, ending
    with the control itself — the list `GetAncestorList` builds. The
    well-formedness predicate `Wf` states the tree invariants; the lemmas
    give their consequences and show that linking and unlinking a subtree
    preserve them. */
module Forest {
  import opened Wrappers
  import opened Geometry

  /** A control's identity (its address). */
  type Id = nat

  /** No control occurs twice. */
  predicate Distinct(s: seq<Id>) {
    forall i, j | 0 <= i < j < |s| :: s[i] != s[j]
  }

  // ---------------------------------------------------------------------
  // Invariants

  /** The ancestor list of `x` extends its parent's by `x`. */
  ghost predicate AncLink(parent: map<Id, Option<Id>>, anc: map<Id, seq<Id>>, x: Id)
    requires x in parent && x in anc
  {
    match parent[x]
    case None => anc[x] == [x]
    case Some(p) => p in parent && p in anc && anc[x] == anc[p] + [x]
  }

  ghost predicate AncOk(parent: map<Id, Option<Id>>, anc: map<Id, seq<Id>>) {
    && anc.Keys == parent.Keys
    && (forall x | x in anc :: |anc[x]| > 0)
    && forall x {:trigger AncLink(parent, anc, x)} | x in parent :: AncLink(parent, anc, x)
  }

  /** `child.parent == p` exactly when `p.children` holds `child`, and a
      child list has no repeats. */
  ghost predicate ChildrenOk(parent: map<Id, Option<Id>>, children: map<Id, seq<Id>>) {
    && children.Keys == parent.Keys
    && (forall x, i | x in children && 0 <= i < |children[x]| ::
          children[x][i] in parent && parent[children[x][i]] == Some(x))
    && (forall y | y in parent && parent[y].Some? ::
          parent[y].value in children && y in children[parent[y].value])
    && (forall x, i, j | x in children && 0 <= i < j < |children[x]| ::
          children[x][i] != children[x][j])
  }

  /** The tree invariants; `windows` are the controls that are Windows,
      and a Window never has a parent. */
  ghost predicate Wf(parent: map<Id, Option<Id>>, children: map<Id, seq<Id>>,
                     anc: map<Id, seq<Id>>, windows: set<Id>) {
    && AncOk(parent, anc)
    && ChildrenOk(parent, children)
    && windows <= parent.Keys
    && (forall w | w in windows :: parent[w] == None)
  }

  /** The window back-reference of `x` agrees with its root: a control in a
      Window-rooted tree points at that Window, any other control at null;
      the Window itself holds null, or itself once an insertion at a
      position has re-attached its whole tree. */
  ghost predicate WindowRefOk(window: map<Id, Option<Id>>, anc: map<Id, seq<Id>>, windows: set<Id>, x: Id)
    requires x in window && x in anc && |anc[x]| > 0
  {
    var root := anc[x][0];
    if root !in windows then window[x] == None
    else if x == root then window[x] == None || window[x] == Some(x)
    else window[x] == Some(root)
  }

  ghost predicate WindowsOk(window: map<Id, Option<Id>>, anc: map<Id, seq<Id>>, windows: set<Id>) {
    && window.Keys == anc.Keys
    && forall x | x in anc :: |anc[x]| > 0 && WindowRefOk(window, anc, windows, x)
  }

  // ---------------------------------------------------------------------
  // Ancestor lists

  /** A new control starts as a root of its own: the invariants hold with
      it added, as a plain control or as a Window. */
  lemma AddRootOk(parent: map<Id, Option<Id>>, children: map<Id, seq<Id>>, anc: map<Id, seq<Id>>,
                  windows: set<Id>, window: map<Id, Option<Id>>, c: Id, isWindow: bool)
    requires Wf(parent, children, anc, windows) && WindowsOk(window, anc, windows) && c !in parent
    ensures var windows' := if isWindow then windows + {c} else windows;
      && Wf(parent[c := None], children[c := []], anc[c := [c]], windows')
      && WindowsOk(window[c := None], anc[c := [c]], windows')
  {
    AddRootAncOk(parent, anc, c);
    AddRootChildrenOk(parent, children, c);
    AddRootWindowsOk(parent, anc, windows, window, c, isWindow);
  }

  lemma AddRootAncOk(parent: map<Id, Option<Id>>, anc: map<Id, seq<Id>>, c: Id)
    requires AncOk(parent, anc) && c !in parent
    ensures AncOk(parent[c := None], anc[c := [c]])
  {
    var parent', anc' := parent[c := None], anc[c := [c]];
    forall y | y in parent'
      ensures AncLink(parent', anc', y)
    {
      if y != c {
        assert AncLink(parent, anc, y);
      }
    }
  }

  lemma AddRootChildrenOk(parent: map<Id, Option<Id>>, children: map<Id, seq<Id>>, c: Id)
    requires ChildrenOk(parent, children) && c !in parent
    ensures ChildrenOk(parent[c := None], children[c := []])
  {
    assert forall x | x in children :: c !in children[x];
  }

  lemma AddRootWindowsOk(parent: map<Id, Option<Id>>, anc: map<Id, seq<Id>>, windows: set<Id>,
                         window: map<Id, Option<Id>>, c: Id, isWindow: bool)
    requires AncOk(parent, anc) && WindowsOk(window, anc, windows) && c !in parent
    ensures WindowsOk(window[c := None], anc[c := [c]], if isWindow then windows + {c} else windows)
  {
    var windows' := if isWindow then windows + {c} else windows;
    var anc' := anc[c := [c]];
    forall y | y in anc'
      ensures |anc'[y]| > 0 && WindowRefOk(window[c := None], anc', windows', y)
    {
      if y != c {
        assert WindowRefOk(window, anc, windows, y);
        AncInTree(parent, anc, y);
        assert anc[y][0] in parent;
      }
    }
  }

  /** An ancestor list is never empty and ends with the control itself. */
  lemma AncLast(parent: map<Id, Option<Id>>, anc: map<Id, seq<Id>>, x: Id)
    requires AncOk(parent, anc) && x in parent
    ensures |anc[x]| >= 1 && anc[x][|anc[x]| - 1] == x
  {
    assert AncLink(parent, anc, x);
  }

  /** Each entry of an ancestor list is a control whose own ancestor list is
      the prefix ending at that entry. */
  lemma {:induction false} AncPrefixAt(parent: map<Id, Option<Id>>, anc: map<Id, seq<Id>>, x: Id, i: nat)
    requires AncOk(parent, anc) && x in parent && i < |anc[x]|
    ensures anc[x][i] in parent && anc[anc[x][i]] == anc[x][..i + 1]
    decreases |anc[x]|
  {
    assert AncLink(parent, anc, x);
    match parent[x]
    case None =>
    case Some(p) =>
      if i < |anc[p]| {
        AncPrefixAt(parent, anc, p, i);
        assert anc[x][..i + 1] == anc[p][..i + 1];
      } else {
        assert anc[x][..i + 1] == anc[x];
      }
  }

  /** An ancestor `y` of `x` sits at index `|anc[y]| - 1` of `x`'s list, and
      its list is a prefix of `x`'s. */
  lemma AncestorAt(parent: map<Id, Option<Id>>, anc: map<Id, seq<Id>>, x: Id, y: Id)
    requires AncOk(parent, anc) && x in parent && y in anc[x]
    ensures y in parent && 1 <= |anc[y]| <= |anc[x]|
    ensures anc[x][..|anc[y]|] == anc[y] && anc[x][|anc[y]| - 1] == y
  {
    var i :| 0 <= i < |anc[x]| && anc[x][i] == y;
    AncPrefixAt(parent, anc, x, i);
    AncLast(parent, anc, y);
  }

  /** An ancestor list has no repeats: the parent chain has no cycle. */
  lemma AncDistinct(parent: map<Id, Option<Id>>, anc: map<Id, seq<Id>>, x: Id)
    requires AncOk(parent, anc) && x in parent
    ensures Distinct(anc[x])
  {
    forall i, j | 0 <= i < j < |anc[x]|
      ensures anc[x][i] != anc[x][j]
    {
      AncPrefixAt(parent, anc, x, i);
      AncPrefixAt(parent, anc, x, j);
    }
  }

  /** Every entry of an ancestor list is a control of the tree. */
  lemma AncInTree(parent: map<Id, Option<Id>>, anc: map<Id, seq<Id>>, x: Id)
    requires AncOk(parent, anc) && x in parent
    ensures forall i | 0 <= i < |anc[x]| :: anc[x][i] in parent
  {
    forall i | 0 <= i < |anc[x]|
      ensures anc[x][i] in parent
    {
      AncPrefixAt(parent, anc, x, i);
    }
  }

  /** Below `x` on the ancestor list of `y` comes a control whose parent
      is `x`. */
  lemma AncBelow(parent: map<Id, Option<Id>>, anc: map<Id, seq<Id>>, x: Id, y: Id)
    requires AncOk(parent, anc) && y in parent && x in anc[y] && y != x
    ensures x in anc && |anc[x]| < |anc[y]|
    ensures var c := anc[y][|anc[x]|];
      && c in parent && parent[c] == Some(x) && anc[c] == anc[x] + [c] && c in anc[y]
  {
    AncestorAt(parent, anc, y, x);
    AncLast(parent, anc, y);
    var k := |anc[x]|;
    assert anc[y][k - 1] == x;
    assert k < |anc[y]|;
    var c := anc[y][k];
    AncPrefixAt(parent, anc, y, k);
    assert anc[y][..k + 1] == anc[y][..k] + [c];
    assert AncLink(parent, anc, c);
    assert |anc[c]| == k + 1 >= 2;
    assert parent[c].Some?;
    var p := parent[c].value;
    assert anc[p] == anc[x];
    AncLast(parent, anc, p);
    AncLast(parent, anc, x);
  }

  /** The controls in the subtree of `x` strictly below it: each lies under
      exactly one child of `x`, the entry that follows `x` in its list. */
  lemma BelowChild(parent: map<Id, Option<Id>>, children: map<Id, seq<Id>>, anc: map<Id, seq<Id>>,
                   windows: set<Id>, x: Id, y: Id)
    requires Wf(parent, children, anc, windows) && y in parent && x in anc[y] && y != x
    ensures x in anc && |anc[x]| < |anc[y]|
    ensures var c := anc[y][|anc[x]|];
      && c in children[x] && c in parent && anc[c] == anc[x] + [c] && c in anc[y]
  {
    AncBelow(parent, anc, x, y);
  }

  /** The other way round: every control under a child of `x` is under `x`,
      through that child. */
  lemma UnderChild(parent: map<Id, Option<Id>>, children: map<Id, seq<Id>>, anc: map<Id, seq<Id>>,
                   windows: set<Id>, x: Id, c: Id, y: Id)
    requires Wf(parent, children, anc, windows) && x in parent && c in children[x]
    requires y in parent && c in anc[y]
    ensures anc[c] == anc[x] + [c]
    ensures x in anc[y] && y != x && |anc[x]| < |anc[y]| && anc[y][|anc[x]|] == c
  {
    var k :| 0 <= k < |children[x]| && children[x][k] == c;
    assert parent[c] == Some(x);
    assert AncLink(parent, anc, c);
    AncestorAt(parent, anc, y, c);
    AncLast(parent, anc, x);
    assert anc[y][|anc[x]| - 1] == anc[c][|anc[x]| - 1] == x;
    assert anc[y][|anc[x]|] == anc[c][|anc[x]|] == c;
  }

  // ---------------------------------------------------------------------
  // Pre-order traversal

  /** The controls not on the path from the root to `x`: shrinks strictly
      at each step down, so recursion over children terminates. */
  ghost function Unvisited(parent: map<Id, Option<Id>>, anc: map<Id, seq<Id>>, x: Id): set<Id>
    requires x in anc
  {
    set y | y in parent.Keys && y !in anc[x]
  }

  lemma ChildShrinks(parent: map<Id, Option<Id>>, children: map<Id, seq<Id>>, anc: map<Id, seq<Id>>,
                     windows: set<Id>, x: Id, i: nat)
    requires Wf(parent, children, anc, windows) && x in parent && i < |children[x]|
    ensures var c := children[x][i];
      c in parent && c in anc && anc[c] == anc[x] + [c]
      && Unvisited(parent, anc, c) < Unvisited(parent, anc, x)
  {
    var c := children[x][i];
    assert AncLink(parent, anc, c);
    AncDistinct(parent, anc, c);
    forall k | 0 <= k < |anc[x]|
      ensures anc[x][k] != c
    {
      assert anc[c][k] == anc[x][k];
      assert anc[c][|anc[x]|] == c;
    }
    assert c in Unvisited(parent, anc, x);
  }

  /** `TraverseDescendants_`: the control, then each child's traversal in
      child order. */
  ghost function PreOrder(parent: map<Id, Option<Id>>, children: map<Id, seq<Id>>, anc: map<Id, seq<Id>>,
                          windows: set<Id>, x: Id): seq<Id>
    requires Wf(parent, children, anc, windows) && x in parent
    decreases Unvisited(parent, anc, x), |children[x]| + 1
  {
    [x] + PreOrderFrom(parent, children, anc, windows, x, 0)
  }

  /** The traversals of the children of `x` from index `i` on, concatenated. */
  ghost function PreOrderFrom(parent: map<Id, Option<Id>>, children: map<Id, seq<Id>>, anc: map<Id, seq<Id>>,
                              windows: set<Id>, x: Id, i: nat): seq<Id>
    requires Wf(parent, children, anc, windows) && x in parent && i <= |children[x]|
    decreases Unvisited(parent, anc, x), |children[x]| - i
  {
    if i == |children[x]| then []
    else
      ChildShrinks(parent, children, anc, windows, x, i);
      PreOrder(parent, children, anc, windows, children[x][i])
        + PreOrderFrom(parent, children, anc, windows, x, i + 1)
  }

  /** The traversal of `x` visits exactly the controls of its subtree. */
  lemma {:induction false} PreOrderMembers(parent: map<Id, Option<Id>>, children: map<Id, seq<Id>>,
                                           anc: map<Id, seq<Id>>, windows: set<Id>, x: Id)
    requires Wf(parent, children, anc, windows) && x in parent
    ensures forall y :: y in PreOrder(parent, children, anc, windows, x) <==> y in parent && x in anc[y]
    decreases Unvisited(parent, anc, x), |children[x]| + 1
  {
    PreOrderFromMembers(parent, children, anc, windows, x, 0);
    AncLast(parent, anc, x);
    forall y | y in parent && x in anc[y] && y != x
      ensures |anc[x]| < |anc[y]| && anc[y][|anc[x]|] in children[x][0..]
    {
      BelowChild(parent, children, anc, windows, x, y);
    }
  }

  lemma {:induction false} PreOrderFromMembers(parent: map<Id, Option<Id>>, children: map<Id, seq<Id>>,
                                               anc: map<Id, seq<Id>>, windows: set<Id>, x: Id, i: nat)
    requires Wf(parent, children, anc, windows) && x in parent && i <= |children[x]|
    ensures forall y :: y in PreOrderFrom(parent, children, anc, windows, x, i) <==>
      y in parent && x in anc[y] && |anc[x]| < |anc[y]| && anc[y][|anc[x]|] in children[x][i..]
    decreases Unvisited(parent, anc, x), |children[x]| - i
  {
    if i < |children[x]| {
      var c := children[x][i];
      ChildShrinks(parent, children, anc, windows, x, i);
      PreOrderMembers(parent, children, anc, windows, c);
      PreOrderFromMembers(parent, children, anc, windows, x, i + 1);
      forall y
        ensures y in PreOrderFrom(parent, children, anc, windows, x, i) <==>
          y in parent && x in anc[y] && |anc[x]| < |anc[y]| && anc[y][|anc[x]|] in children[x][i..]
      {
        if y in parent {
          ChildSplit(parent, children, anc, windows, x, i, y);
        }
      }
    }
  }

  /** A control lies under one of the children of `x` from index `i` on
      exactly when it lies under child `i` or under one after it. */
  lemma ChildSplit(parent: map<Id, Option<Id>>, children: map<Id, seq<Id>>, anc: map<Id, seq<Id>>,
                   windows: set<Id>, x: Id, i: nat, y: Id)
    requires Wf(parent, children, anc, windows) && x in parent && i < |children[x]| && y in parent
    ensures (x in anc[y] && |anc[x]| < |anc[y]| && anc[y][|anc[x]|] in children[x][i..])
      <==> children[x][i] in anc[y] || (x in anc[y] && |anc[x]| < |anc[y]| && anc[y][|anc[x]|] in children[x][i + 1..])
  {
    var c := children[x][i];
    if c in anc[y] {
      UnderChild(parent, children, anc, windows, x, c, y);
    }
    if x in anc[y] && |anc[x]| < |anc[y]| {
      AncLast(parent, anc, y);
      AncBelow(parent, anc, x, y);
      var d := anc[y][|anc[x]|];
      if d == c {
        assert c in anc[y];
      } else if d in children[x][i..] {
        assert d in children[x][i + 1..] by {
          var k :| i <= k < |children[x]| && children[x][k] == d;
          assert k != i;
        }
      }
    }
    assert children[x][i..] == [c] + children[x][i + 1..];
  }

  lemma DistinctConcat(a: seq<Id>, b: seq<Id>)
    requires Distinct(a) && Distinct(b)
    requires forall y :: y in a ==> y !in b
    ensures Distinct(a + b)
  {
    forall i, j | 0 <= i < j < |a + b|
      ensures (a + b)[i] != (a + b)[j]
    {
      if i < |a| && j >= |a| {
        assert (a + b)[i] in a && (a + b)[j] in b;
      }
    }
  }

  /** The traversal visits each control of the subtree exactly once. */
  lemma {:induction false} PreOrderDistinct(parent: map<Id, Option<Id>>, children: map<Id, seq<Id>>,
                                            anc: map<Id, seq<Id>>, windows: set<Id>, x: Id)
    requires Wf(parent, children, anc, windows) && x in parent
    ensures Distinct(PreOrder(parent, children, anc, windows, x))
    decreases Unvisited(parent, anc, x), |children[x]| + 1
  {
    PreOrderFromDistinct(parent, children, anc, windows, x, 0);
    PreOrderFromMembers(parent, children, anc, windows, x, 0);
    DistinctConcat([x], PreOrderFrom(parent, children, anc, windows, x, 0));
  }

  lemma {:induction false} PreOrderFromDistinct(parent: map<Id, Option<Id>>, children: map<Id, seq<Id>>,
                                                anc: map<Id, seq<Id>>, windows: set<Id>, x: Id, i: nat)
    requires Wf(parent, children, anc, windows) && x in parent && i <= |children[x]|
    ensures Distinct(PreOrderFrom(parent, children, anc, windows, x, i))
    decreases Unvisited(parent, anc, x), |children[x]| - i
  {
    if i < |children[x]| {
      var c := children[x][i];
      ChildShrinks(parent, children, anc, windows, x, i);
      PreOrderDistinct(parent, children, anc, windows, c);
      PreOrderFromDistinct(parent, children, anc, windows, x, i + 1);
      PreOrderMembers(parent, children, anc, windows, c);
      PreOrderFromMembers(parent, children, anc, windows, x, i + 1);
      forall y | y in PreOrder(parent, children, anc, windows, c)
        ensures y !in PreOrderFrom(parent, children, anc, windows, x, i + 1)
      {
        UnderChild(parent, children, anc, windows, x, c, y);
        forall k | i + 1 <= k < |children[x]|
          ensures children[x][k] != c
        {
        }
      }
      DistinctConcat(PreOrder(parent, children, anc, windows, c),
                     PreOrderFrom(parent, children, anc, windows, x, i + 1));
    }
  }

  // ---------------------------------------------------------------------
  // Attaching and detaching a subtree

  /** Ancestor lists once the tree rooted at `control` hangs under `x`. */
  ghost function Linked(anc: map<Id, seq<Id>>, x: Id, control: Id): map<Id, seq<Id>> {
    map y | y in anc :: if x in anc && |anc[y]| > 0 && anc[y][0] == control then anc[x] + anc[y] else anc[y]
  }

  /** `children` with `control` inserted at `pos` in the list of `x`. */
  function InsertAt(s: seq<Id>, pos: nat, control: Id): (r: seq<Id>)
    requires pos <= |s|
    ensures |r| == |s| + 1 && r[pos] == control
    ensures r[..pos] == s[..pos] && r[pos + 1..] == s[pos..]
    ensures pos == |s| ==> r == s + [control]
  {
    assert s[..|s|] == s;
    s[..pos] + [control] + s[pos..]
  }

  /** `s` without its entry at `i`. */
  function EraseAt(s: seq<Id>, i: nat): (r: seq<Id>)
    requires i < |s|
    ensures |r| == |s| - 1 && r[..i] == s[..i] && r[i..] == s[i + 1..]
  {
    s[..i] + s[i + 1..]
  }

  /** A control without a parent is its own root. */
  lemma OrphanIsRoot(parent: map<Id, Option<Id>>, anc: map<Id, seq<Id>>, y: Id, control: Id)
    requires AncOk(parent, anc) && y in parent && control in parent && parent[control] == None
    ensures control in anc[y] <==> anc[y][0] == control
  {
    assert AncLink(parent, anc, control);
    AncLast(parent, anc, y);
    if control in anc[y] {
      AncestorAt(parent, anc, y, control);
    }
  }

  lemma LinkAncOk(parent: map<Id, Option<Id>>, anc: map<Id, seq<Id>>, x: Id, control: Id)
    requires AncOk(parent, anc) && x in parent && control in parent && parent[control] == None
    requires anc[x][0] != control
    ensures AncOk(parent[control := Some(x)], Linked(anc, x, control))
  {
    var parent', anc' := parent[control := Some(x)], Linked(anc, x, control);
    forall y | y in parent'
      ensures AncLink(parent', anc', y)
    {
      assert AncLink(parent, anc, y);
      if y == control {
        assert anc'[x] == anc[x];
      } else if parent[y].Some? {
        AncLast(parent, anc, parent[y].value);
        assert anc[y][0] == anc[parent[y].value][0];
      }
    }
  }

  /** Inserting a new entry keeps a list free of repeats. */
  lemma InsertDistinct(s: seq<Id>, pos: nat, control: Id)
    requires Distinct(s) && control !in s && pos <= |s|
    ensures Distinct(InsertAt(s, pos, control))
    ensures forall c :: c in InsertAt(s, pos, control) <==> c in s || c == control
  {
    var r := InsertAt(s, pos, control);
    assert r == s[..pos] + [control] + s[pos..];
    assert s == s[..pos] + s[pos..];
    forall i, j | 0 <= i < j < |r|
      ensures r[i] != r[j]
    {
      var i' := if i < pos then i else i - 1;
      var j' := if j <= pos then j else j - 1;
      if i != pos && j != pos {
        assert r[i] == s[i'] && r[j] == s[j'];
      } else if i == pos {
        assert r[j] == s[j'];
      } else {
        assert r[i] == s[i'];
      }
    }
  }

  lemma LinkChildrenOk(parent: map<Id, Option<Id>>, children: map<Id, seq<Id>>, x: Id, control: Id, pos: nat)
    requires ChildrenOk(parent, children) && x in parent && control in parent && parent[control] == None
    requires pos <= |children[x]|
    ensures ChildrenOk(parent[control := Some(x)], children[x := InsertAt(children[x], pos, control)])
  {
    var parent', children' := parent[control := Some(x)], children[x := InsertAt(children[x], pos, control)];
    assert control !in children[x];
    InsertDistinct(children[x], pos, control);
    forall z, i | z in children' && 0 <= i < |children'[z]|
      ensures children'[z][i] in parent' && parent'[children'[z][i]] == Some(z)
    {
      if z == x && children'[z][i] != control {
        assert children'[z][i] in children[x];
      }
    }
  }

  /** Hanging a parentless, non-Window control under `x` keeps the tree
      well formed, as long as `control` is not the root of `x` — the check
      that rules out a cycle. */
  lemma LinkPreservesWf(parent: map<Id, Option<Id>>, children: map<Id, seq<Id>>, anc: map<Id, seq<Id>>,
                        windows: set<Id>, x: Id, control: Id, pos: nat)
    requires Wf(parent, children, anc, windows) && x in parent && control in parent
    requires parent[control] == None && control !in windows && anc[x][0] != control
    requires pos <= |children[x]|
    ensures Wf(parent[control := Some(x)], children[x := InsertAt(children[x], pos, control)],
               Linked(anc, x, control), windows)
  {
    LinkAncOk(parent, anc, x, control);
    LinkChildrenOk(parent, children, x, control, pos);
  }

  /** What the linked ancestor lists look like from outside: the subtree of
      `control` now lies below `x`, and nothing else moved. */
  lemma LinkedShape(parent: map<Id, Option<Id>>, anc: map<Id, seq<Id>>, x: Id, control: Id, y: Id)
    requires AncOk(parent, anc) && x in parent && control in parent && y in parent
    requires parent[control] == None && anc[x][0] != control
    ensures control in anc[y] ==> Linked(anc, x, control)[y] == anc[x] + anc[y]
    ensures control !in anc[y] ==> Linked(anc, x, control)[y] == anc[y]
  {
    OrphanIsRoot(parent, anc, y, control);
  }

  /** The controls of the subtree rooted at `c`. */
  ghost function SubtreeOf(anc: map<Id, seq<Id>>, c: Id): set<Id> {
    set y | y in anc && c in anc[y]
  }

  /** Sets the window back-reference of every control in `nodes` to `w`:
      `OnAttachToWindow` / `OnDetachFromWindow` applied over a traversal. */
  function Retarget(window: map<Id, Option<Id>>, nodes: set<Id>, w: Option<Id>): (r: map<Id, Option<Id>>)
    ensures r.Keys == window.Keys
    ensures forall y | y in window :: r[y] == (if y in nodes then w else window[y])
  {
    map y | y in window :: if y in nodes then w else window[y]
  }

  /** After linking under a control whose root is a Window, re-targeting a
      subtree that contains `control` and lies in that Window's tree restores
      the window back-references. `top` is `control` for `AddChild` and `x`
      for the positional `AddChild`, which re-targets the whole subtree of
      `x`. */
  lemma LinkWindowsOk(parent: map<Id, Option<Id>>, anc: map<Id, seq<Id>>, windows: set<Id>,
                      window: map<Id, Option<Id>>, x: Id, control: Id, top: Id, nodes: set<Id>)
    requires AncOk(parent, anc) && WindowsOk(window, anc, windows)
    requires x in parent && control in parent && parent[control] == None && control !in windows
    requires anc[x][0] != control
    requires top == x || top == control
    requires forall y | y in parent :: y in nodes <==> top in Linked(anc, x, control)[y]
    ensures var anc' := Linked(anc, x, control);
      && (anc[x][0] in windows ==> WindowsOk(Retarget(window, nodes, Some(anc[x][0])), anc', windows))
      && (anc[x][0] !in windows ==> WindowsOk(window, anc', windows))
  {
    var anc', root := Linked(anc, x, control), anc[x][0];
    forall y | y in anc'
      ensures |anc'[y]| > 0
      ensures root in windows ==> WindowRefOk(Retarget(window, nodes, Some(root)), anc', windows, y)
      ensures root !in windows ==> WindowRefOk(window, anc', windows, y)
    {
      LinkWindowAt(parent, anc, windows, window, x, control, top, nodes, y);
    }
  }

  /** `LinkWindowsOk` for the back-reference of one control `y`. */
  lemma LinkWindowAt(parent: map<Id, Option<Id>>, anc: map<Id, seq<Id>>, windows: set<Id>,
                     window: map<Id, Option<Id>>, x: Id, control: Id, top: Id, nodes: set<Id>, y: Id)
    requires AncOk(parent, anc) && WindowsOk(window, anc, windows)
    requires x in parent && control in parent && parent[control] == None && control !in windows
    requires anc[x][0] != control && y in parent
    requires top == x || top == control
    requires forall y | y in parent :: y in nodes <==> top in Linked(anc, x, control)[y]
    ensures var anc', root := Linked(anc, x, control), anc[x][0];
      && |anc'[y]| > 0
      && (root in windows ==> WindowRefOk(Retarget(window, nodes, Some(root)), anc', windows, y))
      && (root !in windows ==> WindowRefOk(window, anc', windows, y))
  {
    var parent', anc' := parent[control := Some(x)], Linked(anc, x, control);
    var root := anc[x][0];
    LinkAncOk(parent, anc, x, control);
    assert AncLink(parent, anc, control);
    LinkedShape(parent, anc, x, control, x);
    LinkedShape(parent, anc, x, control, control);
    AncLast(parent, anc, x);
    assert top in anc'[control];
    LinkedShape(parent, anc, x, control, y);
    assert WindowRefOk(window, anc, windows, y);
    AncLast(parent, anc, y);
    if control in anc[y] {
      assert anc'[y][0] == root;
      AncestorAt(parent', anc', y, control);
      assert anc'[y][..|anc'[control]|] == anc'[control];
      assert top in anc'[y];
      OrphanIsRoot(parent, anc, y, control);
      assert anc[y][0] == control;
    } else if top in anc'[y] {
      AncestorAt(parent', anc', y, top);
      assert anc'[y][0] == anc'[top][0] == root;
    }
  }

  /** Ancestor lists once `c`, a child of `x`, is cut loose: its subtree
      loses the prefix up to `x`. */
  ghost function Unlinked(anc: map<Id, seq<Id>>, x: Id, c: Id): map<Id, seq<Id>> {
    map y | y in anc :: if x in anc && c in anc[y] && |anc[x]| <= |anc[y]| then anc[y][|anc[x]|..] else anc[y]
  }

  /** The ancestor list of one control `y` once `c`, child `i` of `x`, is
      cut loose. */
  lemma UnlinkAncAt(parent: map<Id, Option<Id>>, children: map<Id, seq<Id>>, anc: map<Id, seq<Id>>,
                    windows: set<Id>, x: Id, i: nat, y: Id)
    requires Wf(parent, children, anc, windows) && x in parent && i < |children[x]| && y in parent
    ensures var c := children[x][i];
      var parent', anc' := parent[c := None], Unlinked(anc, x, c);
      y in anc' && |anc'[y]| > 0 && AncLink(parent', anc', y)
  {
    var c := children[x][i];
    var parent', anc' := parent[c := None], Unlinked(anc, x, c);
    assert AncLink(parent, anc, c);
    assert AncLink(parent, anc, y);
    if y == c {
      assert anc'[c] == [c];
    } else if parent[y].Some? {
      var q := parent[y].value;
      if c in anc[y] {
        AncestorAt(parent, anc, y, c);
        AncLast(parent, anc, y);
        assert c in anc[q] by {
          assert anc[y][|anc[c]| - 1] == c;
          assert |anc[c]| - 1 < |anc[q]|;
          assert anc[q][|anc[c]| - 1] == c;
        }
        AncestorAt(parent, anc, q, c);
        assert anc'[y] == anc'[q] + [y];
      } else {
        assert c !in anc[q];
      }
    }
  }

  lemma UnlinkAncOk(parent: map<Id, Option<Id>>, children: map<Id, seq<Id>>, anc: map<Id, seq<Id>>,
                    windows: set<Id>, x: Id, i: nat)
    requires Wf(parent, children, anc, windows) && x in parent && i < |children[x]|
    ensures AncOk(parent[children[x][i] := None], Unlinked(anc, x, children[x][i]))
  {
    var c := children[x][i];
    var parent', anc' := parent[c := None], Unlinked(anc, x, c);
    forall y | y in parent'
      ensures y in anc' && |anc'[y]| > 0 && AncLink(parent', anc', y)
    {
      UnlinkAncAt(parent, children, anc, windows, x, i, y);
    }
  }

  /** Erasing an entry keeps a list free of repeats, and removes exactly
      that entry. */
  lemma EraseDistinct(s: seq<Id>, i: nat)
    requires Distinct(s) && i < |s|
    ensures Distinct(EraseAt(s, i))
    ensures forall y :: y in EraseAt(s, i) <==> y in s && y != s[i]
  {
    var r := EraseAt(s, i);
    forall a, b | 0 <= a < b < |r|
      ensures r[a] != r[b]
    {
      if b < i {
        assert r[a] == s[a] && r[b] == s[b];
      } else if a < i {
        assert r[a] == s[a] && r[b] == s[b + 1];
      } else {
        assert r[a] == s[a + 1] && r[b] == s[b + 1];
      }
    }
    forall y
      ensures y in r <==> y in s && y != s[i]
    {
      if y in r {
        var k :| 0 <= k < |r| && r[k] == y;
        if k < i {
          assert r[k] == s[k];
        } else {
          assert r[k] == s[k + 1];
        }
      }
      if y in s && y != s[i] {
        var k :| 0 <= k < |s| && s[k] == y;
        if k < i {
          assert r[k] == y;
        } else {
          assert r[k - 1] == y;
        }
      }
    }
  }

  lemma UnlinkChildrenOk(parent: map<Id, Option<Id>>, children: map<Id, seq<Id>>, x: Id, i: nat)
    requires ChildrenOk(parent, children) && x in parent && i < |children[x]|
    ensures ChildrenOk(parent[children[x][i] := None], children[x := EraseAt(children[x], i)])
  {
    var c := children[x][i];
    var parent', children' := parent[c := None], children[x := EraseAt(children[x], i)];
    EraseDistinct(children[x], i);
    forall z, j | z in children' && 0 <= j < |children'[z]|
      ensures children'[z][j] in parent' && parent'[children'[z][j]] == Some(z)
    {
      if z == x {
        var k :| 0 <= k < |children[x]| && children[x][k] == children'[z][j];
      }
    }
  }

  /** Cutting the `i`-th child of `x` loose keeps the tree well formed. */
  lemma UnlinkPreservesWf(parent: map<Id, Option<Id>>, children: map<Id, seq<Id>>, anc: map<Id, seq<Id>>,
                          windows: set<Id>, x: Id, i: nat)
    requires Wf(parent, children, anc, windows) && x in parent && i < |children[x]|
    ensures Wf(parent[children[x][i] := None], children[x := EraseAt(children[x], i)],
               Unlinked(anc, x, children[x][i]), windows)
  {
    UnlinkAncOk(parent, children, anc, windows, x, i);
    UnlinkChildrenOk(parent, children, x, i);
  }

  /** What the unlinked ancestor lists look like from outside: the subtree
      of `c`, a child of `x`, now starts at `c`, and nothing else moved. */
  lemma UnlinkedShape(parent: map<Id, Option<Id>>, anc: map<Id, seq<Id>>, x: Id, c: Id, y: Id)
    requires AncOk(parent, anc) && c in parent && parent[c] == Some(x) && y in parent
    ensures && (c in anc[y] ==> x in anc && |anc[x]| < |anc[y]| && anc[y] == anc[x] + Unlinked(anc, x, c)[y]
                                && c in Unlinked(anc, x, c)[y])
            && (c !in anc[y] ==> Unlinked(anc, x, c)[y] == anc[y] && c !in Unlinked(anc, x, c)[y])
  {
    if c in anc[y] {
      assert AncLink(parent, anc, c);
      AncestorAt(parent, anc, y, c);
      assert anc[y][..|anc[x]|] == anc[c][..|anc[x]|] == anc[x];
      assert anc[y] == anc[y][..|anc[x]|] + anc[y][|anc[x]|..];
      assert Unlinked(anc, x, c)[y][0] == anc[y][|anc[x]|] == anc[c][|anc[x]|] == c;
    }
  }

  /** After cutting `c`, a child of `x`, loose from a Window's tree,
      clearing the window back-references of its subtree restores them. */
  lemma UnlinkWindowsOk(parent: map<Id, Option<Id>>, anc: map<Id, seq<Id>>, windows: set<Id>,
                        window: map<Id, Option<Id>>, x: Id, c: Id, nodes: set<Id>)
    requires AncOk(parent, anc) && WindowsOk(window, anc, windows)
    requires c in parent && c !in windows && parent[c] == Some(x) && AncOk(parent[c := None], Unlinked(anc, x, c))
    requires forall y | y in parent :: y in nodes <==> c in Unlinked(anc, x, c)[y]
    ensures x in anc && |anc[x]| > 0
    ensures var anc' := Unlinked(anc, x, c);
      && (anc[x][0] in windows ==> WindowsOk(Retarget(window, nodes, None), anc', windows))
      && (anc[x][0] !in windows ==> WindowsOk(window, anc', windows))
  {
    assert AncLink(parent, anc, c);
    var anc' := Unlinked(anc, x, c);
    forall y | y in anc'
      ensures |anc'[y]| > 0
      ensures anc[x][0] in windows ==> WindowRefOk(Retarget(window, nodes, None), anc', windows, y)
      ensures anc[x][0] !in windows ==> WindowRefOk(window, anc', windows, y)
    {
      UnlinkWindowAt(parent, anc, windows, window, x, c, nodes, y);
    }
  }

  /** `UnlinkWindowsOk` for the back-reference of one control `y`. */
  lemma UnlinkWindowAt(parent: map<Id, Option<Id>>, anc: map<Id, seq<Id>>, windows: set<Id>,
                       window: map<Id, Option<Id>>, x: Id, c: Id, nodes: set<Id>, y: Id)
    requires AncOk(parent, anc) && WindowsOk(window, anc, windows)
    requires c in parent && c !in windows && parent[c] == Some(x) && AncOk(parent[c := None], Unlinked(anc, x, c)) && y in parent
    requires forall y | y in parent :: y in nodes <==> c in Unlinked(anc, x, c)[y]
    ensures x in anc && |anc[x]| > 0
    ensures var anc' := Unlinked(anc, x, c);
      && |anc'[y]| > 0
      && (anc[x][0] in windows ==> WindowRefOk(Retarget(window, nodes, None), anc', windows, y))
      && (anc[x][0] !in windows ==> WindowRefOk(window, anc', windows, y))
  {
    var anc' := Unlinked(anc, x, c);
    assert AncLink(parent, anc, c);
    AncLast(parent, anc, x);
    UnlinkedShape(parent, anc, x, c, y);
    assert WindowRefOk(window, anc, windows, y);
    AncLast(parent, anc, y);
    if c in anc[y] {
      assert AncLink(parent[c := None], anc', c);
      AncestorAt(parent[c := None], anc', y, c);
      assert anc'[y][0] == c;
      assert anc[y][0] == anc[x][0];
    }
  }

  // ---------------------------------------------------------------------
  // Positions

  /** The sum of the offsets along a path: with each control's offset
      relative to its parent, the absolute position of the path's end. */
  function PathOffset(offset: map<Id, Point>, path: seq<Id>): Point
    requires forall i | 0 <= i < |path| :: path[i] in offset
  {
    if path == [] then Origin
    else AddPoints(PathOffset(offset, path[..|path| - 1]), offset[path[|path| - 1]])
  }

  /** Offsets add up along a path split in two. */
  lemma {:induction false} PathOffsetAppend(offset: map<Id, Point>, a: seq<Id>, b: seq<Id>)
    requires forall i | 0 <= i < |a| :: a[i] in offset
    requires forall i | 0 <= i < |b| :: b[i] in offset
    ensures PathOffset(offset, a + b) == AddPoints(PathOffset(offset, a), PathOffset(offset, b))
    decreases |b|
  {
    if b == [] {
      assert a + b == a;
    } else {
      var b' := b[..|b| - 1];
      assert (a + b)[..|a + b| - 1] == a + b';
      PathOffsetAppend(offset, a, b');
    }
  }

  /** The sum along a path depends only on the offsets of the controls on
      it. */
  lemma {:induction false} PathOffsetFrame(offset: map<Id, Point>, offset': map<Id, Point>, path: seq<Id>)
    requires forall i | 0 <= i < |path| :: path[i] in offset && path[i] in offset' && offset[path[i]] == offset'[path[i]]
    ensures PathOffset(offset, path) == PathOffset(offset', path)
    decreases |path|
  {
    if path != [] {
      PathOffsetFrame(offset, offset', path[..|path| - 1]);
    }
  }

  /** The proper ancestors of `x`, root first. */
  ghost function Above(parent: map<Id, Option<Id>>, anc: map<Id, seq<Id>>, x: Id): (p: seq<Id>)
    requires AncOk(parent, anc) && x in parent
    ensures anc[x] == p + [x]
    ensures forall i | 0 <= i < |p| :: p[i] in parent
  {
    AncLast(parent, anc, x);
    AncInTree(parent, anc, x);
    assert anc[x] == anc[x][..|anc[x]| - 1] + [x];
    anc[x][..|anc[x]| - 1]
  }

  /** The path from `x` down to `y`, both included, for `x` an ancestor
      of `y`. */
  ghost function PathFrom(parent: map<Id, Option<Id>>, anc: map<Id, seq<Id>>, x: Id, y: Id): (p: seq<Id>)
    requires AncOk(parent, anc) && y in parent && x in anc[y]
    ensures x in parent && |p| >= 1 && p[0] == x
    ensures anc[y] == Above(parent, anc, x) + p
    ensures forall i | 0 <= i < |p| :: p[i] in parent
  {
    AncestorAt(parent, anc, y, x);
    AncInTree(parent, anc, y);
    var p := anc[y][|anc[x]| - 1..];
    assert anc[y] == anc[y][..|anc[x]| - 1] + p;
    assert anc[y][..|anc[x]| - 1] == anc[x][..|anc[x]| - 1];
    p
  }

  /** The lefttop of `GetRectRelativeToParent`: a control's own position,
      except that a Window's rectangle always starts at the origin. */
  function RelativeLefttop(position: map<Id, Point>, windows: set<Id>, x: Id): Point
    requires x in position
  {
    if x in windows then Origin else position[x]
  }

  ghost function Offsets(position: map<Id, Point>, windows: set<Id>): (o: map<Id, Point>)
    ensures o.Keys == position.Keys
  {
    map y | y in position :: RelativeLefttop(position, windows, y)
  }

  /** The absolute lefttop of `y`: the relative offsets summed along the
      path from the root. */
  ghost function Absolute(parent: map<Id, Option<Id>>, anc: map<Id, seq<Id>>, offset: map<Id, Point>, y: Id): Point
    requires AncOk(parent, anc) && parent.Keys <= offset.Keys && y in parent
  {
    AncInTree(parent, anc, y);
    PathOffset(offset, anc[y])
  }

  /** The absolute lefttop of `y` computed from its ancestor `x`, given the
      absolute lefttop `base` of the parent of `x`. */
  ghost function RefreshedAt(parent: map<Id, Option<Id>>, anc: map<Id, seq<Id>>, offset: map<Id, Point>,
                             x: Id, y: Id, base: Point): Point
    requires AncOk(parent, anc) && parent.Keys <= offset.Keys && y in parent && x in anc[y]
  {
    AddPoints(base, PathOffset(offset, PathFrom(parent, anc, x, y)))
  }

  /** Refreshing a control from the absolute lefttop of its parent adds its
      own offset. */
  lemma RefreshedAtSelf(parent: map<Id, Option<Id>>, anc: map<Id, seq<Id>>, offset: map<Id, Point>,
                        x: Id, base: Point)
    requires AncOk(parent, anc) && parent.Keys <= offset.Keys && x in parent
    ensures x in anc[x]
    ensures RefreshedAt(parent, anc, offset, x, x, base) == AddPoints(base, offset[x])
  {
    AncLast(parent, anc, x);
    var p := PathFrom(parent, anc, x, x);
    assert Above(parent, anc, x) + p == Above(parent, anc, x) + [x];
    assert p == [x];
    assert p[..0] == [];
    assert PathOffset(offset, p) == AddPoints(Origin, offset[x]) == offset[x];
  }

  /** The absolute position of `y` is that of the parent of its ancestor
      `x` plus the offsets from `x` down to `y`. */
  lemma PathSplit(parent: map<Id, Option<Id>>, anc: map<Id, seq<Id>>, offset: map<Id, Point>, x: Id, y: Id)
    requires AncOk(parent, anc) && parent.Keys <= offset.Keys && x in parent && y in parent && x in anc[y]
    ensures forall i | 0 <= i < |anc[y]| :: anc[y][i] in offset
    ensures PathOffset(offset, anc[y])
      == AddPoints(PathOffset(offset, Above(parent, anc, x)), PathOffset(offset, PathFrom(parent, anc, x, y)))
  {
    AncInTree(parent, anc, y);
    PathOffsetAppend(offset, Above(parent, anc, x), PathFrom(parent, anc, x, y));
  }

  /** Going down one level: the path from `x` to `y` is `x` followed by the
      path from the child `c` of `x` that lies above `y`. */
  lemma PathStep(parent: map<Id, Option<Id>>, children: map<Id, seq<Id>>, anc: map<Id, seq<Id>>,
                 windows: set<Id>, offset: map<Id, Point>, x: Id, c: Id, y: Id)
    requires Wf(parent, children, anc, windows) && parent.Keys <= offset.Keys
    requires x in parent && c in children[x] && y in parent && c in anc[y]
    ensures x in anc[y]
    ensures PathOffset(offset, PathFrom(parent, anc, x, y))
      == AddPoints(offset[x], PathOffset(offset, PathFrom(parent, anc, c, y)))
  {
    UnderChild(parent, children, anc, windows, x, c, y);
    var a, b := PathFrom(parent, anc, x, y), PathFrom(parent, anc, c, y);
    assert Above(parent, anc, c) == anc[x];
    assert Above(parent, anc, x) + a == anc[x] + b;
    assert anc[x] == Above(parent, anc, x) + [x];
    assert a == [x] + b;
    PathOffsetAppend(offset, [x], b);
    assert [x][..0] == [];
  }

  // ---------------------------------------------------------------------
  // Lowest common ancestor

  /** The length of the longest common prefix of two lists. */
  function CommonPrefix(a: seq<Id>, b: seq<Id>): (k: nat)
    ensures k <= |a| && k <= |b| && a[..k] == b[..k]
    ensures k < |a| && k < |b| ==> a[k] != b[k]
  {
    if a == [] || b == [] || a[0] != b[0] then 0
    else
      var k := 1 + CommonPrefix(a[1..], b[1..]);
      assert a[..k] == [a[0]] + a[1..][..k - 1];
      assert b[..k] == [b[0]] + b[1..][..k - 1];
      k
  }

  /** No longer common prefix exists. */
  lemma CommonPrefixMaximal(a: seq<Id>, b: seq<Id>, j: nat)
    requires j <= |a| && j <= |b| && forall i | 0 <= i < j :: a[i] == b[i]
    ensures j <= CommonPrefix(a, b)
  {
  }

  /** `FindLowestCommonAncestor`: null when either control is null or they
      live in different trees, otherwise the last entry the two ancestor
      lists share. */
  ghost function Lca(parent: map<Id, Option<Id>>, anc: map<Id, seq<Id>>, left: Option<Id>, right: Option<Id>): (r: Option<Id>)
    requires AncOk(parent, anc)
    requires left.Some? ==> left.value in parent
    requires right.Some? ==> right.value in parent
    ensures r.Some? ==> left.Some? && right.Some?
    ensures r.Some? ==> r.value in parent && r.value in anc[left.value] && r.value in anc[right.value]
  {
    if left.None? || right.None? then None
    else
      var a, b := anc[left.value], anc[right.value];
      if a[0] != b[0] then None
      else
        var k := CommonPrefix(a, b);
        AncPrefixAt(parent, anc, left.value, k - 1);
        assert a[k - 1] == a[..k][k - 1] == b[..k][k - 1] == b[k - 1];
        Some(a[k - 1])
  }

  /** Two controls have a common ancestor exactly when the result is not
      null, and every common ancestor is an ancestor of the result: it is
      the lowest one. */
  lemma LcaIsLowest(parent: map<Id, Option<Id>>, anc: map<Id, seq<Id>>, l: Id, r: Id, y: Id)
    requires AncOk(parent, anc) && l in parent && r in parent
    ensures Lca(parent, anc, Some(l), Some(r)).None? <==> anc[l][0] != anc[r][0]
    ensures y in anc[l] && y in anc[r] ==>
      Lca(parent, anc, Some(l), Some(r)).Some? && y in anc[Lca(parent, anc, Some(l), Some(r)).value]
  {
    if y in anc[l] && y in anc[r] {
      AncestorAt(parent, anc, l, y);
      AncestorAt(parent, anc, r, y);
      var a, b := anc[l], anc[r];
      assert a[0] == anc[y][0] == b[0];
      CommonPrefixMaximal(a, b, |anc[y]|);
      var k := CommonPrefix(a, b);
      AncPrefixAt(parent, anc, l, k - 1);
      assert anc[a[k - 1]] == a[..k];
      assert a[..k][|anc[y]| - 1] == y;
    }
  }

  /** When one control is an ancestor of the other, it is the result. */
  lemma LcaOfAncestor(parent: map<Id, Option<Id>>, anc: map<Id, seq<Id>>, l: Id, r: Id)
    requires AncOk(parent, anc) && l in parent && r in parent && l in anc[r]
    ensures Lca(parent, anc, Some(l), Some(r)) == Some(l)
    ensures Lca(parent, anc, Some(r), Some(l)) == Some(l)
  {
    AncestorAt(parent, anc, r, l);
    AncLast(parent, anc, l);
    var a, b := anc[l], anc[r];
    CommonPrefixMaximal(a, b, |a|);
    CommonPrefixMaximal(b, a, |a|);
    assert a[0] == b[0];
  }

  /** `IsAncestorOrDescendant`: whichever of the two is an ancestor of the
      other, or null when neither is. */
  ghost function AncestorOrDescendant(parent: map<Id, Option<Id>>, anc: map<Id, seq<Id>>,
                                      left: Option<Id>, right: Option<Id>): (z: Option<Id>)
    requires AncOk(parent, anc)
    requires left.Some? ==> left.value in parent
    requires right.Some? ==> right.value in parent
    ensures z.Some? ==> left.Some? && right.Some? && (z == left || z == right)
    ensures z.Some? ==> z.value in anc[left.value] && z.value in anc[right.value]
  {
    if left.None? || right.None? then None
    else if left.value in anc[right.value] then AncLast(parent, anc, left.value); left
    else if right.value in anc[left.value] then AncLast(parent, anc, right.value); right
    else None
  }

  /** Whenever one is an ancestor of the other, the answer is their lowest
      common ancestor; otherwise it is null. */
  lemma AncestorOrDescendantIsLca(parent: map<Id, Option<Id>>, anc: map<Id, seq<Id>>, l: Id, r: Id)
    requires AncOk(parent, anc) && l in parent && r in parent
    ensures var z := AncestorOrDescendant(parent, anc, Some(l), Some(r));
      && (z.Some? ==> z == Lca(parent, anc, Some(l), Some(r)))
      && (z.None? <==> l !in anc[r] && r !in anc[l])
  {
    if l in anc[r] {
      LcaOfAncestor(parent, anc, l, r);
    } else if r in anc[l] {
      LcaOfAncestor(parent, anc, r, l);
    }
  }
}
