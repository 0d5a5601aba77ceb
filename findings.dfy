/** The control operations as the source writes them, where that differs
    from what it evidently intends, with the inputs that show the
    difference. The rest of the model uses the corrected operations of
    `Controls.ControlTree`. */
module ControlFindings {
  import opened Wrappers
  import opened Forest
  import opened Arenas
  import opened Controls

  // ---------------------------------------------------------------------
  // `AddChildCheck` has no cycle check

  /** `AddChildCheck` as written: only the parent and the Window checks. */
  function AddChildCheckAsWritten(a: Arena, control: Id): (r: Outcome<TreeError>)
    requires control in a.parent
    ensures r.Pass? <==> a.parent[control].None? && control !in a.windows
    ensures a.parent[control].Some? ==> r == Fail(AlreadyHasParent)
    ensures a.parent[control].None? && control in a.windows ==> r == Fail(WindowAsChild)
  {
    if a.parent[control].Some? then Fail(AlreadyHasParent)
    else if control in a.windows then Fail(WindowAsChild)
    else Pass
  }

  /** Along the parent chain of `x`, once the root `r` of `x` has been hung
      under `x`, ancestor lists `b` would grow by one per step down from
      `r`. */
  lemma {:induction false} CycleLengths(parent: map<Id, Option<Id>>, anc: map<Id, seq<Id>>, x: Id,
                                        b: map<Id, seq<Id>>, k: nat)
    requires AncOk(parent, anc) && x in parent && k < |anc[x]|
    requires AncOk(parent[anc[x][0] := Some(x)], b)
    ensures anc[x][0] in b && anc[x][k] in b && |b[anc[x][k]]| == |b[anc[x][0]]| + k
  {
    AncPrefixAt(parent, anc, x, 0);
    AncPrefixAt(parent, anc, x, k);
    if k > 0 {
      CycleLengths(parent, anc, x, b, k - 1);
      var y, p := anc[x][k], anc[x][k - 1];
      AncPrefixAt(parent, anc, x, k - 1);
      AncDistinct(parent, anc, x);
      assert AncLink(parent, anc, y);
      assert parent[y] == Some(p) by {
        assert anc[y] == anc[x][..k] + [y];
        match parent[y]
        case None =>
        case Some(q) =>
          AncLast(parent, anc, q);
          assert anc[q] == anc[x][..k];
      }
      assert AncLink(parent[anc[x][0] := Some(x)], b, y);
    }
  }

  /** The input that shows it: any control `x` whose root is not a Window
      (its own root when `x` has no parent, as in `c.AddChild(c)`). The
      check as written lets the root through, and hanging it under `x`
      leaves a parent chain that never ends: no ancestor lists `b` fit it, and
      `GetAncestor` would loop for ever. The corrected
      `ControlTree.AddChildCheck` fails with `WouldCreateCycle`. */
  lemma AddChildCheckAcceptsCycle(a: Arena, anc: map<Id, seq<Id>>, x: Id, b: map<Id, seq<Id>>)
    requires ArenaOk(a, anc) && x in a.parent && anc[x][0] !in a.windows
    ensures anc[x][0] in a.parent
    ensures AddChildCheckAsWritten(a, anc[x][0]) == Pass
    ensures !AncOk(a.parent[anc[x][0] := Some(x)], b)
  {
    AncPrefixAt(a.parent, anc, x, 0);
    assert AncLink(a.parent, anc, anc[x][0]);
    RootUnderItsDescendant(a.parent, anc, x, b);
  }

  /** Hanging the root of `x` under `x` leaves no ancestor lists `b`: the
      root's list would be one longer than that of `x`, and that of `x`
      at least as long as the root's. */
  lemma RootUnderItsDescendant(parent: map<Id, Option<Id>>, anc: map<Id, seq<Id>>, x: Id, b: map<Id, seq<Id>>)
    requires AncOk(parent, anc) && x in parent
    ensures !AncOk(parent[anc[x][0] := Some(x)], b)
  {
    AncLast(parent, anc, x);
    var r := anc[x][0];
    if AncOk(parent[r := Some(x)], b) {
      AncPrefixAt(parent, anc, x, 0);
      assert AncLink(parent[r := Some(x)], b, r);
      CycleLengths(parent, anc, x, b, |anc[x]| - 1);
    }
  }

  // ---------------------------------------------------------------------
  // `RemoveChild(Control*)` announces the parent as the removed child

  /** `RemoveChild(Control*)` as written: after cutting child `i` of `x`
      loose it calls `OnRemoveChild(this)`, so when the tree of `x` belongs
      to a Window it detaches what is left of the subtree of `x`, not the
      removed child's subtree. */
  ghost function RemoveChildAsWritten(a: Arena, anc: map<Id, seq<Id>>, x: Id, i: nat): (r: Arena)
    requires x in a.children && x in anc && |anc[x]| > 0 && i < |a.children[x]|
    ensures r.parent == a.parent[a.children[x][i] := None]
    ensures r.children == a.children[x := EraseAt(a.children[x], i)]
  {
    var c := a.children[x][i];
    var r := WithoutChild(a, x, i);
    if anc[x][0] in a.windows then r.(window := Retarget(a.window, SubtreeOf(Unlinked(anc, x, c), x), None)) else r
  }

  /** The input that shows it: any child `c` of a control `x` in a Window's
      tree. As written, `c` keeps its reference to the Window although it
      is now a root of its own, so the window references no longer agree
      with the roots; the corrected `ControlTree.RemoveChild` leaves `c`
      with none. */
  lemma RemoveChildLeavesChildAttached(a: Arena, anc: map<Id, seq<Id>>, x: Id, i: nat)
    requires ArenaOk(a, anc) && x in a.parent && i < |a.children[x]| && anc[x][0] in a.windows
    ensures var c, r := a.children[x][i], RemoveChildAsWritten(a, anc, x, i);
      && r.window[c] == Some(anc[x][0])
      && !WindowsOk(r.window, Unlinked(anc, x, c), a.windows)
  {
    var c := a.children[x][i];
    var anc' := Unlinked(anc, x, c);
    var r := RemoveChildAsWritten(a, anc, x, i);
    assert a.parent[c] == Some(x);
    assert AncLink(a.parent, anc, c);
    AncLast(a.parent, anc, x);
    assert anc[c] == anc[x] + [c] && anc[c][0] == anc[x][0] && c != anc[x][0];
    assert WindowRefOk(a.window, anc, a.windows, c);
    UnlinkedShape(a.parent, anc, x, c, c);
    assert anc'[c] == [c];
    assert c !in SubtreeOf(anc', x);
    assert r.window[c] == Some(anc[x][0]);
    assert !WindowRefOk(r.window, anc', a.windows, c);
  }

  // ---------------------------------------------------------------------
  // `HasFocus` assigns where it means to compare

  /** What a call does: returns a value, or dereferences a null pointer. */
  datatype Behaviour = Returns(value: bool) | DereferencesNull

  /** `HasFocus` as written: `if (window = nullptr)` stores null in
      `window` and tests the stored value, which is false, so the call goes
      on to ask the null Window for its focus control. */
  function HasFocusAsWritten(window: Option<Id>, focusControl: Id -> Option<Id>, x: Id): (b: Behaviour)
    ensures b == DereferencesNull
  {
    var stored: Option<Id> := None;
    if stored.Some? then Returns(false)
    else DereferencesNull
  }

  /** The input that shows it: any control attached to a Window that has
      it as its focus control. As written the call dereferences null; the
      corrected `ControlTree.HasFocus` answers true. */
  lemma HasFocusDereferencesNull(t: ControlTree, x: Id, focusControl: Id -> Option<Id>)
    requires ArenaOk(t.arena, t.anc) && x in t.arena.parent
    requires t.anc[x][0] in t.arena.windows && x != t.anc[x][0] && focusControl(t.anc[x][0]) == Some(x)
    ensures HasFocusAsWritten(t.GetWindow(x), focusControl, x) == DereferencesNull
    ensures t.HasFocus(x, focusControl)
  {
  }
}
