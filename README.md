# CruUI control tree, in Dafny

A model of the retained-mode UI core of CruUI, a small Win32/Direct2D UI
library in C++, together with proofs about that model. It covers:

- **The control tree** (`Control`). This is the parent pointer, the ordered
  child list, the back-reference to the `Window` a tree is attached to, and
  the cached absolute lefttop. It includes the guarded `AddChild` /
  `RemoveChild` overloads, `GetAncestor`, the pre-order `TraverseDescendants`,
  the position cache, focus queries, the root-first ancestor lists and the
  lowest common ancestor.
- **Mouse-event bubbling** (`Window::DispatchMouseEvent`).
- **The window registry and message routing** (`WindowManager`,
  `HandleWindowMessage`, `GeneralWndProc`).
- **The geometry value types** (`Point`, `Size`, `Rect`, `Thickness`).
- **The event channel** (`Event<Args>`).
- **The timer registry** (`TimerManager`).
- **The `HResultError` message** and `ThrowIfFailed`.

Every `Control` lives in one value, `Arenas.Arena`, which maps each control's
identity to each of its fields. `Controls.ControlTree` is the class that holds
the arena and updates it in place, as the source's member functions do. It
also holds a ghost map `anc` from each control to its root-first ancestor
list. This list is what `GetAncestorList` returns. With it:

- acyclicity is the invariant `Forest.AncOk`;
- every walk up the parent chain terminates;
- the subtree of `c` is the set of controls whose ancestor list contains `c`.

The invariants are stated as predicates:

- `Forest.Wf`: parent and children agree, child lists have no repeats, and a
  Window never has a parent.
- `Forest.WindowsOk`: every control of a Window-rooted tree points at that
  Window, and every other control points at null.
- `Arenas.ArenaOk`: the arena as a whole, combining the two.
- `Arenas.CacheOk`: every control in a Window's tree caches its absolute
  position. A control outside a Window's tree is refreshed when it is
  attached, so its cache is not constrained.

The public tree operations keep `ArenaOk` and `CacheOk`. These are the `ControlTree` constructor, `NewControl`,
`NewWindow`, `AddChild`, `AddChildAt`, `RemoveChild` and `RemoveChildAt`.
The internal steps they are built from may break `WindowsOk` in between.
These steps are `OnAttachToWindow`, `OnDetachToWindow` and `SetWindowOfAll`.

The cached absolute position is related to the relative lefttops by
`Forest.Absolute`. This is the sum of the relative lefttops along the
ancestor list, where a Window's relative lefttop is always the origin.

Files:

| file | module | what it holds |
|---|---|---|
| wrappers.dfy | Wrappers | `Option`, `Outcome` (success or a thrown error), `Result` |
| geometry.dfy | Geometry | `Point`, `Size`, `Rect`, `Thickness` |
| forest.dfy | Forest | the tree invariants and the lemmas about linking, unlinking, traversal, paths and ancestors |
| arena.dfy | Arenas | the arena of controls and the invariant lemmas lifted to it |
| control.dfy | Controls | `ControlTree` and the loops of the control operations |
| dispatch.dfy | MouseDispatch | `DispatchMouseEvent` and the mouse event arguments |
| findings.dfy | ControlFindings | the operations as written where they differ from what is intended |
| window.dfy | Windows | `WindowManager`, `Window`, the message switch, `GeneralWndProc` |
| event.dfy | Events | `Event<Args>` |
| timer.dfy | Timers | `TimerManager`, `TimerTask_Impl`, `SetTimeout`, `SetInterval` |
| hresult.dfy | HResult | `HResultError::MakeMessage`, the constructors, `ThrowIfFailed` |

Modelling decisions:

- **Errors.** `std::invalid_argument` and `std::runtime_error` become
  `Fail(...)` results, and the state is left unchanged. The source throws
  before touching anything in every one of these cases.
- **Uninitialised fields.** `window_` and `parent_` are never initialised by
  the `Control` constructor (CruUI/UI/Control.cpp:49-52). They are modelled as
  null at construction, which is what every caller assumes.
- **Mismatched declarations.** `Control.cpp` and `Control.h` disagree on
  several names (`foreachChild` / `ForeachChild`, `GetRectRelativeToParent` /
  `GetPositionRelative`). The bodies in `Control.cpp` are followed. The
  relative lefttop is a plain field, except for a Window, whose relative rect
  always has its lefttop at the origin (CruUI/UI/Window.cpp:143-151).
- **`HasFocus`.** One could read its assignment-in-condition as "always
  returns false". In fact the false branch is never taken and the call goes
  on to dereference a null pointer. The model follows the code (see
  Findings).
- **The timer instance.** `SetTimeout`, `SetInterval` and `TimerTask_Impl::Cancel`
  reach the platform through `TimerManager::instance`, which is null until a
  `TimerManager` is constructed. The null dereference that follows is modelled
  as the `NullInstance` error result, and nothing changes in that case.
- **Positional `AddChild`.** `AddChild(control, position)` announces `this`
  rather than `control` to `OnAddChild`. This is modelled as written: the whole
  subtree of the receiver is re-attached, a superset of the new child's
  subtree. The only visible difference is that a Window receiver then points
  at itself. `WindowRefOk` allows this.
- **`DispatchMouseEvent`.** The source has two copies of the bubbling loop,
  one per kind of argument. The model has one loop (`MouseDispatch.Bubble`),
  whose arguments are built by `MouseDispatch.ArgsFor`, which holds both
  branches.

## Model

| member | source | states |
|---|---|---|
| Arenas.Allocated | CruUI/UI/Control.cpp:49-52 | a new control is a root with no children, no window and a zero cache, under a fresh identity |
| Arenas.AllocatedOk | CruUI/UI/Control.cpp:49-52 | adding a new control, plain or Window, keeps every tree and window-reference invariant |
| Arenas.RootWindowAtOrigin | CruUI/UI/Window.cpp:143-151 | a Window that is a root has the origin as its absolute position |
| Arenas.AllocatedCacheOld | CruUI/UI/Control.cpp:49-52 | after a new control is added, an older control in a Window's tree keeps a right cache, since its path does not pass through the new one |
| Arenas.AllocatedCacheOk | CruUI/UI/Control.cpp:49-52 | adding a new control, plain or Window, keeps every control in a Window's tree caching its absolute position |
| Arenas.LinkCacheAt | CruUI/UI/Control.cpp:246-256 | after a subtree is hung under `x` and `OnAddChild` has run, one control in a Window's tree caches its absolute position |
| Arenas.LinkCacheOk | CruUI/UI/Control.cpp:246-256 | after a subtree is hung under `x` and `OnAddChild` has run, every control in a Window's tree caches its absolute position |
| Arenas.UnlinkedRoot | CruUI/UI/Control.cpp:118-143 | once child `c` is cut off, every control under it has `c` as its root |
| Arenas.UnlinkCacheAt | CruUI/UI/Control.cpp:258-267 | after a child is cut off, a control still in a Window's tree keeps a right cache, since its path is unchanged |
| Arenas.UnlinkCacheOk | CruUI/UI/Control.cpp:258-267 | removing a child keeps every control in a Window's tree caching its absolute position, without any refresh |
| Arenas.ReframeOk | CruUI/UI/Control.h:222-230 | the tree shape does not depend on the values of the window references or the cache |
| Arenas.LinkOk | CruUI/UI/Control.cpp:93-116 | hanging a parentless non-Window control under `x` keeps the tree invariants, and attaching the new subtree (or that of `x`) to the Window makes the window references right again |
| Arenas.UnlinkOk | CruUI/UI/Control.cpp:131-143 | cutting a child loose keeps the tree invariants, and detaching its subtree makes the window references right again |
| Forest.AddRootOk | CruUI/UI/Control.cpp:49-52 | a fresh root keeps `Wf` and `WindowsOk` |
| Forest.AddRootAncOk | CruUI/UI/Control.cpp:49-52 | a fresh root has ancestor list `[c]` and the others' lists are still right |
| Forest.AddRootChildrenOk | CruUI/UI/Control.cpp:49-52 | a fresh root with no children keeps parent/children agreement |
| Forest.AddRootWindowsOk | CruUI/UI/Control.cpp:49-52 | a fresh root, plain or Window, has a null window reference and keeps `WindowsOk` |
| Forest.AncLast | CruUI/UI/Control.cpp:367-376 | the ancestor list of a control is non-empty and ends with the control |
| Forest.AncPrefixAt | CruUI/UI/Control.cpp:367-376 | each entry of an ancestor list has as its own list the prefix ending at that entry |
| Forest.AncestorAt | CruUI/UI/Control.cpp:367-376 | an ancestor's list is a prefix of the descendant's list |
| Forest.AncDistinct | CruUI/UI/Control.cpp:367-376 | an ancestor list has no repeats: the parent chain has no cycle |
| Forest.AncInTree | CruUI/UI/Control.cpp:367-376 | every entry of an ancestor list is a control |
| Forest.AncBelow | CruUI/UI/Control.cpp:163-170 | below a proper ancestor `x` of `y`, the next entry of `y`'s list is a child of `x` whose list extends that of `x` |
| Forest.BelowChild | CruUI/UI/Control.cpp:163-170 | the same, with that child found in `x`'s child list |
| Forest.UnderChild | CruUI/UI/Control.cpp:163-170 | a control under child `c` of `x` is a proper descendant of `x`, reached through `c` |
| Forest.ChildShrinks | CruUI/UI/Control.cpp:163-170 | the recursion of the traversal into a child terminates: the child has fewer controls outside its ancestor list |
| Forest.PreOrderMembers | CruUI/UI/Control.cpp:163-176 | the pre-order of `x` holds exactly the controls of the subtree of `x` |
| Forest.PreOrderFromMembers | CruUI/UI/Control.cpp:163-170 | the pre-order of children `i..` of `x` holds exactly the controls below those children |
| Forest.ChildSplit | CruUI/UI/Control.cpp:163-170 | being below children `i..` of `x` is being below child `i` or below children `i+1..` |
| Forest.PreOrderDistinct | CruUI/UI/Control.cpp:163-176 | the traversal visits no control twice |
| Forest.PreOrderFromDistinct | CruUI/UI/Control.cpp:163-170 | the traversal of children `i..` visits no control twice |
| Forest.InsertAt | CruUI/UI/Control.cpp:109-111 | inserting before `pos` puts the control at `pos`, keeps the order of the others, and appends when `pos` is the length |
| Forest.EraseAt | CruUI/UI/Control.cpp:123-125 | erasing entry `i` keeps the entries before and after it in order |
| Forest.OrphanIsRoot | CruUI/UI/Control.cpp:84-88 | a control without a parent is on the ancestor list of `y` only as its root |
| Forest.LinkAncOk | CruUI/UI/Control.cpp:93-100 | after `control->parent_ = this` the ancestor lists of the subtree of `control` are prefixed with that of `x`, and the invariant holds |
| Forest.InsertDistinct | CruUI/UI/Control.cpp:109-111 | inserting a new control keeps a child list free of repeats and adds exactly that control |
| Forest.LinkChildrenOk | CruUI/UI/Control.cpp:93-113 | the insertion into `children_` and the new `parent_` agree |
| Forest.LinkPreservesWf | CruUI/UI/Control.cpp:93-113 | linking a parentless non-Window control that is not the root of `x` keeps `Wf` |
| Forest.LinkedShape | CruUI/UI/Control.cpp:93-113 | after linking, a control's ancestor list gains the list of `x` in front exactly when it was in the subtree of `control` |
| Forest.Retarget | CruUI/UI/Control.cpp:269-277 | the window references after `OnAttachToWindow`/`OnDetachToWindow` over a set of controls: those get `w`, the rest keep theirs |
| Forest.LinkWindowsOk | CruUI/UI/Control.cpp:246-256 | after linking under a Window-rooted `x`, attaching the subtree of `control` (or of `x`) to that Window restores `WindowsOk`, and under any other root nothing needs changing |
| Forest.LinkWindowAt | CruUI/UI/Control.cpp:246-256 | the same for one control |
| Forest.UnlinkAncAt | CruUI/UI/Control.cpp:123-127 | after cutting child `c` loose, each control's ancestor list loses the part above `c` when it is in the subtree of `c`, and links up again |
| Forest.UnlinkAncOk | CruUI/UI/Control.cpp:131-140 | cutting a child loose keeps the ancestor-list invariant |
| Forest.EraseDistinct | CruUI/UI/Control.cpp:123-125 | erasing an entry keeps a child list free of repeats and removes exactly that entry |
| Forest.UnlinkChildrenOk | CruUI/UI/Control.cpp:131-140 | the erasure from `children_` and the cleared `parent_` agree |
| Forest.UnlinkPreservesWf | CruUI/UI/Control.cpp:131-140 | cutting a child loose keeps `Wf` |
| Forest.UnlinkedShape | CruUI/UI/Control.cpp:131-140 | in the subtree of `c` an ancestor list is split into the list of `x` and the new list from `c`; outside it nothing changes |
| Forest.UnlinkWindowsOk | CruUI/UI/Control.cpp:258-267 | detaching the cut-loose subtree from the Window restores `WindowsOk` |
| Forest.UnlinkWindowAt | CruUI/UI/Control.cpp:258-267 | the same for one control |
| Forest.PathOffsetFrame | CruUI/UI/Control.cpp:200-210 | the summed offset of a path depends only on the offsets of the controls on it |
| Forest.PathOffsetAppend | CruUI/UI/Control.cpp:200-210 | the summed offset of a concatenated path is the sum of the two parts |
| Forest.Above | CruUI/UI/Control.cpp:200-208 | the proper ancestors of `x`, root first, are its ancestor list without `x` |
| Forest.PathFrom | CruUI/UI/Control.cpp:354-365 | the path from an ancestor `x` down to `y` completes the controls above `x` to the ancestor list of `y` |
| Forest.Offsets | CruUI/UI/Window.cpp:143-151 | every control has a relative lefttop, the origin for a Window |
| Forest.RefreshedAtSelf | CruUI/UI/Control.cpp:356-361 | the refresh stores in `x` the parent's absolute lefttop plus the relative lefttop of `x` |
| Forest.PathSplit | CruUI/UI/Control.cpp:200-210 | the absolute position of `y` is the offset of the controls above `x` plus that of the path from `x` to `y` |
| Forest.PathStep | CruUI/UI/Control.cpp:362-364 | one step of the recursion: the path from `x` is the offset of `x` plus the path from its child |
| Forest.CommonPrefix | CruUI/UI/Control.cpp:391-403 | the length of the common prefix of two lists, which differ right after it |
| Forest.CommonPrefixMaximal | CruUI/UI/Control.cpp:391-403 | no longer prefix is common |
| Forest.Lca | CruUI/UI/Control.h:238-240 | the lowest common ancestor is on both ancestor lists, and is null for a null argument |
| Forest.LcaIsLowest | CruUI/UI/Control.h:238-240 | it is null exactly when the roots differ, and every common ancestor is above it |
| Forest.LcaOfAncestor | CruUI/UI/Control.cpp:390-400 | when one is an ancestor of the other, in either order, that one is the answer |
| Forest.AncestorOrDescendant | CruUI/UI/Control.h:242-243 | when not null, the answer is one of the two arguments and an ancestor of both |
| Forest.AncestorOrDescendantIsLca | CruUI/UI/Control.h:242-243 | `IsAncestorOrDescendant` gives the ancestor when one is an ancestor of the other, which is their lowest common ancestor, and null exactly otherwise |
| Controls.NotReachedYet | CruUI/UI/Control.cpp:362-364 | a control under a later child has not yet been refreshed |
| Controls.ReachedBelow | CruUI/UI/Control.cpp:362-364 | a control reached by the first `i` children is in the subtree of `x` |
| Controls.ReachedAfter | CruUI/UI/Control.cpp:362-364 | a control under child `k` is reached once the first `i > k` children are done |
| Controls.ReachedThrough | CruUI/UI/Control.cpp:362-364 | a reached control other than `x` lies under one of the children done so far |
| Controls.NotReachedThrough | CruUI/UI/Control.cpp:362-364 | a control other than `x` under none of the children done so far is not reached |
| Controls.RootReached | CruUI/UI/Control.cpp:361 | `x` itself is reached from the start |
| Controls.ReachedAll | CruUI/UI/Control.cpp:354-365 | after all children, exactly the subtree of `x` has been reached |
| Controls.RefreshStepAt | CruUI/UI/Control.cpp:362-364 | refreshing child `i` from the new lefttop of `x` gives each of its controls the value the whole refresh gives it |
| Controls.PartlyRefreshed | CruUI/UI/Control.cpp:354-365 | the cache after the first `i` children: the reached controls hold their refreshed positions, the others keep theirs |
| Controls.RefreshStart | CruUI/UI/Control.cpp:356-361 | storing the lefttop of `x` is the state with no child refreshed |
| Controls.RefreshCacheStepAt | CruUI/UI/Control.cpp:362-364 | one child's refresh advances one control from `i` to `i + 1` children refreshed |
| Controls.RefreshCacheStep | CruUI/UI/Control.cpp:362-364 | one child's refresh advances the whole cache from `i` to `i + 1` children refreshed |
| Controls.RefreshEnd | CruUI/UI/Control.cpp:354-365 | after all children the cache is the refreshed one: the subtree holds its new positions, nothing else changed |
| Controls.RefreshedIsAbsoluteAt | CruUI/UI/Control.cpp:200-210 | starting from the sum of the ancestors' lefttops, a control's refreshed position is its absolute position |
| Controls.RefreshedIsAbsolute | CruUI/UI/Control.cpp:200-210 | the same for the whole cache |
| Controls.LastSharedEntry | CruUI/UI/Control.cpp:391-403 | the walk down two lists with the same root returns the last entry of their common prefix |
| Controls.Find | CruUI/UI/Control.cpp:120-122 | `std::find`: the first index holding `child`, or the length when there is none |
| Controls.TraverseDescendantsFrom | CruUI/UI/Control.cpp:163-170 | the visits of `TraverseDescendants_` are the pre-order of the subtree |
| Controls.GetAncestorList | CruUI/UI/Control.cpp:367-376 | the list built by prepending parents is the root-first ancestor list, empty for null |
| Controls.FindLowestCommonAncestor | CruUI/UI/Control.cpp:378-406 | the result is the lowest common ancestor: null for a null argument or different roots |
| Controls.SumOffsetsAbove | CruUI/UI/Control.cpp:202-208 | the loop sums the relative lefttops of exactly the proper ancestors |
| Controls.RefreshSubtree | CruUI/UI/Control.cpp:354-365 | the recursive refresh produces the refreshed cache |
| Controls.ControlTree.constructor | CruUI/UI/Control.h:222-230 | an empty tree satisfies the invariants, the position-cache invariant included |
| Controls.ControlTree.NewControl | CruUI/UI/Control.cpp:49-52 | a new control has no parent, no children, no window, its lefttop and a fresh identity, and the invariants hold, the position-cache invariant included |
| Controls.ControlTree.NewWindow | CruUI/UI/Window.cpp:92-107 | a new Window is a parentless root at the origin with a null window reference, and the invariants hold, the position-cache invariant included |
| Controls.ControlTree.Allocate | CruUI/UI/Control.cpp:49-52 | a new root is added and nothing else changes |
| Controls.ControlTree.GetParent | CruUI/UI/Control.cpp:59-62 | null exactly for a root, and the parent otherwise has `x` among its children |
| Controls.ControlTree.GetChildren | CruUI/UI/Control.cpp:79-82 | a copy of the child list: exactly the controls whose parent is `x`, each once |
| Controls.ControlTree.GetWindow | CruUI/UI/Control.cpp:158-161 | the Window at the root of the tree of `x` when attached to it, and null outside a Window's tree |
| Controls.ControlTree.ForeachChild | CruUI/UI/Control.cpp:64-68 | the visitor sees every child once, in order |
| Controls.ControlTree.ForeachChildUntil | CruUI/UI/Control.cpp:70-77 | the visitor sees a prefix of the children, every one but the last answering `Continue`, and stops early only after a `Break` |
| Controls.ControlTree.TraverseDescendants | CruUI/UI/Control.cpp:172-176 | every control of the subtree once, starting at `x`, parents before children |
| Controls.TopOfParentChain | CruUI/UI/Control.cpp:151-155 | following parents up from `x` ends at a parentless control, the root of `x` |
| Controls.ControlTree.GetAncestor | CruUI/UI/Control.cpp:145-156 | the window reference when set, otherwise the top of the parent chain; under the invariant, always the root |
| Controls.ControlTree.LocalToAbsolute | CruUI/UI/Control.cpp:188-192 | `AbsoluteToLocal` undoes it |
| Controls.ControlTree.AbsoluteToLocal | CruUI/UI/Control.cpp:194-198 | `LocalToAbsolute` undoes it |
| Controls.ControlTree.RefreshDescendantPositionCache | CruUI/UI/Control.cpp:354-365 | only the cache changes, and it becomes the refreshed cache of the subtree of `x` |
| Controls.ControlTree.InvalidatePositionCache | CruUI/UI/Control.cpp:200-210 | only the cache changes: every control of the subtree of `x` holds the sum of the relative lefttops along its ancestor list, and the others keep theirs |
| Controls.ControlTree.RequestFocus | CruUI/UI/Control.cpp:228-235 | false outside a Window's tree, otherwise the Window's answer |
| Controls.ControlTree.HasFocus | CruUI/UI/Control.cpp:237-244 | true exactly when the control is attached to a Window whose focus control it is |
| Controls.ControlTree.OnAttachToWindow | CruUI/UI/Control.cpp:269-272 | only the control's window reference changes, to `w` |
| Controls.ControlTree.OnDetachToWindow | CruUI/UI/Control.cpp:274-277 | only the control's window reference changes, to null |
| Controls.ControlTree.SetWindowOfAll | CruUI/UI/Control.cpp:249-251 | the visitor applied to each control sets exactly their window references |
| Controls.ControlTree.SetWindowOfSubtree | CruUI/UI/Control.cpp:249-251 | traversing with the visitor sets exactly the window references of the subtree |
| Controls.ControlTree.OnAddChild | CruUI/UI/Control.cpp:246-256 | in a Window's tree, attaches the subtree of `child` to that Window and recomputes the positions under `x`; otherwise nothing changes; the invariants hold afterwards |
| Controls.ControlTree.OnRemoveChild | CruUI/UI/Control.cpp:258-267 | in a Window's tree, detaches the subtree of `child`; otherwise nothing changes |
| Controls.ControlTree.AddChildCheck | CruUI/UI/Control.cpp:84-91 | fails for a control with a parent, then for a Window, then for the root of `x` (see Findings), and passes exactly otherwise |
| Controls.ControlTree.Link | CruUI/UI/Control.cpp:96-100 | the child is inserted and its parent set, and the arena is ready for `OnAddChild` |
| Controls.ControlTree.AddChild | CruUI/UI/Control.cpp:93-102 | on failure nothing changes; on success `control` is appended, its parent is `x`, the other children keep their order, its subtree is attached to the Window of `x` and the positions under `x` are recomputed; the invariants and the position-cache invariant hold afterwards |
| Controls.ControlTree.AddChildAt | CruUI/UI/Control.cpp:104-116 | fails as `AddChild` does and for a position outside `[0, count]`; otherwise inserts `control` at `position`, and the whole subtree of `x` is attached; the invariants and the position-cache invariant hold afterwards |
| Controls.ControlTree.Detach | CruUI/UI/Control.cpp:123-128 | the child is erased, its parent cleared, and its subtree detached from the Window |
| Controls.ControlTree.RemoveChild | CruUI/UI/Control.cpp:118-129 | fails, changing nothing, exactly when `child` is not a child; otherwise erases it, clears its parent and detaches its subtree (see Findings); the invariants and the position-cache invariant hold afterwards |
| Controls.ControlTree.RemoveChildAt | CruUI/UI/Control.cpp:131-143 | fails, changing nothing, exactly for a position outside `[0, count)`; otherwise erases that child, clears its parent and detaches its subtree; the invariants and the position-cache invariant hold afterwards |
| MouseDispatch.ArgsFor | CruUI/UI/Window.h:142-158 | the arguments name the current control as sender and the starting control as original sender; without a button they carry the point if any, with one the point and the button |
| MouseDispatch.GetPoint | CruUI/UI/Control.cpp:24-30 | the carried point in the control's coordinates, or the origin when there is none |
| MouseDispatch.Receivers | CruUI/UI/Window.h:143 | the longest prefix of the chain that does not reach the boundary |
| MouseDispatch.UpChainStep | CruUI/UI/Window.h:151 | following the parent of an entry of the reversed ancestor list gives the next entry, or null at the root |
| MouseDispatch.UpChainIsParentChain | CruUI/UI/Window.h:141-151 | the reversed ancestor list of the sender is its parent chain |
| MouseDispatch.Bubble | CruUI/UI/Window.h:141-161 | the loop calls the hook, in order, on exactly the receivers, each with its arguments |
| MouseDispatch.DispatchMouseEvent | CruUI/UI/Window.h:138-163 | the hook is called on the sender, its parent and so on, up to null or the boundary (not included), each time with that control as sender and the starting control as original sender |
| MouseDispatch.ReceiversWhole | CruUI/UI/Window.h:143 | with no boundary, or one off the chain, the walk runs through the root |
| MouseDispatch.ReceiversUntil | CruUI/UI/Window.h:143 | with the boundary at index `k`, exactly the first `k` controls receive the event |
| MouseDispatch.ReceiversAtSender | CruUI/UI/Window.h:143 | with the sender as the boundary nothing is called |
| MouseDispatch.ReceiversBelowAncestor | CruUI/UI/Window.h:132-137 | with an ancestor as the boundary, as for enter and leave events, the receivers are the controls strictly below it, deepest first |
| Events.RemoveFirst | CruUI/Event.h:54-59 | removing a handler drops exactly one entry when the token is registered and none otherwise, and adds nothing |
| Events.FirstIndex | CruUI/Event.h:56 | `std::find`: the first index of the token, or the length |
| Events.RemoveFirstIsErase | CruUI/Event.h:54-59 | removal erases exactly the first registration of the token and keeps the order of the rest |
| Events.RemoveAt | CruUI/Event.h:56-58 | with the first match at `i`, removal erases entry `i` |
| Events.RemoveAbsent | CruUI/Event.h:56-58 | removing an unregistered token leaves the list unchanged |
| Events.RemoveFirstMultiset | CruUI/Event.h:54-59 | removal drops exactly one registration of the token when there is one |
| Events.AddThenRemove | CruUI/Event.h:42-59 | adding a fresh token and removing it restores the list |
| Events.FirstIndexUnique | CruUI/Event.h:56 | an index before which the token does not occur, and which holds it or is the length, is the first index |
| Events.Event.constructor | CruUI/Event.h:32-35 | a new event has no registrations |
| Events.Event.AddHandler | CruUI/Event.h:42-47 | a fresh token is appended and returned |
| Events.Event.AddHandlerToken | CruUI/Event.h:49-52 | the token is appended, even when already registered |
| Events.Event.RemoveHandler | CruUI/Event.h:54-59 | the list becomes the list with the first registration of the token removed |
| Events.Event.Raise | CruUI/Event.h:61-65 | every registration is called once, in order, with the same arguments |
| Geometry.Rect.Right | CruUI/UI/UIBase.h:34-36 | the width is the span from the left edge to the right edge, which is not left of the left edge exactly when the width is non-negative |
| Geometry.Rect.Bottom | CruUI/UI/UIBase.h:38-40 | the height is the span from the top edge to the bottom edge, which is not above the top edge exactly when the height is non-negative |
| Geometry.Rect.IsPointInside | CruUI/UI/UIBase.h:54-60 | a point is inside exactly when it lies between the lefttop (included) and the right-bottom (excluded) corner; a rect with a point inside has positive width and height |
| Geometry.Rect.Lefttop | CruUI/UI/UIBase.h:42-44 | the point (left, top) |
| Geometry.Rect.Rightbottom | CruUI/UI/UIBase.h:46-48 | the point (right, bottom) |
| Geometry.Rect.GetSize | CruUI/UI/UIBase.h:50-52 | the size (width, height) |
| Geometry.RectAt | CruUI/UI/UIBase.h:27-28 | `Rect(lefttop, size)` has that lefttop and size, and its right-bottom is their sum |
| Geometry.FromVertices | CruUI/UI/UIBase.h:30-32 | the rect has the given left and top, and its right and bottom are the given ones |
| Geometry.UniformThickness | CruUI/UI/UIBase.h:71-72 | the same width on all four sides |
| Geometry.DefaultThickness | CruUI/UI/UIBase.h:70 | all four sides zero |
| Geometry.DegenerateRectIsEmpty | CruUI/UI/UIBase.h:54-60 | a rect with no width or no height contains no point |
| Geometry.EmptyRectContainsNothing | CruUI/UI/UIBase.h:62-65 | the default rect contains no point |
| Geometry.FromVerticesContainment | CruUI/UI/UIBase.h:30-60 | containment in a rect built from vertices is the half-open test on the vertices |
| Geometry.TranslateRoundTrip | CruUI/UI/Control.cpp:188-198 | adding and then subtracting an offset, in either order, is the identity |
| Geometry.ContainmentTranslates | CruUI/UI/UIBase.h:54-60 | containment does not change when the point and the rect are moved together |
| Windows.MessageReply | CruUI/UI/Window.cpp:122-141 | paint, size and destroy are handled with 0, erase-background with 1, and every other message is not handled |
| Windows.WindowManager.constructor | CruUI/UI/Window.cpp:51-57 | the registry starts empty, with no quit requested, and so every mapped window holds its own handle |
| Windows.WindowManager.RegisterWindow | CruUI/UI/Window.cpp:66-72 | fails, changing nothing, exactly when the handle is mapped; otherwise adds exactly that entry; a window registered under its own handle keeps every mapped window holding its own handle |
| Windows.WindowManager.UnregisterWindow | CruUI/UI/Window.cpp:74-82 | fails, changing nothing, exactly when the handle is not mapped; otherwise removes exactly that entry, and requests quit when the map is then empty |
| Windows.WindowManager.FromHandle | CruUI/UI/Window.cpp:84-90 | the mapped window, or null exactly when the handle is not mapped |
| Windows.Window.Create | CruUI/UI/Window.cpp:92-107 | a null handle throws; otherwise the window is registered under its handle, and every mapped window still holds its own handle |
| Windows.Window.WithHandle | CruUI/UI/Window.h:166 | a window holding the given handle |
| Windows.Window.IsWindowValid | CruUI/UI/Window.cpp:113-115 | a window is valid exactly while its handle is not null |
| Windows.Window.Close | CruUI/UI/Window.cpp:117-120 | destruction is requested exactly for a valid window |
| Windows.Window.OnDestroyInternal | CruUI/UI/Window.cpp:163-166 | the handle is unregistered and the window becomes invalid; an unregistered handle throws and changes nothing; every mapped window still holds its own handle |
| Windows.Window.HandleWindowMessage | CruUI/UI/Window.cpp:122-141 | the reply of the switch, and after `WM_DESTROY` the window is invalid and unregistered; every mapped window still holds its own handle |
| Windows.Window.RectRelativeToParent | CruUI/UI/Window.cpp:143-151 | the client rect, with its lefttop at the origin |
| Windows.Window.IsPointInside | CruUI/UI/Window.cpp:153-155 | a point inside the window has non-negative coordinates, and the client area is then non-empty |
| Windows.WindowContainment | CruUI/UI/Window.cpp:153-155 | a point is inside a window exactly when it lies in `[0, width) x [0, height)` |
| Windows.GeneralWndProc | CruUI/UI/Window.cpp:41-49 | the window's result is used only when the handle is registered and the message handled; otherwise the default procedure answers. `WM_DESTROY` to a registered window answers 0, makes that window invalid, unregisters the handle and requests quit when the map becomes empty; every window stays registered under its own handle |
| Windows.LastWindowDestroyed | CruUI/UI/Window.cpp:74-82 | destroying the only registered window empties the registry and requests quit |
| Timers.EntryFor | CruUI/Timer.cpp:25-31 | a looping entry for `loop`, a one-shot entry otherwise, both carrying the action |
| Timers.Killed | CruUI/Timer.cpp:36-44 | the id has no entry and the other ids keep theirs |
| Timers.KillIdempotent | CruUI/Timer.cpp:77-80 | killing twice is killing once |
| Timers.KillAbsent | CruUI/Timer.cpp:38-39 | killing an unknown id changes nothing |
| Timers.CreateThenKill | CruUI/Timer.cpp:22-44 | creating and killing an id restores a map that had no entry under it |
| Timers.InstanceSlot.constructor | CruUI/Timer.cpp:5 | the global instance starts null |
| Timers.TimerManager.constructor | CruUI/Timer.cpp:12-15 | the new manager becomes the global instance, with no entries |
| Timers.TimerManager.Dispose | CruUI/Timer.cpp:17-20 | the destructor clears the global instance |
| Timers.TimerManager.CreateTimer | CruUI/Timer.cpp:22-34 | the platform id is returned and its entry replaced by the new one |
| Timers.TimerManager.KillTimer | CruUI/Timer.cpp:36-44 | removes the id's entry and stops the platform timer when present, and does nothing otherwise |
| Timers.TimerManager.GetAction | CruUI/Timer.cpp:46-52 | the stored entry, or empty exactly for an unknown id |
| Timers.TimerManager.RunEntry | CruUI/Timer.cpp:25-31 | running an entry runs its action; a looping entry stays, a one-shot entry kills its own id |
| Timers.TimerTask.constructor | CruUI/Timer.cpp:66-70 | the task holds its id |
| Timers.TimerTask.Cancel | CruUI/Timer.cpp:77-80 | `KillTimer` on the task's id through the global instance: the entry is erased, and the platform timer is killed exactly when the id was mapped; a null-dereference fault exactly when no `TimerManager` exists |
| Timers.SetTimeout | CruUI/Timer.cpp:87-91 | a one-shot entry under the platform id and a task holding it, with no platform timer killed, or a null-dereference fault exactly when no `TimerManager` exists |
| Timers.SetInterval | CruUI/Timer.cpp:93-97 | a looping entry under the platform id and a task holding it, with no platform timer killed, or a null-dereference fault exactly when no `TimerManager` exists |
| Timers.OneShotScenario | CruUI/Timer.cpp:27-31 | with a live `TimerManager`, after a one-shot timer fires its action has run once and `GetAction` finds nothing, even after a later `Cancel` |
| HResult.Failed | CruUI/Exception.h:24 | `FAILED(h)`: the code is negative |
| HResult.Unsigned | CruUI/Exception.cpp:33-34 | a negative code prints as its 32-bit two's complement |
| HResult.SignedUnsigned | CruUI/Exception.cpp:33-34 | the printed pattern determines the code |
| HResult.HexDigits | CruUI/Exception.cpp:34 | `std::hex` writes lowercase hexadecimal digits |
| HResult.PadLeft | CruUI/Exception.cpp:33-34 | `setfill('0')`/`setw`: padded on the left with the fill up to the width, and the text follows |
| HResult.NewHResultError | CruUI/Exception.cpp:8-12 | the message is the prefix, the code's eight-digit hex field and a '.', and nothing after it |
| HResult.NewHResultErrorWithMessage | CruUI/Exception.cpp:14-18 | the message is the prefix, the code's eight-digit hex field, a '.', then the label and the message verbatim |
| HResult.MakeMessage | CruUI/Exception.cpp:30-38 | the message starts with the fixed prefix and is at least that plus eight digits and a '.' long |
| HResult.ThrowIfFailed | CruUI/Exception.h:23-26 | throws exactly for a negative code, with the prefix, the hex field and '.' as the text |
| HResult.ThrowIfFailedWithMessage | CruUI/Exception.h:28-31 | the same throw condition, with the message appended after its label |
| HResult.ParseHexDigits | CruUI/Exception.cpp:34 | the hex digits of `n` read back as `n` |
| HResult.ParseHexLeadingZeros | CruUI/Exception.cpp:33 | leading zeros do not change the number |
| HResult.HexDigitsLength | CruUI/Exception.cpp:34 | a number below `16^k` needs at most `k` digits |
| HResult.HexFieldLength | CruUI/Exception.cpp:33-34 | the hex field is exactly eight lowercase digits |
| HResult.HexFieldRoundTrip | CruUI/Exception.cpp:33-34 | the hex field denotes the code's 32-bit pattern, so the code reads back from it |
| HResult.ParseHexPadded | CruUI/Exception.cpp:33 | zero padding does not change the number |
| HResult.MessageDecodes | CruUI/Exception.cpp:30-38 | the message splits into the prefix, eight digits denoting the code, '.', and either nothing or the label followed by the message verbatim |
| HResult.ConstructorsShareHead | CruUI/Exception.cpp:8-18 | the two constructors' texts agree up to the '.' and differ only in the suffix |
| HResult.NonNegativeNeverThrows | CruUI/Exception.h:23-31 | non-negative codes, success codes included, never throw |
| ControlFindings.AddChildCheckAsWritten | CruUI/UI/Control.cpp:84-91 | the check as written: only the parent and the Window checks |
| ControlFindings.CycleLengths | CruUI/UI/Control.cpp:145-156 | with the root hung under `x`, ancestor lists would grow by one per step down the chain |
| ControlFindings.RootUnderItsDescendant | CruUI/UI/Control.cpp:145-156 | with the root hung under one of its descendants, no ancestor lists exist: the parent chain never ends |
| ControlFindings.AddChildCheckAcceptsCycle | CruUI/UI/Control.cpp:84-100 | the check as written lets the root of `x` through, and the result has a cycle |
| ControlFindings.RemoveChildAsWritten | CruUI/UI/Control.cpp:118-129 | `RemoveChild(Control*)` as written, which detaches what is left of the subtree of `x` |
| ControlFindings.RemoveChildLeavesChildAttached | CruUI/UI/Control.cpp:118-129 | as written, a removed child keeps its reference to the Window, so the window references no longer agree with the roots |
| ControlFindings.HasFocusAsWritten | CruUI/UI/Control.cpp:237-244 | `HasFocus` as written never returns normally |
| ControlFindings.HasFocusDereferencesNull | CruUI/UI/Control.cpp:237-244 | a control that is its Window's focus control makes the call dereference null, while the corrected `HasFocus` answers true |

## Left out

- `RefreshControlList` has no body in the source; the call is omitted from `OnAddChild` / `OnRemoveChild`, which otherwise are modelled in full.
- `Control::Draw` and `OnDraw`: Direct2D transform stack and drawing.
- `SetPositionRelative`, `SetSize`, `GetSize`, layout (`Measure`/`Layout`, layout params), hit-testing and the mouse/focus event hooks: declared, but no bodies to model; the relative lefttop is an input field.
- Coordinates are `real`; the source's `float` rounding is not modelled, so `Controls.ControlTree.LocalToAbsolute` and `AbsoluteToLocal` are exact inverses here.
- `Controls.ControlTree.RequestFocus` and `HasFocus`: the Window's `RequestFocusFor` and `GetFocusControl` have no bodies; they are function parameters.
- `MouseDispatch.DispatchMouseEvent`: the hook the loop calls is not modelled; the method returns the calls it makes, and hooks that change the tree while the event bubbles are excluded.
- `Events.Event.Raise`: handlers that add or remove registrations during `Raise` are excluded; what a handler does is not modelled.
- `HResultError::GetHResult`: the constructors never store `h_result_`, so the getter returns an uninitialised value and has no specifiable result.
- The native window: window-class registration, `CreateWindowEx` (its handle is an input), painting, `OnResizeInternal`, `GetClientRect` (the client size is an input), `DipToPixel`/`PixelToDip`.
- `Application`, the message loop, `InvokeLater`, the graphics manager and `Main`.
- The platform timer: `::SetTimer` returns the id given as input; `::KillTimer` is recorded in `platformKilled`; `SecondToMilliSecond` (float to `UINT`) is not modelled.
- The `WindowManager` constructor's window-class registration.
- `Windows.Window.Close`: `DestroyWindow` is a platform call; the method reports that destruction is requested, and the `WM_DESTROY` it leads to is `HandleWindowMessage`.

## Findings

| source | as written | input that shows it | evidently intended | confidence | as-written member | corrected member |
|---|---|---|---|---|---|---|
| CruUI/UI/Control.cpp:84-91 | `AddChildCheck` rejects a control with a parent and a Window, but not the root of the receiver's own tree | `c.AddChild(c)` for a parentless non-Window `c`, or `x.AddChild(r)` with `r` the root of `x`: the parent chain becomes a cycle and `GetAncestor` loops | reject the root of the receiver's tree, so the tree stays acyclic | not executed | ControlFindings.AddChildCheckAcceptsCycle | Controls.ControlTree.AddChildCheck |
| CruUI/UI/Control.cpp:128 | `RemoveChild(Control*)` calls `OnRemoveChild(this)` after erasing the child | removing child `c` of a control in a Window's tree: `c` keeps its window reference though it is now a root, while what is left of the receiver's subtree loses its own | `OnRemoveChild(child)`, as `RemoveChild(int)` does | not executed | ControlFindings.RemoveChildLeavesChildAttached | Controls.ControlTree.RemoveChild |
| CruUI/UI/Control.cpp:240 | `if (window = nullptr)` assigns null and tests it, so the branch is never taken and `window->GetFocusControl()` dereferences null | any control attached to a Window that has it as its focus control | `if (window == nullptr) return false;` then compare the focus control | not executed | ControlFindings.HasFocusDereferencesNull | Controls.ControlTree.HasFocus |
