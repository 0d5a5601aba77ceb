/** Mouse-event bubbling: `Window::DispatchMouseEvent` calls a hook on the
    control the event starts at, then on its parent and on up the parent
    chain, building the event arguments afresh at each step. The hook is a
    parameter of the source; here the dispatch returns the calls it makes,
    in order. */
module MouseDispatch {
  import opened Wrappers
  import opened Geometry
  import opened Forest

  /** The `MouseButton` enumerator the event carries. */
  type MouseButton = nat

  /** `MouseEventArgs` (a sender, the original sender and perhaps a point)
      and its subclass `MouseButtonEventArgs` (with a point and a button). */
  datatype MouseArgs =
    | MouseEventArgs(sender: Id, originalSender: Id, point: Option<Point>)
    | MouseButtonEventArgs(sender: Id, originalSender: Id, position: Point, button: MouseButton)

  /** One call of the hook: the control it runs on and its arguments. */
  datatype Invocation = Invocation(control: Id, args: MouseArgs)

  /** The arguments built for `control` when the event started at `sender`:
      a `MouseEventArgs` with or without the point when there is no button,
      a `MouseButtonEventArgs` otherwise. */
  function ArgsFor(control: Id, sender: Id, point: Option<Point>, button: Option<MouseButton>): (a: MouseArgs)
    requires button.Some? ==> point.Some?
    ensures a.sender == control && a.originalSender == sender
    ensures button.None? ==> a.MouseEventArgs? && a.point == point
    ensures button.Some? ==> a.MouseButtonEventArgs? && a.position == point.value && a.button == button.value
  {
    match button
    case None => MouseEventArgs(control, sender, point)
    case Some(b) => MouseButtonEventArgs(control, sender, point.value, b)
  }

  /** `MouseEventArgs::GetPoint`: the point in the coordinates of a control
      whose absolute lefttop is `lefttop`, or the origin when the event
      carries no point. */
  function GetPoint(args: MouseArgs, lefttop: Point): (p: Point)
    ensures args.MouseEventArgs? && args.point.Some? ==> AddPoints(p, lefttop) == args.point.value
    ensures args.MouseButtonEventArgs? ==> AddPoints(p, lefttop) == args.position
    ensures args.MouseEventArgs? && args.point.None? ==> p == Origin
  {
    match args
    case MouseEventArgs(_, _, point) => if point.Some? then SubPoints(point.value, lefttop) else Origin
    case MouseButtonEventArgs(_, _, position, _) => SubPoints(position, lefttop)
  }

  function Reverse(s: seq<Id>): (r: seq<Id>)
    ensures |r| == |s| && forall i | 0 <= i < |s| :: r[i] == s[|s| - 1 - i]
  {
    if s == [] then [] else [s[|s| - 1]] + Reverse(s[..|s| - 1])
  }

  /** The parent chain of `sender`: the control itself, its parent, and so
      on up to the root; empty for a null sender. */
  ghost function UpChain(anc: map<Id, seq<Id>>, sender: Option<Id>): seq<Id>
    requires sender.Some? ==> sender.value in anc
  {
    if sender.None? then [] else Reverse(anc[sender.value])
  }

  /** The controls of `chain` that receive the event: the longest prefix
      that does not reach `last`. */
  function Receivers(chain: seq<Id>, last: Option<Id>): (r: seq<Id>)
    ensures |r| <= |chain| && forall i | 0 <= i < |r| :: r[i] == chain[i] && Some(r[i]) != last
    ensures |r| < |chain| ==> Some(chain[|r|]) == last
  {
    if chain == [] || Some(chain[0]) == last then [] else [chain[0]] + Receivers(chain[1..], last)
  }

  /** `chain` is the parent chain from `start`: it begins at `start`, each
      entry's parent is the next entry and the last entry is a root; it is
      empty for a null start. */
  ghost predicate ParentChain(parent: map<Id, Option<Id>>, chain: seq<Id>, start: Option<Id>) {
    && (start.None? ==> chain == [])
    && (start.Some? ==> |chain| > 0 && chain[0] == start.value)
    && forall i | 0 <= i < |chain| :: ChainLink(parent, chain, i)
  }

  /** Entry `i` of `chain` has the next entry as its parent, or is a root
      when it is the last. */
  ghost predicate ChainLink(parent: map<Id, Option<Id>>, chain: seq<Id>, i: nat)
    requires i < |chain|
  {
    chain[i] in parent && parent[chain[i]] == if i + 1 < |chain| then Some(chain[i + 1]) else None
  }

  /** Following the parent of entry `i` of the parent chain of `x` gives
      entry `i + 1`, or null at the root. */
  lemma UpChainStep(parent: map<Id, Option<Id>>, anc: map<Id, seq<Id>>, x: Id, i: nat)
    requires AncOk(parent, anc) && x in parent && i < |anc[x]|
    ensures ChainLink(parent, UpChain(anc, Some(x)), i)
  {
    var n := |anc[x]|;
    var k := n - 1 - i;
    var y := anc[x][k];
    AncPrefixAt(parent, anc, x, k);
    assert AncLink(parent, anc, y);
    match parent[y]
    case None =>
      assert anc[x][..k + 1] == [y];
    case Some(p) =>
      assert anc[p] == anc[x][..k];
      AncLast(parent, anc, p);
  }

  /** The reversed ancestor list of a control is its parent chain. */
  lemma UpChainIsParentChain(parent: map<Id, Option<Id>>, anc: map<Id, seq<Id>>, sender: Option<Id>)
    requires AncOk(parent, anc) && (sender.Some? ==> sender.value in parent)
    ensures sender.Some? ==> sender.value in anc
    ensures ParentChain(parent, UpChain(anc, sender), sender)
  {
    if sender.Some? {
      var x := sender.value;
      AncLast(parent, anc, x);
      assert UpChain(anc, sender)[0] == anc[x][|anc[x]| - 1] == x;
      forall i | 0 <= i < |anc[x]|
        ensures ChainLink(parent, UpChain(anc, sender), i)
      {
        UpChainStep(parent, anc, x, i);
      }
    }
  }

  /** The loop of `DispatchMouseEvent` along a parent chain. */
  method Bubble(parent: map<Id, Option<Id>>, ghost chain: seq<Id>, sender: Option<Id>,
                point: Option<Point>, button: Option<MouseButton>, last: Option<Id>)
    returns (calls: seq<Invocation>)
    requires ParentChain(parent, chain, sender)
    requires button.Some? ==> point.Some?
    ensures var receivers := Receivers(chain, last);
      && |calls| == |receivers|
      && forall i | 0 <= i < |calls| ::
           sender.Some? && calls[i] == Invocation(receivers[i], ArgsFor(receivers[i], sender.value, point, button))
  {
    ghost var receivers := Receivers(chain, last);
    calls := [];
    var control := sender;
    ghost var i := 0;
    while control.Some? && control != last
      invariant i <= |receivers| && |calls| == i
      invariant i <= |chain| && (i < |chain| ==> control == Some(chain[i])) && (i == |chain| ==> control.None?)
      invariant forall j | 0 <= j < i ::
        sender.Some? && calls[j] == Invocation(receivers[j], ArgsFor(receivers[j], sender.value, point, button))
      decreases |chain| - i
    {
      assert i < |receivers| && receivers[i] == chain[i];
      assert ChainLink(parent, chain, i);
      var args := ArgsFor(control.value, sender.value, point, button);
      calls := calls + [Invocation(control.value, args)];
      control := parent[control.value];
      i := i + 1;
    }
  }

  /** `DispatchMouseEvent`: walks up from `sender`, stopping at null or at
      `last` (which does not receive the event), and calls the hook on each
      control passed with arguments naming that control as the sender and
      `sender` as the original sender. The source has one copy of the loop
      for each kind of arguments; they differ only in the arguments, which
      `ArgsFor` builds. */
  method DispatchMouseEvent(parent: map<Id, Option<Id>>, ghost anc: map<Id, seq<Id>>, sender: Option<Id>,
                            point: Option<Point>, button: Option<MouseButton>, last: Option<Id>)
    returns (calls: seq<Invocation>)
    requires AncOk(parent, anc) && (sender.Some? ==> sender.value in parent)
    requires button.Some? ==> point.Some?
    ensures var receivers := Receivers(UpChain(anc, sender), last);
      && |calls| == |receivers|
      && forall i | 0 <= i < |calls| ::
           sender.Some? && calls[i] == Invocation(receivers[i], ArgsFor(receivers[i], sender.value, point, button))
  {
    UpChainIsParentChain(parent, anc, sender);
    calls := Bubble(parent, UpChain(anc, sender), sender, point, button, last);
  }

  /** Without a boundary, or with one off the chain, every control of the
      chain receives the event, through the root. */
  lemma {:induction false} ReceiversWhole(chain: seq<Id>, last: Option<Id>)
    requires last.None? || last.value !in chain
    ensures Receivers(chain, last) == chain
  {
    if chain != [] {
      ReceiversWhole(chain[1..], last);
    }
  }

  /** With the boundary at index `k` of the chain and nowhere before it,
      the first `k` controls receive the event. */
  lemma {:induction false} ReceiversUntil(chain: seq<Id>, last: Option<Id>, k: nat)
    requires k < |chain| && Some(chain[k]) == last
    requires forall j | 0 <= j < k :: chain[j] != chain[k]
    ensures Receivers(chain, last) == chain[..k]
  {
    if k > 0 {
      ReceiversUntil(chain[1..], last, k - 1);
      assert chain[..k] == [chain[0]] + chain[1..][..k - 1];
    }
  }

  /** Starting at the boundary itself, nothing is called. */
  lemma ReceiversAtSender(parent: map<Id, Option<Id>>, anc: map<Id, seq<Id>>, x: Id)
    requires AncOk(parent, anc) && x in parent
    ensures Receivers(UpChain(anc, Some(x)), Some(x)) == []
  {
    AncLast(parent, anc, x);
    ReceiversUntil(UpChain(anc, Some(x)), Some(x), 0);
  }

  /** With an ancestor `a` of `x` as the boundary, as for mouse enter and
      leave events, the receivers are the controls on the path from `x` up
      to just below `a`: the last `|anc[x]| - |anc[a]|` entries of the
      ancestor list of `x`, deepest first. */
  lemma ReceiversBelowAncestor(parent: map<Id, Option<Id>>, anc: map<Id, seq<Id>>, x: Id, a: Id)
    requires AncOk(parent, anc) && x in parent && a in anc[x]
    ensures a in anc && |anc[a]| <= |anc[x]|
    ensures var r := Receivers(UpChain(anc, Some(x)), Some(a));
      && |r| == |anc[x]| - |anc[a]|
      && forall i | 0 <= i < |r| :: r[i] == anc[x][|anc[x]| - 1 - i]
  {
    AncestorAt(parent, anc, x, a);
    AncDistinct(parent, anc, x);
    var chain := UpChain(anc, Some(x));
    var n, k := |anc[x]|, |anc[x]| - |anc[a]|;
    assert chain[k] == anc[x][|anc[a]| - 1] == a;
    forall j | 0 <= j < k
      ensures chain[j] != chain[k]
    {
      assert chain[j] == anc[x][n - 1 - j];
    }
    ReceiversUntil(chain, Some(a), k);
  }
}
