/** The window registry and native-message routing of CruUI/UI/Window.cpp:
    `WindowManager` (handle -> window map), `Window`'s handle bookkeeping,
    the message switch and `GeneralWndProc`. The native window itself
    (creation, painting, resizing, client-rect queries) is outside the model:
    handles are opaque numbers, and the client size is an input. */
module Windows {
  import opened Wrappers
  import opened Geometry

  /** A native window handle (`HWND`); 0 is the null handle. */
  type Hwnd = nat
  const NullHwnd: Hwnd := 0

  /** Win32 message codes the switch recognises. */
  const WM_DESTROY: int := 0x0002
  const WM_SIZE: int := 0x0005
  const WM_PAINT: int := 0x000F
  const WM_ERASEBKGND: int := 0x0014

  /** The `std::runtime_error`s the registry throws. */
  datatype RegistryError = AlreadyInMap | NotInMap

  /** What the switch of `HandleWindowMessage` answers: handled with an
      `LRESULT`, or not handled. */
  datatype Reply = Handled(result: int) | NotHandled

  /** What `GeneralWndProc` returns: the window's own result, or whatever the
      default window procedure returns. */
  datatype WndProcReply = FromWindow(result: int) | DefaultProcedure

  /** The switch of `HandleWindowMessage`. */
  function MessageReply(msg: int): (r: Reply)
    ensures r.Handled? <==> msg in {WM_PAINT, WM_SIZE, WM_DESTROY, WM_ERASEBKGND}
    ensures r.Handled? ==> r.result == (if msg == WM_ERASEBKGND then 1 else 0)
  {
    if msg == WM_PAINT then Handled(0)
    else if msg == WM_ERASEBKGND then Handled(1)
    else if msg == WM_SIZE then Handled(0)
    else if msg == WM_DESTROY then Handled(0)
    else NotHandled
  }

  class WindowManager {
    var windowMap: map<Hwnd, Window>
    /** Whether `Application::Quit` has been requested. */
    var quitRequested: bool

    /** Every window is registered under its own handle. */
    ghost predicate Valid()
      reads this, windowMap.Values
    {
      forall h | h in windowMap :: windowMap[h].hwnd == h
    }

    constructor ()
      ensures windowMap == map[] && !quitRequested
      ensures Valid()
    {
      windowMap := map[];
      quitRequested := false;
    }

    /** `RegisterWindow(hwnd, window)`. */
    method RegisterWindow(hwnd: Hwnd, window: Window) returns (r: Outcome<RegistryError>)
      modifies this
      ensures r.Fail? <==> hwnd in old(windowMap)
      ensures r.Fail? ==> r.error == AlreadyInMap && windowMap == old(windowMap)
      ensures r.Pass? ==> windowMap == old(windowMap)[hwnd := window]
      ensures quitRequested == old(quitRequested)
      ensures old(Valid()) && window.hwnd == hwnd ==> Valid()
    {
      if hwnd in windowMap {
        return Fail(AlreadyInMap);
      }
      windowMap := windowMap[hwnd := window];
      r := Pass;
    }

    /** `UnregisterWindow(hwnd)`: quit is requested when the map becomes
        empty. */
    method UnregisterWindow(hwnd: Hwnd) returns (r: Outcome<RegistryError>)
      modifies this
      ensures r.Fail? <==> hwnd !in old(windowMap)
      ensures r.Fail? ==> r.error == NotInMap && windowMap == old(windowMap)
      ensures r.Pass? ==> windowMap == old(windowMap) - {hwnd}
      ensures quitRequested == (old(quitRequested) || (r.Pass? && windowMap == map[]))
      ensures old(Valid()) ==> Valid()
    {
      if hwnd !in windowMap {
        return Fail(NotInMap);
      }
      windowMap := windowMap - {hwnd};
      if windowMap == map[] {
        quitRequested := true;
      }
      r := Pass;
    }

    /** `FromHandle(hwnd)`: the mapped window, or null. */
    function FromHandle(hwnd: Hwnd): (w: Window?)
      reads this
      ensures w == null <==> hwnd !in windowMap
      ensures w != null ==> w == windowMap[hwnd]
    {
      if hwnd in windowMap then windowMap[hwnd] else null
    }
  }

  class Window {
    var hwnd: Hwnd

    /** `Window()`: `created` is the handle `CreateWindowEx` returned. A null
        handle throws; otherwise the window registers itself. */
    static method Create(manager: WindowManager, created: Hwnd) returns (r: Result<Window, string>)
      requires manager.Valid()
      modifies manager
      ensures manager.Valid()
      ensures created == NullHwnd ==> r.Err? && manager.windowMap == old(manager.windowMap)
      ensures created != NullHwnd && created in old(manager.windowMap) ==>
        r.Err? && manager.windowMap == old(manager.windowMap)
      ensures created != NullHwnd && created !in old(manager.windowMap) ==>
        r.Ok? && r.value.hwnd == created && fresh(r.value)
        && manager.windowMap == old(manager.windowMap)[created := r.value]
      ensures manager.quitRequested == old(manager.quitRequested)
    {
      if created == NullHwnd {
        return Err("Failed to create window.");
      }
      var w := new Window.WithHandle(created);
      var reg := manager.RegisterWindow(created, w);
      if reg.Fail? {
        return Err("The hwnd is already in the map.");
      }
      r := Ok(w);
    }

    constructor WithHandle(h: Hwnd)
      ensures hwnd == h
    {
      hwnd := h;
    }

    /** `IsWindowValid()`: not yet destroyed. */
    predicate IsWindowValid(): (valid: bool)
      reads this
      ensures valid <==> hwnd != NullHwnd
    {
      hwnd != NullHwnd
    }

    /** `Close()`: asks the platform to destroy a valid window (the platform
        then delivers `WM_DESTROY`); on an invalid window it does nothing. */
    method Close() returns (destroyRequested: bool)
      ensures destroyRequested == (old(hwnd) != NullHwnd)
    {
      destroyRequested := IsWindowValid();
    }

    /** `OnDestroyInternal()`: unregisters the handle, then nulls it. When
        the handle is not registered the exception leaves it in place. */
    method OnDestroyInternal(manager: WindowManager) returns (r: Outcome<RegistryError>)
      requires manager.Valid()
      modifies this, manager
      ensures manager.Valid()
      ensures r.Fail? <==> old(hwnd) !in old(manager.windowMap)
      ensures r.Pass? ==> manager.windowMap == old(manager.windowMap) - {old(hwnd)} && !IsWindowValid()
      ensures r.Fail? ==> r.error == NotInMap && manager.windowMap == old(manager.windowMap) && hwnd == old(hwnd)
      ensures manager.quitRequested == (old(manager.quitRequested) || (r.Pass? && manager.windowMap == map[]))
    {
      r := manager.UnregisterWindow(hwnd);
      if r.Pass? {
        hwnd := NullHwnd;
      }
    }

    /** `HandleWindowMessage(hwnd, msg, ...)`: the reply of the switch, after
        running the destroy handler for `WM_DESTROY` (painting and resizing
        act on the native surface only). */
    method HandleWindowMessage(manager: WindowManager, msg: int) returns (r: Result<Reply, RegistryError>)
      requires manager.Valid()
      modifies this, manager
      ensures manager.Valid()
      ensures msg != WM_DESTROY ==>
        && r == Ok(MessageReply(msg))
        && hwnd == old(hwnd) && manager.windowMap == old(manager.windowMap)
        && manager.quitRequested == old(manager.quitRequested)
      ensures msg == WM_DESTROY && old(hwnd) in old(manager.windowMap) ==>
        && r == Ok(Handled(0)) && !IsWindowValid()
        && manager.windowMap == old(manager.windowMap) - {old(hwnd)}
        && manager.quitRequested == (old(manager.quitRequested) || manager.windowMap == map[])
      ensures msg == WM_DESTROY && old(hwnd) !in old(manager.windowMap) ==>
        && r == Err(NotInMap) && hwnd == old(hwnd) && manager.windowMap == old(manager.windowMap)
        && manager.quitRequested == old(manager.quitRequested)
    {
      if msg == WM_DESTROY {
        var d := OnDestroyInternal(manager);
        if d.Fail? {
          return Err(d.error);
        }
      }
      r := Ok(MessageReply(msg));
    }

    /** `GetRectRelativeToParent()`: the client area, from the client size
        the platform reports, with its lefttop at the origin. */
    static function RectRelativeToParent(clientWidth: real, clientHeight: real): (r: Rect)
      ensures r.Lefttop() == Origin
      ensures r.GetSize() == Size(clientWidth, clientHeight)
    {
      FromVertices(0.0, 0.0, clientWidth, clientHeight)
    }

    /** `IsPointInside(point)`: the half-open test against the client rect. */
    static function IsPointInside(clientWidth: real, clientHeight: real, p: Point): (inside: bool)
      ensures inside ==> 0.0 <= p.x && 0.0 <= p.y
      ensures inside ==> clientWidth > 0.0 && clientHeight > 0.0
    {
      RectRelativeToParent(clientWidth, clientHeight).IsPointInside(p)
    }
  }

  /** A point is inside the window exactly when it lies in
      [0, width) x [0, height). */
  lemma WindowContainment(clientWidth: real, clientHeight: real, p: Point)
    ensures Window.IsPointInside(clientWidth, clientHeight, p)
        <==> 0.0 <= p.x < clientWidth && 0.0 <= p.y < clientHeight
  {
    FromVerticesContainment(0.0, 0.0, clientWidth, clientHeight, p);
  }

  /** `GeneralWndProc(hWnd, msg, ...)`: routes to the registered window and
      uses its result only when it handled the message. */
  method GeneralWndProc(manager: WindowManager, hwnd: Hwnd, msg: int) returns (r: Result<WndProcReply, RegistryError>)
    requires manager.Valid()
    modifies manager, manager.windowMap.Values
    ensures manager.Valid()
    ensures hwnd !in old(manager.windowMap) ==>
      && r == Ok(DefaultProcedure)
      && manager.windowMap == old(manager.windowMap)
    ensures hwnd in old(manager.windowMap) && msg != WM_DESTROY ==>
      r == Ok(match MessageReply(msg)
              case Handled(v) => FromWindow(v)
              case NotHandled => DefaultProcedure)
    ensures msg != WM_DESTROY ==> manager.windowMap == old(manager.windowMap)
    ensures hwnd in old(manager.windowMap) && msg == WM_DESTROY ==>
      && r == Ok(FromWindow(0))
      && old(manager.windowMap)[hwnd].hwnd == NullHwnd
      && manager.windowMap == old(manager.windowMap) - {hwnd}
      && manager.quitRequested == (old(manager.quitRequested) || manager.windowMap == map[])
    ensures hwnd !in old(manager.windowMap) || msg != WM_DESTROY ==>
      manager.quitRequested == old(manager.quitRequested)
  {
    var window := manager.FromHandle(hwnd);
    if window == null {
      return Ok(DefaultProcedure);
    }
    var reply := window.HandleWindowMessage(manager, msg);
    match reply {
      case Err(e) => r := Err(e);
      case Ok(Handled(v)) => r := Ok(FromWindow(v));
      case Ok(NotHandled) => r := Ok(DefaultProcedure);
    }
  }

  /** Destroying the only registered window empties the registry and
      requests quit. */
  method LastWindowDestroyed(manager: WindowManager, w: Window)
    requires manager.windowMap == map[w.hwnd := w] && w.hwnd != NullHwnd
    modifies manager, w
    ensures manager.windowMap == map[] && manager.quitRequested && !w.IsWindowValid()
  {
    var r := w.HandleWindowMessage(manager, WM_DESTROY);
  }
}
