/**
 * The window geometry of the Electron main process: the default rectangle a new
 * window gets, the options it is constructed with, and the record saved under
 * the store key "windowstate".
 */
module WindowGeometry {
  import opened Wrappers

  /** An Electron rectangle (display bounds or window bounds). */
  datatype Rectangle = Rectangle(x: int, y: int, width: int, height: int)

  /**
   * The record stored under "windowstate". The store drops fields whose value is
   * `undefined`, so every field is optional; the default record has no
   * `isMaximized` at all.
   */
  datatype WindowState = WindowState(
    width: Option<int>, height: Option<int>, x: Option<int>, y: Option<int>,
    isMaximized: Option<bool>)

  /** The options a window is constructed with (`show`, `title`, size, minimum size, position). */
  datatype WindowOptions = WindowOptions(
    show: bool, title: string,
    width: Option<int>, height: Option<int>,
    minWidth: int, minHeight: int,
    x: Option<int>, y: Option<int>,
    isMaximized: Option<bool>)

  const MinWidth: int := 200
  const MinHeight: int := 120

  /**
   * Two thirds of the display in each direction, centred on it by hand.
   * `Math.floor(w * (2 / 3))` is `2 * w / 3` here: Dafny's division by a
   * positive constant rounds down, like `Math.floor`.
   */
  function DefaultBounds(display: Rectangle): (r: Rectangle)
    // the size is two thirds of the display's, rounded down
    ensures 3 * r.width <= 2 * display.width < 3 * r.width + 3
    ensures 3 * r.height <= 2 * display.height < 3 * r.height + 3
    // the right (bottom) margin exceeds the left (top) one by at most one unit
    ensures 0 <= (display.x + display.width - (r.x + r.width)) - (r.x - display.x) <= 1
    ensures 0 <= (display.y + display.height - (r.y + r.height)) - (r.y - display.y) <= 1
  {
    var height := 2 * display.height / 3;
    var width := 2 * display.width / 3;
    var y := display.y + (display.height - height) / 2;
    var x := display.x + (display.width - width) / 2;
    Rectangle(x, y, width, height)
  }

  /** The default rectangle of a display of non-negative size lies inside it. */
  lemma DefaultBoundsInsideDisplay(display: Rectangle)
    requires display.width >= 0 && display.height >= 0
    ensures var r := DefaultBounds(display);
      && display.x <= r.x && r.x + r.width <= display.x + display.width
      && display.y <= r.y && r.y + r.height <= display.y + display.height
      && 0 <= r.width && 0 <= r.height
  {
    var r := DefaultBounds(display);
    assert r.width <= display.width;
    assert r.height <= display.height;
  }

  /** A 1920x1080 display at the origin gives a 1280x720 window at (320, 180). */
  lemma DefaultBoundsFullHd()
    ensures DefaultBounds(Rectangle(0, 0, 1920, 1080)) == Rectangle(320, 180, 1280, 720)
  {
  }

  /** The value `electronStore.get("windowstate", default)` reads. */
  function StoredOrDefault(stored: Option<WindowState>, display: Rectangle): (r: WindowState)
    ensures stored.Some? ==> r == stored.value
    ensures stored.None? ==>
      r.isMaximized == None && r.width.Some? && r.height.Some? && r.x.Some? && r.y.Some?
  {
    match stored
    case Some(record) => record
    case None =>
      var d := DefaultBounds(display);
      WindowState(Some(d.width), Some(d.height), Some(d.x), Some(d.y), None)
  }

  /** The options `createNewWindow` builds from the stored record (or the default). */
  function OptionsFor(stored: Option<WindowState>, display: Rectangle, title: string): (o: WindowOptions)
    ensures !o.show && o.title == title
    ensures o.minWidth == MinWidth && o.minHeight == MinHeight
    // a stored record wins: its fields are taken as they are, the default is ignored
    ensures stored.Some? ==>
      && o.width == stored.value.width && o.height == stored.value.height
      && o.x == stored.value.x && o.y == stored.value.y
      && o.isMaximized == stored.value.isMaximized
    // without one the window gets the default rectangle and no maximized flag
    ensures stored.None? ==>
      && o.width == Some(DefaultBounds(display).width)
      && o.height == Some(DefaultBounds(display).height)
      && o.x == Some(DefaultBounds(display).x)
      && o.y == Some(DefaultBounds(display).y)
      && o.isMaximized == None
  {
    var state := StoredOrDefault(stored, display);
    WindowOptions(false, title, state.width, state.height, MinWidth, MinHeight,
                  state.x, state.y, state.isMaximized)
  }

  /** `if (windowOptions.isMaximized)`: only a stored `true` is truthy. */
  predicate ShouldMaximize(o: WindowOptions)
    ensures ShouldMaximize(o) <==> o.isMaximized.GetOr(false)
  {
    o.isMaximized == Some(true)
  }

  /** The new window is maximized exactly when the stored record says `isMaximized: true`. */
  lemma MaximizedAtCreation(stored: Option<WindowState>, display: Rectangle, title: string)
    ensures ShouldMaximize(OptionsFor(stored, display, title))
        <==> stored.Some? && stored.value.isMaximized == Some(true)
  {
  }

  /**
   * The record `saveWindowState` writes: the current bounds when the window is not
   * maximized; otherwise the bounds of the record already stored (of `{}` when there
   * is none), flagged as maximized.
   */
  function SavedRecord(stored: Option<WindowState>, maximized: bool, bounds: Rectangle): (r: WindowState)
    ensures r.isMaximized == Some(maximized)
    ensures !maximized ==>
      r.width == Some(bounds.width) && r.height == Some(bounds.height)
      && r.x == Some(bounds.x) && r.y == Some(bounds.y)
    ensures maximized && stored.Some? ==>
      r.width == stored.value.width && r.height == stored.value.height
      && r.x == stored.value.x && r.y == stored.value.y
  {
    if maximized then
      var previous := stored.GetOr(WindowState(None, None, None, None, None));
      WindowState(previous.width, previous.height, previous.x, previous.y, Some(true))
    else
      WindowState(Some(bounds.width), Some(bounds.height), Some(bounds.x), Some(bounds.y), Some(false))
  }

  /** True when `o` places the window exactly at `b`. */
  predicate PlacesAt(o: WindowOptions, b: Rectangle) {
    o.width == Some(b.width) && o.height == Some(b.height) && o.x == Some(b.x) && o.y == Some(b.y)
  }

  /**
   * Round trip: a window created from the record saved while not maximized is
   * placed at exactly the saved bounds and is not maximized.
   */
  lemma SaveRestoreRoundTrip(stored: Option<WindowState>, bounds: Rectangle, display: Rectangle, title: string)
    ensures var o := OptionsFor(Some(SavedRecord(stored, false, bounds)), display, title);
      PlacesAt(o, bounds) && !ShouldMaximize(o)
  {
  }

  /**
   * Restore bounds survive a maximize: after a save of `bounds` while not maximized,
   * a save while maximized (whatever the maximized bounds) keeps `bounds`, and the
   * window created from it is placed at `bounds` and then maximized.
   */
  lemma MaximizeKeepsRestoreBounds(stored: Option<WindowState>, bounds: Rectangle, maximizedBounds: Rectangle,
                                   display: Rectangle, title: string)
    ensures var r := SavedRecord(Some(SavedRecord(stored, false, bounds)), true, maximizedBounds);
      var o := OptionsFor(Some(r), display, title);
      PlacesAt(o, bounds) && ShouldMaximize(o)
  {
  }

  /** Saving again while maximized changes nothing: the maximized save is idempotent. */
  lemma MaximizedSaveIdempotent(stored: Option<WindowState>, b1: Rectangle, b2: Rectangle)
    ensures SavedRecord(Some(SavedRecord(stored, true, b1)), true, b2) == SavedRecord(stored, true, b1)
  {
  }

  /**
   * With nothing stored, a save while maximized writes a record without bounds, so
   * the next window is constructed without a size or position of ours.
   */
  lemma MaximizedSaveWithEmptyStoreHasNoBounds(maximizedBounds: Rectangle, display: Rectangle, title: string)
    ensures SavedRecord(None, true, maximizedBounds) == WindowState(None, None, None, None, Some(true))
    ensures var o := OptionsFor(Some(SavedRecord(None, true, maximizedBounds)), display, title);
      o.width == None && o.height == None && o.x == None && o.y == None && ShouldMaximize(o)
  {
  }
}
