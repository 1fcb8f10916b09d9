/**
 * The window that `createNewWindow` makes, with the state its closures keep:
 * the shared geometry store, the debounce timer of `saveWindowStateDelayed`,
 * the save on `close`, and the guarded `loadMainWindow`.
 */
module MainWindow {
  import opened Wrappers
  import opened WindowGeometry
  import Decimal

  const SaveErrorMessage: string := "Error while saving window state."

  /** The URL `loadMainWindow` loads for a backend listening on `port`. */
  function MainWindowUrl(indexHtml: string, port: int): (url: string)
    ensures |url| >= 7 && url[..7] == "file://"
  {
    "file://" + indexHtml + "?port=" + Decimal.ToDecimal(port)
  }

  /** The part of `s` before the first `c` (all of `s` when it has none). */
  function UpTo(s: string, c: char): (r: string)
    ensures r <= s && c !in r
  {
    if |s| == 0 || s[0] == c then [] else [s[0]] + UpTo(s[1..], c)
  }

  /** The part of `s` after the first `c`; None when `s` has no `c`. */
  function After(s: string, c: char): (r: Option<string>)
    ensures r.None? <==> c !in s
    ensures r.Some? ==> |r.value| < |s|
  {
    if |s| == 0 then None else if s[0] == c then Some(s[1..]) else After(s[1..], c)
  }

  /** The value of the first `key=` parameter of a query `a=1&b=2`; None when there is none. */
  function Lookup(query: string, key: string): Option<string>
    decreases |query|
  {
    var param := UpTo(query, '&');
    if |param| > |key| && param[..|key| + 1] == key + "=" then Some(param[|key| + 1..])
    else match After(query, '&')
      case None => None
      case Some(rest) => Lookup(rest, key)
  }

  /**
   * The port a page reads from its URL: the `port` parameter of the query, which
   * runs from the first '?' to the first '#'.
   */
  function QueryPort(url: string): Option<int> {
    match After(UpTo(url, '#'), '?')
    case None => None
    case Some(query) =>
      match Lookup(query, "port")
      case None => None
      case Some(value) => Decimal.ParseDecimal(value)
  }

  lemma {:induction false} UpToWithout(s: string, c: char)
    requires c !in s
    ensures UpTo(s, c) == s
  {
    if |s| > 0 {
      assert s[0] != c && c !in s[1..];
      UpToWithout(s[1..], c);
      assert s == [s[0]] + s[1..];
    }
  }

  lemma {:induction false} AfterFirst(prefix: string, c: char, rest: string)
    requires c !in prefix
    ensures After(prefix + [c] + rest, c) == Some(rest)
  {
    if |prefix| > 0 {
      assert (prefix + [c] + rest)[1..] == prefix[1..] + [c] + rest;
      assert prefix[0] != c && c !in prefix[1..];
      AfterFirst(prefix[1..], c, rest);
    } else {
      assert prefix + [c] + rest == [c] + rest;
    }
  }

  /**
   * The port query of the loaded URL reads back as the backend's port, for every
   * index path without '?' or '#'.
   */
  lemma MainWindowUrlCarriesPort(indexHtml: string, port: int)
    requires '?' !in indexHtml && '#' !in indexHtml
    ensures QueryPort(MainWindowUrl(indexHtml, port)) == Some(port)
  {
    var digits := Decimal.ToDecimal(port);
    var param := "port=" + digits;
    var url := MainWindowUrl(indexHtml, port);
    assert '#' !in digits && '&' !in digits;
    assert url == ("file://" + indexHtml) + ['?'] + param;
    assert '#' !in url by {
      assert '#' !in "file://";
    }
    UpToWithout(url, '#');
    assert '?' !in "file://" + indexHtml by {
      assert '?' !in "file://";
    }
    AfterFirst("file://" + indexHtml, '?', param);
    assert '&' !in param by {
      assert '&' !in "port=";
    }
    UpToWithout(param, '&');
    assert param[5..] == digits;
    assert Lookup(param, "port") == Some(digits);
    assert After(UpTo(url, '#'), '?') == Some(param);
    Decimal.ParseToDecimal(port);
  }

  /**
   * A '#' before any '?' in the index path puts `?port=` into the fragment: the
   * page reads no port from its query.
   */
  lemma HashInIndexPathHidesPort(indexHtml: string, port: int)
    requires '#' in indexHtml && '?' !in UpTo(indexHtml, '#')
    ensures QueryPort(MainWindowUrl(indexHtml, port)) == None
  {
    var url := MainWindowUrl(indexHtml, port);
    var head := "file://" + indexHtml;
    assert url == (head + "?port=") + Decimal.ToDecimal(port);
    assert '#' !in "file://" && '?' !in "file://";
    assert '#' in head && '#' in head + "?port=";
    UpToAppendWithin(head + "?port=", Decimal.ToDecimal(port), '#');
    UpToAppendWithin(head, "?port=", '#');
    UpToAppendWithout("file://", indexHtml, '#');
    assert UpTo(url, '#') == "file://" + UpTo(indexHtml, '#');
    assert '?' !in UpTo(url, '#');
    assert After(UpTo(url, '#'), '?') == None;
  }

  lemma {:induction false} UpToAppendWithout(a: string, b: string, c: char)
    requires c !in a
    ensures UpTo(a + b, c) == a + UpTo(b, c)
  {
    if |a| > 0 {
      assert (a + b)[0] == a[0] && (a + b)[1..] == a[1..] + b;
      assert c !in a[1..];
      UpToAppendWithout(a[1..], b, c);
      assert a == [a[0]] + a[1..];
    } else {
      assert a + b == b;
    }
  }

  lemma {:induction false} UpToAppendWithin(a: string, b: string, c: char)
    requires c in a
    ensures UpTo(a + b, c) == UpTo(a, c)
  {
    assert (a + b)[0] == a[0];
    if a[0] != c {
      assert (a + b)[1..] == a[1..] + b;
      assert c in a[1..];
      UpToAppendWithin(a[1..], b, c);
    }
  }

  /** The electron-store cell under the key "windowstate", shared by all windows. */
  class WindowStore {
    var record: Option<WindowState>

    constructor (initial: Option<WindowState>)
      ensures record == initial
    {
      record := initial;
    }
  }

  /** A window made by `createNewWindow`, with the state of its event handlers. */
  class ManagedWindow {
    const store: WindowStore
    /** The options the window was constructed with. */
    const options: WindowOptions
    /** What `getBounds()` reports. */
    var bounds: Rectangle
    /** What `isMaximized()` reports. */
    var maximized: bool
    /** What `isDestroyed()` reports. */
    var destroyed: bool
    /** The URL last given to `loadURL`, if any. */
    var loadedUrl: Option<string>
    /** The closure variable `delayedSaveTimeout`: the handle of the last timer set. */
    var delayedSaveTimeout: Option<nat>
    /** The save timers of this window that the event loop will still run. */
    var armedTimers: set<nat>
    /** The handle the next `setTimeout` returns. */
    var nextTimer: nat
    /** Messages written by `console.error`. */
    var errorLog: seq<string>

    /** Only the timer held in `delayedSaveTimeout` can still be armed. */
    ghost predicate Valid()
      reads this
    {
      && (forall t :: t in armedTimers ==> delayedSaveTimeout == Some(t))
      && (delayedSaveTimeout.Some? ==> delayedSaveTimeout.value < nextTimer)
    }

    /**
     * `createNewWindow(theUrl)`: construct with the stored or default geometry,
     * maximize if the record says so, and load `theUrl` when it is non-empty.
     * `placed` is where Electron puts the window for these options.
     */
    constructor Create(store: WindowStore, display: Rectangle, title: string, theUrl: Option<string>, placed: Rectangle)
      ensures Valid()
      ensures this.store == store
      ensures options == OptionsFor(store.record, display, title)
      ensures maximized == ShouldMaximize(options)
      ensures bounds == placed && !destroyed
      ensures loadedUrl == if theUrl.Some? && theUrl.value != "" then theUrl else None
      ensures delayedSaveTimeout == None && armedTimers == {} && errorLog == []
    {
      this.store := store;
      options := OptionsFor(store.record, display, title);
      bounds := placed;
      maximized := ShouldMaximize(OptionsFor(store.record, display, title));
      destroyed := false;
      loadedUrl := if theUrl.Some? && theUrl.value != "" then theUrl else None;
      delayedSaveTimeout := None;
      armedTimers := {};
      nextTimer := 0;
      errorLog := [];
    }

    /**
     * `saveWindowState`. On a destroyed window `isMaximized()` throws and a failing
     * store write throws too (`writeOk` is false); either is caught and logged and
     * the store keeps its record.
     */
    method SaveWindowState(writeOk: bool)
      modifies store, this`errorLog
      ensures !destroyed && writeOk ==>
        store.record == Some(SavedRecord(old(store.record), maximized, bounds)) && errorLog == old(errorLog)
      ensures destroyed || !writeOk ==>
        store.record == old(store.record) && errorLog == old(errorLog) + [SaveErrorMessage]
    {
      if destroyed || !writeOk {
        errorLog := errorLog + [SaveErrorMessage];
      } else {
        store.record := Some(SavedRecord(store.record, maximized, bounds));
      }
    }

    /** `saveWindowStateDelayed`: clear the timer last set, then set a fresh one. */
    method SaveWindowStateDelayed() returns (timer: nat)
      requires Valid()
      modifies this`delayedSaveTimeout, this`armedTimers, this`nextTimer
      ensures Valid()
      ensures armedTimers == {timer} && delayedSaveTimeout == Some(timer)
      ensures timer !in old(armedTimers) && timer == old(nextTimer) && nextTimer == timer + 1
    {
      if delayedSaveTimeout.Some? {
        armedTimers := armedTimers - {delayedSaveTimeout.value};
      }
      timer := nextTimer;
      nextTimer := nextTimer + 1;
      armedTimers := armedTimers + {timer};
      delayedSaveTimeout := Some(timer);
    }

    /** The window was resized (maximizing and restoring resize it too). */
    method Resize(newBounds: Rectangle, nowMaximized: bool) returns (timer: nat)
      requires Valid()
      modifies this`bounds, this`maximized, this`delayedSaveTimeout, this`armedTimers, this`nextTimer
      ensures Valid() && bounds == newBounds && maximized == nowMaximized
      ensures armedTimers == {timer} && delayedSaveTimeout == Some(timer) && timer !in old(armedTimers)
      ensures timer == old(nextTimer) && nextTimer == timer + 1
    {
      bounds, maximized := newBounds, nowMaximized;
      timer := SaveWindowStateDelayed();
    }

    /** The window was moved. */
    method Move(newBounds: Rectangle) returns (timer: nat)
      requires Valid()
      modifies this`bounds, this`delayedSaveTimeout, this`armedTimers, this`nextTimer
      ensures Valid() && bounds == newBounds && maximized == old(maximized)
      ensures armedTimers == {timer} && delayedSaveTimeout == Some(timer) && timer !in old(armedTimers)
      ensures timer == old(nextTimer) && nextTimer == timer + 1
    {
      bounds := newBounds;
      timer := SaveWindowStateDelayed();
    }

    /** A save timer of this window runs out, 1000 ms after it was set. */
    method TimerFires(timer: nat, writeOk: bool)
      requires Valid() && timer in armedTimers
      modifies store, this`errorLog, this`armedTimers
      ensures Valid() && armedTimers == {}
      ensures !destroyed && writeOk ==>
        store.record == Some(SavedRecord(old(store.record), maximized, bounds)) && errorLog == old(errorLog)
      ensures destroyed || !writeOk ==>
        store.record == old(store.record) && errorLog == old(errorLog) + [SaveErrorMessage]
    {
      armedTimers := armedTimers - {timer};
      SaveWindowState(writeOk);
    }

    /**
     * The window closes: the state is saved at once, whatever timer is pending,
     * and then the window is destroyed. A pending timer is not cleared.
     */
    method Close(writeOk: bool)
      requires Valid()
      modifies store, this`errorLog, this`destroyed
      ensures Valid() && destroyed
      ensures !old(destroyed) && writeOk ==>
        store.record == Some(SavedRecord(old(store.record), maximized, bounds)) && errorLog == old(errorLog)
      ensures old(destroyed) || !writeOk ==>
        store.record == old(store.record) && errorLog == old(errorLog) + [SaveErrorMessage]
    {
      SaveWindowState(writeOk);
      destroyed := true;
    }

    /** `loadMainWindow(port)`: load the front end unless the window is destroyed. */
    method LoadMainWindow(indexHtml: string, port: int)
      modifies this`loadedUrl
      ensures destroyed ==> loadedUrl == old(loadedUrl)
      ensures !destroyed ==> loadedUrl == Some(MainWindowUrl(indexHtml, port))
    {
      if !destroyed {
        loadedUrl := Some(MainWindowUrl(indexHtml, port));
      }
    }
  }

  /** At most one save timer of a window is ever pending. */
  lemma AtMostOnePendingSave(w: ManagedWindow)
    requires w.Valid()
    ensures |w.armedTimers| <= 1
  {
    if w.delayedSaveTimeout.Some? {
      var t := w.delayedSaveTimeout.value;
      if t in w.armedTimers {
        assert w.armedTimers == {t};
      } else {
        assert w.armedTimers == {};
      }
    } else {
      assert w.armedTimers == {};
    }
  }

  /**
   * A burst of resizes and moves leaves exactly one pending save, that of the last
   * event; when it runs the store holds the bounds of the last event.
   */
  method DebounceScenario(display: Rectangle, b1: Rectangle, b2: Rectangle, b3: Rectangle)
  {
    var store := new WindowStore(None);
    var w := new ManagedWindow.Create(store, display, "app", None, b1);
    var t1 := w.Resize(b1, false);
    var t2 := w.Move(b2);
    var t3 := w.Resize(b3, false);
    assert t1 !in w.armedTimers && t2 !in w.armedTimers && w.armedTimers == {t3};
    w.TimerFires(t3, true);
    assert store.record == Some(SavedRecord(None, false, b3)) && w.armedTimers == {};
  }

  /**
   * Bounds saved before a maximize survive the maximize and a close, and the next
   * window is placed there and maximized.
   */
  method RestoreScenario(display: Rectangle, normal: Rectangle, full: Rectangle, placed: Rectangle)
  {
    var store := new WindowStore(None);
    var w := new ManagedWindow.Create(store, display, "app", None, placed);
    var t := w.Resize(normal, false);
    w.TimerFires(t, true);
    t := w.Resize(full, true);
    w.Close(true);
    assert w.armedTimers == {t};
    var saved := store.record;
    assert saved == Some(SavedRecord(Some(SavedRecord(None, false, normal)), true, full));
    w.TimerFires(t, true);
    assert w.errorLog == [SaveErrorMessage] && store.record == saved;
    var before := w.loadedUrl;
    w.LoadMainWindow("/app/index.html", 3000);
    assert w.loadedUrl == before;
    MaximizeKeepsRestoreBounds(None, normal, full, display, "app");
    var next := new ManagedWindow.Create(store, display, "app", None, placed);
    assert PlacesAt(next.options, normal) && next.maximized;
    next.LoadMainWindow("/app/index.html", 3000);
    assert next.loadedUrl == Some(MainWindowUrl("/app/index.html", 3000));
  }
}
