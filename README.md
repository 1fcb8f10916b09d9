# Window geometry and view columns of the Theia Electron shell, in Dafny

This project models two pieces of bookkeeping in the Theia desktop application.

**The main window of the Electron main process.** `createNewWindow` works out a
default rectangle: two thirds of the display the cursor is on, centred on it.
It builds the window options from the record stored under the key
`"windowstate"`, or from that default when there is no record. The minimum size
is 200x120, and the window is maximized when the record says so. After that,
every resize or move re-arms a single 1000 ms timer, and the window's geometry is
saved when that timer fires. A close saves at once. A save while maximized keeps
the bounds already stored and flags them as maximized, so the size to restore to
survives a maximize. A failing save is caught and logged. `loadMainWindow` loads
`file://<index.html>?port=<port>` unless the window is already destroyed.

**`ViewColumnService` in the plugin host.** It groups the ids of the dock-panel
widgets by their `style.left` position. It sorts the distinct positions with
JavaScript's default `sort()`, which compares the positions' decimal texts, so
100 comes before 20. It then numbers the groups 0..k-1 into `viewColumnIds`. On a
drop it rebuilds the id-to-column map `viewColumns` and fires an event for every
id that is new or whose column changed.

Layout:

- `wrappers.dfy`: `Option`, which stands for JavaScript's `undefined`.
- `decimal.dfy`: the decimal text of an integer (`String(n)`), and reading it back.
- `string_order.dfy`: the string order of the default `sort()`.
- `window_geometry.dfy`: the pure geometry functions.
- `main_window.dfy`: the store cell and the window as classes. Their methods are
  the event handlers.
- `view_columns.dfy`: the pure functions of the view columns and the lemmas about them.
- `view_column_service.dfy`: the service class with its two map fields.

One behaviour of the save is worth knowing. When nothing has been stored yet and
the first save happens while the window is maximized, the code reads `{}` as the
previous bounds. It therefore writes a record that carries only
`isMaximized: true`. The next window is then constructed without a size or
position of ours, and Electron's defaults decide them. The lemma
`WindowGeometry.MaximizedSaveWithEmptyStoreHasNoBounds` states this. The model
keeps the behaviour as written.

A timer that fires after the window has closed tries to save a destroyed window.
`isMaximized()` throws, and the error is caught and logged. The model says this
in `ManagedWindow.TimerFires`. The close handler does not clear a pending timer,
and the model does not clear it either.

Three more behaviours of the code are worth knowing:

- Stored sizes are not checked against a minimum. The 200x120 minimum is only
  passed to the window as `minWidth` and `minHeight`.
- The stored `isMaximized` maximizes the window only when it is `true`. An absent
  flag counts as not maximized.
- The URL is built by plain concatenation, with no escaping. When a '#' comes
  before any '?' in the index path, `?port=` lands in the URL's fragment, and the
  page then finds no port in its query (`MainWindow.HashInIndexPathHidesPort`).

## Model

| member | source | states |
|---|---|---|
| `WindowGeometry.DefaultBounds` | packages/core/src/electron-main/electron-main-application.ts:126-131 | the default size is two thirds of the display's, rounded down (`3w <= 2W < 3w + 3`); the right and bottom margins exceed the left and top ones by 0 or 1 |
| `WindowGeometry.DefaultBoundsInsideDisplay` | packages/core/src/electron-main/electron-main-application.ts:126-131 | for a display of non-negative size the default rectangle lies inside the display and has non-negative size |
| `WindowGeometry.DefaultBoundsFullHd` | packages/core/src/electron-main/electron-main-application.ts:126-131 | a 1920x1080 display at the origin gives 1280x720 at (320, 180) |
| `WindowGeometry.StoredOrDefault` | packages/core/src/electron-main/electron-main-application.ts:134-136 | `electronStore.get` with the default: a stored record is returned unchanged; without one, a full rectangle and no maximized flag; `OptionsFor` ties the rectangle to `DefaultBounds` |
| `WindowGeometry.OptionsFor` | packages/core/src/electron-main/electron-main-application.ts:133-150 | the window is hidden, has the application title and a 200x120 minimum; a stored record's size, position and flag are used exactly as stored; with no record the default rectangle is used and the flag is absent |
| `WindowGeometry.ShouldMaximize` | packages/core/src/electron-main/electron-main-application.ts:154 | the truthiness test on `isMaximized`: an absent flag counts as false |
| `WindowGeometry.MaximizedAtCreation` | packages/core/src/electron-main/electron-main-application.ts:149-156 | `maximize()` is called exactly when a record is stored and its `isMaximized` is true; an absent flag means not maximized |
| `WindowGeometry.SavedRecord` | packages/core/src/electron-main/electron-main-application.ts:171-182 | the written record's flag is the window's maximized state; when not maximized it holds the current bounds; when maximized it keeps the bounds of the stored record |
| `WindowGeometry.SaveRestoreRoundTrip` | packages/core/src/electron-main/electron-main-application.ts:133-182 | a window created from a record saved while not maximized is placed at exactly the saved bounds and is not maximized |
| `WindowGeometry.MaximizeKeepsRestoreBounds` | packages/core/src/electron-main/electron-main-application.ts:133-182 | after a normal save of b and then a maximized save, the next window is placed at b and maximized |
| `WindowGeometry.MaximizedSaveIdempotent` | packages/core/src/electron-main/electron-main-application.ts:171-182 | saving again while maximized leaves the record as it was |
| `WindowGeometry.MaximizedSaveWithEmptyStoreHasNoBounds` | packages/core/src/electron-main/electron-main-application.ts:172-182 | a maximized save with nothing stored writes only `isMaximized: true`, so the next window gets no size or position from the store but is still maximized |
| `MainWindow.WindowStore.constructor` | packages/core/src/electron-main/electron-main-application.ts:48 | the store cell starts with the given persisted record |
| `MainWindow.ManagedWindow.Create` | packages/core/src/electron-main/electron-main-application.ts:121-214 | the window gets the options of `OptionsFor` for the current store content, is maximized iff they say so, has no pending timer, and loads `theUrl` only when it is a non-empty string |
| `MainWindow.ManagedWindow.SaveWindowState` | packages/core/src/electron-main/electron-main-application.ts:167-186 | on a live window with a working store, the store holds `SavedRecord` of the previous record, the maximized flag and the bounds; otherwise the store is unchanged and exactly one error message is logged |
| `MainWindow.ManagedWindow.SaveWindowStateDelayed` | packages/core/src/electron-main/electron-main-application.ts:188-194 | afterwards exactly one timer is armed; it is a fresh one held in `delayedSaveTimeout`, and every earlier timer is cancelled |
| `MainWindow.ManagedWindow.Resize` | packages/core/src/electron-main/electron-main-application.ts:196 | the new bounds and maximized state are recorded and the only armed timer is a fresh one |
| `MainWindow.ManagedWindow.Move` | packages/core/src/electron-main/electron-main-application.ts:197 | the new bounds are recorded, the maximized state is kept, and the only armed timer is a fresh one |
| `MainWindow.ManagedWindow.TimerFires` | packages/core/src/electron-main/electron-main-application.ts:189-194 | only an armed timer can fire; afterwards none is armed and the save's outcome applies; on a destroyed window the store is untouched and the error is logged |
| `MainWindow.ManagedWindow.Close` | packages/core/src/electron-main/electron-main-application.ts:195 | the state is saved at once, whatever timer is pending, and the window is then destroyed |
| `MainWindow.AtMostOnePendingSave` | packages/core/src/electron-main/electron-main-application.ts:188-194 | a window never has more than one pending save timer |
| `MainWindow.ManagedWindow.LoadMainWindow` | packages/core/src/electron-main/electron-main-application.ts:87-91 | on a destroyed window the loaded URL is unchanged; otherwise it is `MainWindowUrl(indexHtml, port)` |
| `MainWindow.MainWindowUrl` | packages/core/src/electron-main/electron-main-application.ts:89 | the URL starts with `file://` |
| `MainWindow.MainWindowUrlCarriesPort` | packages/core/src/electron-main/electron-main-application.ts:89 | for an index path without '?' or '#', the `port` parameter of the loaded URL's query reads back as the backend's port; the query runs from the first '?' to the first '#' |
| `MainWindow.HashInIndexPathHidesPort` | packages/core/src/electron-main/electron-main-application.ts:89 | when a '#' comes before any '?' in the index path, the loaded URL's query has no `port` parameter, so the page reads no port |
| `Decimal.ToDecimal` | packages/core/src/electron-main/electron-main-application.ts:89 | `String(n)` of an integral number: a non-empty text of digits and '-', with no leading zero and no "-0"; `ParseToDecimal` and `ToDecimalInjective` pin it down as the text that reads back as `n` |
| `Decimal.ParseToDecimal` | packages/core/src/electron-main/electron-main-application.ts:89 | reading back the decimal text of any integer gives the integer |
| `Decimal.ToDecimalInjective` | packages/plugin-ext/src/main/browser/view-column-service.ts:63 | two integers have the same decimal text iff they are equal |
| `StringOrder.Less` | packages/plugin-ext/src/main/browser/view-column-service.ts:63 | the comparison of the default `sort()`: a proper prefix sorts before every extension of it; `Irreflexive`, `Transitive`, `Total` and `Asymmetric` make it a strict total order |
| `StringOrder.Irreflexive` | packages/plugin-ext/src/main/browser/view-column-service.ts:63 | no string sorts before itself |
| `StringOrder.Transitive` | packages/plugin-ext/src/main/browser/view-column-service.ts:63 | the string order is transitive |
| `StringOrder.Total` | packages/plugin-ext/src/main/browser/view-column-service.ts:63 | of two different strings, one sorts before the other |
| `StringOrder.Asymmetric` | packages/plugin-ext/src/main/browser/view-column-service.ts:63 | two strings never sort before each other |
| `ViewColumns.PositionKeys` | packages/plugin-ext/src/main/browser/view-column-service.ts:50-61 | the keys of `positionIds` have no repeats and are exactly the positions some panel has |
| `ViewColumns.IdsAt` | packages/plugin-ext/src/main/browser/view-column-service.ts:54-59 | the group of a position is non-empty iff some panel has that position |
| `ViewColumns.DecimalLess` | packages/plugin-ext/src/main/browser/view-column-service.ts:63 | how `sort()` orders two positions, by their decimal texts; a positive number sorts before every number one digit longer that starts with it (10 before 100..109); `DecimalLessIsStrictOrder` makes it a strict total order |
| `ViewColumns.DecimalLessIsStrictOrder` | packages/plugin-ext/src/main/browser/view-column-service.ts:63 | comparing positions by decimal text is irreflexive, asymmetric, transitive and total on distinct integers |
| `ViewColumns.HundredBeforeTwenty` | packages/plugin-ext/src/main/browser/view-column-service.ts:63 | 100 sorts before 20, and not the other way round |
| `ViewColumns.SortByDecimal` | packages/plugin-ext/src/main/browser/view-column-service.ts:63 | the sorted keys are a permutation of the keys |
| `ViewColumns.SortedOutput` | packages/plugin-ext/src/main/browser/view-column-service.ts:63 | sorting distinct keys gives them in strictly increasing decimal-text order |
| `ViewColumns.SortedArrangementUnique` | packages/plugin-ext/src/main/browser/view-column-service.ts:63 | any two strictly sorted arrangements of the same keys are equal, so the result does not depend on the engine's sort algorithm |
| `ViewColumns.SortedPositions` | packages/plugin-ext/src/main/browser/view-column-service.ts:63 | the column order of the positions is strictly sorted, has no repeats, and holds exactly the positions some panel has |
| `ViewColumns.ColumnsOf` | packages/plugin-ext/src/main/browser/view-column-service.ts:62-70 | `viewColumnIds` after `updateViewColumnIds`: no column list is empty; `DenseColumns`, `ColumnOrder` and `EveryPositionedIdOnce` pin down its keys, order and contents |
| `ViewColumns.ColumnOf` | packages/plugin-ext/src/main/browser/view-column-service.ts:63-64 | a position's column is its index in the sorted positions |
| `ViewColumns.DenseColumns` | packages/plugin-ext/src/main/browser/view-column-service.ts:62-70 | the column keys are exactly 0..k-1, with k the number of distinct positions, and no column list is empty |
| `ViewColumns.SameColumnIffSamePosition` | packages/plugin-ext/src/main/browser/view-column-service.ts:55-68 | the column of a position holds that position's ids in document order, and two positions share a column iff they are equal |
| `ViewColumns.ColumnOrder` | packages/plugin-ext/src/main/browser/view-column-service.ts:63 | position p gets a lower column than q iff the decimal text of p sorts before that of q |
| `ViewColumns.DecimalOrderExample` | packages/plugin-ext/src/main/browser/view-column-service.ts:63-68 | a panel at 20 followed by a panel at 100 gives column 0 to the panel at 100 and column 1 to the one at 20 |
| `ViewColumns.EveryPositionedIdOnce` | packages/plugin-ext/src/main/browser/view-column-service.ts:51-70 | the columns together hold the ids of the positioned panels, each as often as it occurs; panels without a position contribute nothing |
| `ViewColumns.Assignment` | packages/plugin-ext/src/main/browser/view-column-service.ts:35-38 | the map the drop listener rebuilds: every id of the last column visited maps to that column; `AssignmentIsLastColumn` gives its whole domain and values |
| `ViewColumns.Changed` | packages/plugin-ext/src/main/browser/view-column-service.ts:39 | the event test: true exactly when setting `id` to `c` changes the previous map |
| `ViewColumns.ChangeEvents` | packages/plugin-ext/src/main/browser/view-column-service.ts:36-43 | the events the drop listener fires, column by column: every event names a visited column; `ChangeEventsSpec` gives exactly which pairs fire |
| `ViewColumns.AssignmentIsLastColumn` | packages/plugin-ext/src/main/browser/view-column-service.ts:35-43 | the rebuilt map holds exactly the ids found in some column, and each maps to the last column whose list holds it |
| `ViewColumns.ColumnChangesSpec` | packages/plugin-ext/src/main/browser/view-column-service.ts:37-42 | within one column, an event is fired for an id iff the column holds it and the previous map lacks it or maps it elsewhere |
| `ViewColumns.ChangeEventsSpec` | packages/plugin-ext/src/main/browser/view-column-service.ts:36-43 | an event (id, c) is fired iff column c holds id and the previous map lacks id or maps it to another column |
| `ViewColumns.DropAssignment` | packages/plugin-ext/src/main/browser/view-column-service.ts:35-44 | after a drop `viewColumns` holds exactly the ids of positioned panels, so ids no longer present are dropped; a panel whose id is unique maps to the column of its position |
| `ViewColumns.UniqueIdColumn` | packages/plugin-ext/src/main/browser/view-column-service.ts:35-44 | a positioned panel with a unique id is in the rebuilt map at its position's column |
| `ViewColumns.DropEvents` | packages/plugin-ext/src/main/browser/view-column-service.ts:36-43 | the drop's events are exactly the new or changed (id, column) pairs; ids of no positioned panel, removed ones included, get no event |
| `ViewColumnService.ViewColumnService.constructor` | packages/plugin-ext/src/main/browser/view-column-service.ts:24-25 | both maps start empty |
| `ViewColumnService.ViewColumnService.UpdateViewColumnIds` | packages/plugin-ext/src/main/browser/view-column-service.ts:48-71 | afterwards `viewColumnIds` is `ColumnsOf` of the current panels alone, whatever it held before |
| `ViewColumnService.GroupByPosition` | packages/plugin-ext/src/main/browser/view-column-service.ts:50-61 | `positionIds` has exactly the panels' positions as keys, each mapped to its ids in document order, and its key order is the order of first occurrence |
| `ViewColumnService.ViewColumnService.PushGroup` | packages/plugin-ext/src/main/browser/view-column-service.ts:64-69 | pushing a non-empty group into a new column creates that column holding exactly the group |
| `ViewColumnService.ViewColumnService.GetViewColumnIds` | packages/plugin-ext/src/main/browser/view-column-service.ts:73-75 | returns the stored list, or the empty list when there is no entry; it is non-empty iff 0 <= c < k, and then it is the ids at the c-th sorted position; it changes nothing |
| `ViewColumnService.ViewColumnService.Drop` | packages/plugin-ext/src/main/browser/view-column-service.ts:32-45 | after a drop `viewColumnIds` is `ColumnsOf(panels)`, `viewColumns` is the `Assignment` of those columns, and the events are the `ChangeEvents` against the previous `viewColumns` |
| `ViewColumnService.CollectViewColumns` | packages/plugin-ext/src/main/browser/view-column-service.ts:35-43 | visiting columns 0..n-1 in order builds `Assignment` of them and fires `ChangeEvents` against the previous map |
| `ViewColumnService.CollectColumn` | packages/plugin-ext/src/main/browser/view-column-service.ts:37-42 | visiting one column adds each of its ids with that column and appends that column's change events |

## Left out

- `ElectronMainApplication.start` runs every contribution with `Promise.all`. This is asynchronous concurrency with nothing to verify, so it is not modelled.
- Backend start-up is process and module I/O and is not modelled: `require` of the backend, `fork`, the `message` and `error` handlers, `app.exit(1)`, and `process.kill` on quit. The port these deliver is a parameter of `LoadMainWindow`.
- The devMode probe reads process globals and is not modelled.
- The `create-new-window` and `open-external` IPC handlers are thin wrappers over Electron. So are `shell.openExternal`, the `new-window` interception, the menu, `ready-to-show`/`show` and `window-all-closed`. None of these is modelled.
- Keyboard-layout broadcasting goes through the native `native-keymap` module and is not modelled.
- Electron itself is not modelled. It decides where a window goes for given options, including its defaults when the store gives no size and its minimum-size clamping. That placement is the `placed` parameter of `ManagedWindow.Create`. What un-maximizing restores is also Electron's behaviour. The model stops at the options a window is constructed with.
- The store is one cell for the key `"windowstate"`. The serialisation format of `electron-store` is not modelled. A failing write is the `writeOk` parameter and is assumed to leave the cell unchanged.
- Real time is not modelled. `setTimeout`/`clearTimeout` become armed timer handles, and the 1000 ms delay is not represented. The `await setTimeout` yield before a drop becomes the single `Drop` step over the panels present when it runs.
- The DOM query, `style.left` and `parseInt` become the input `seq<Panel>`. A `left` that is not numeric (NaN) is not modelled. `Emitter` becomes the returned event list.
- `Math.floor(x * (2 / 3))` becomes `2 * x / 3`. IEEE rounding of the product is not modelled.
- `DefaultBounds` keeps its inside-the-display promise in `DefaultBoundsInsideDisplay`, which needs a display of non-negative size.
- Decimal.ToDecimal: writes every integer in plain digits. JavaScript writes magnitudes of 1e21 and above in exponent notation (`1e+21`), which is not modelled.
- Positions are exact integers. `parseInt` of a numeral above 2^53 rounds, and that rounding is not modelled.
- StringOrder.Less: compares characters as Unicode scalar values. JavaScript compares UTF-16 code units, so the two orders differ between a character above U+FFFF and one in U+E000..U+FFFF. They agree on the decimal texts that are sorted.
- ViewColumnService.ViewColumnService.GetViewColumnIds: returns the column's list as a value. `getViewColumnIds` returns the live internal array, which a caller could mutate; that aliasing is not modelled.
- MainWindow.MainWindowUrlCarriesPort: holds only for index paths without '?' or '#'. The code does not escape the path, and `MainWindow.HashInIndexPathHidesPort` shows what a '#' before any '?' does. A path with a '?' before its first '#' gives a query made from the path itself; the model does not characterise that case.
