# LPStatusBar: the item list and the status-item registry

LPStatusBar is a macOS menu-bar application that shows animated GIFs as
status-bar icons. The user configures a list of GIF sources (`GifItem`),
each a URL or a file path that is enabled or disabled. For every enabled
item, `AppDelegate` creates a status item, loads the GIF's frames in the
background, and starts a repeating timer. Each time the timer fires, the
button moves on to the next frame.

This project models two parts of that behaviour and proves properties of
them:

- **The item list.** `StatusBarViewModel` keeps an ordered list of items.
  The model covers adding, toggling and removing items, and loading the
  list at start-up, including the path where the stored data does not
  decode.
- **The status-item registry.** `AppDelegate` keeps four dictionaries
  keyed by item id: `statusItems`, `animationTimers`, `gifFrames` and
  `currentFrames`. The model covers refresh, creation of a status item,
  the load's completion handler, the timer's tick, and removal of one
  status item or of all of them.

Beside the four dictionaries, the model keeps the platform state they
refer to:

- the image each status item's button shows;
- the timers scheduled on the run loop, each with the id its closure ticks;
- the loads started and not yet completed;
- the alerts `showError` has put up;
- an allocator for fresh status-item and timer handles.

Layout:

- `wrappers.dfy`: `Option`, standing for Swift's optionals and dictionary
  subscripts.
- `gif_items.dfy`: `GifItem` and the list operations as functions. It also
  holds the two searching loops: `firstIndex(where:)` and `removeAll(where:)`.
- `view_model.dfy`: the class `StatusBarViewModel`. Its methods change
  `items` in place.
- `gif_frames.dfy`: the frame-collecting loop of `loadGIFFrames` and the
  decision between success and failure.
- `animation.dfy`: the cursor arithmetic of the tick. Swift's `%`
  truncates toward zero and is modelled as such.
- `status_registry.dfy`: the registry as a value. Each event is a
  function from the registry before to the registry after. The file holds
  the invariant `Consistent` and the lemmas about the events.
- `app_delegate.dfy`: the class `AppDelegate`. Its fields mirror the
  registry and its methods update them in place. Each method that handles
  an event (`RemoveStatusItem`, `ClearAllStatusItems`, `CreateStatusItem`,
  `RefreshStatusBarItems`, `Complete`, `Tick`, `Fire`) is proved to leave
  `State()` equal to the matching registry function of the old state. The
  two halves of the success branch, `ShowFrames` and `StartAnimation`,
  state their field updates directly.

The source is asynchronous. Two events model that:

- `Complete(item, result)` is the load's completion handler running on the
  main queue.
- `Fire(t)` is the run loop firing timer `t`. It runs the tick for the id
  that `t` was scheduled for, unless `t` has been invalidated.

The check that `createStatusItem` makes synchronously is a parameter:
`passes` for one item, or `syncCheck` for the whole refresh. For a URL the
check is that the URL parses; for a file it is that the file exists.

The completion handler does not check that its item is still registered.
The model follows the code here. Suppose a load completes after its item
was disabled and the bar refreshed. The completion stores frames for the id
and schedules a timer for it, although the id has no status item. A refresh
does not clear them while the item stays disabled, because
`clearAllStatusItems` only visits the ids registered in `statusItems`
(`StaleCompletionOutlivesStatusItem`). So an id can hold frames and a
running timer without a status item, and the invariant `Consistent`
deliberately does not include "every id with frames has a status item".

## Model

| member | source | states |
|---|---|---|
| GifItems.FirstIndexOf | LPStatusBar/LPStatusBarApp.swift:78 | the index found holds the id and no earlier item does; there is no index exactly when no item has the id |
| GifItems.FindFirstIndex | LPStatusBar/LPStatusBarApp.swift:78 | the linear search returns the first index of the id, or none |
| GifItems.FirstIndexOfSameIds | LPStatusBar/LPStatusBarApp.swift:78 | two lists with the same ids position by position have the same first index for every id |
| GifItems.EnabledIdsAppend | LPStatusBar/LPStatusBarApp.swift:445 | appending an item adds its id to the enabled ids exactly when it is enabled |
| GifItems.Toggled | LPStatusBar/LPStatusBarApp.swift:77-81 | the length, and every item's id, path and type, are unchanged; an item's `isEnabled` flips exactly when it is the first with the id; an absent id changes nothing |
| GifItems.ToggledTwice | LPStatusBar/LPStatusBarApp.swift:77-81 | toggling the same id twice restores the list |
| GifItems.ToggledKeepsDistinct | LPStatusBar/LPStatusBarApp.swift:77-81 | toggling keeps the ids distinct |
| GifItems.ToggledEnabledIds | LPStatusBar/LPStatusBarApp.swift:77-81 | with distinct ids, toggling a present id flips whether that id is enabled and leaves every other id's enabled status alone |
| GifItems.Without | LPStatusBar/LPStatusBarApp.swift:83-85 | the result holds exactly the items whose id differs, and is no longer than the list |
| GifItems.RemoveAll | LPStatusBar/LPStatusBarApp.swift:84 | the filtering loop computes `Without` |
| GifItems.WithoutConcat | LPStatusBar/LPStatusBarApp.swift:84 | removal distributes over concatenation |
| GifItems.WithoutKeepsOrder | LPStatusBar/LPStatusBarApp.swift:83-85 | two kept items keep their relative order |
| GifItems.WithoutNoOp | LPStatusBar/LPStatusBarApp.swift:83-85 | removal leaves the list unchanged exactly when no item has the id |
| GifItems.WithoutIdempotent | LPStatusBar/LPStatusBarApp.swift:83-85 | removing twice is removing once |
| GifItems.WithoutRemovesOne | LPStatusBar/LPStatusBarApp.swift:83-85 | with distinct ids, removing a present id removes exactly one item |
| GifItems.WithoutKeepsDistinct | LPStatusBar/LPStatusBarApp.swift:83-85 | removal keeps the ids distinct |
| GifItems.AppendFreshKeepsDistinct | LPStatusBar/LPStatusBarApp.swift:72-75 | appending an item with a new id keeps the ids distinct |
| ViewModel.StatusBarViewModel.constructor | LPStatusBar/LPStatusBarApp.swift:65-70 | the list starts empty and then holds what `loadItems` gives: the decoded list, or nothing |
| ViewModel.StatusBarViewModel.AddItem | LPStatusBar/LPStatusBarApp.swift:72-75 | exactly one enabled item with the given id, path and type is appended; the earlier items are unchanged; distinct ids stay distinct when the id is new |
| ViewModel.StatusBarViewModel.ToggleItem | LPStatusBar/LPStatusBarApp.swift:77-81 | the new list is `Toggled` of the old one, and distinct ids stay distinct |
| ViewModel.StatusBarViewModel.RemoveItem | LPStatusBar/LPStatusBarApp.swift:83-85 | the new list is `Without` of the old one, and distinct ids stay distinct |
| ViewModel.StatusBarViewModel.LoadItems | LPStatusBar/LPStatusBarApp.swift:99-111 | decoded data replaces the list; undecodable data empties it; no stored data leaves it unchanged |
| GifFrames.Thumbnails | LPStatusBar/LPStatusBarApp.swift:530-552 | the frames are the thumbnails that could be made; there are no more of them than indices; there are none exactly when every thumbnail failed |
| GifFrames.ThumbnailsNext | LPStatusBar/LPStatusBarApp.swift:530-552 | one more index adds its thumbnail, if it has one |
| GifFrames.LoadGifFrames | LPStatusBar/LPStatusBarApp.swift:500-567 | the load succeeds exactly when the data opens as an image source that yields at least one thumbnail, and then yields those thumbnails in order; otherwise it fails with the transport, invalid-data or no-frames error |
| Animation.SwiftRemainder | LPStatusBar/LPStatusBarApp.swift:577 | Swift's truncating `%`: within `[0, n)` for a non-negative dividend, and within `(-n, 0]` for a negative one |
| Animation.NextCursor | LPStatusBar/LPStatusBarApp.swift:577 | a cursor of at least -1 moves into `[0, count)`; a cursor inside the frames moves one place and wraps from the last frame to 0 |
| Animation.TicksAdvance | LPStatusBar/LPStatusBarApp.swift:577 | from a cursor inside the frames, `k` ticks move it to `(cursor + k) % count` |
| Animation.AddModulus | LPStatusBar/LPStatusBarApp.swift:577 | adding the modulus does not change the remainder |
| Animation.RemainderUnique | LPStatusBar/LPStatusBarApp.swift:577 | a quotient and remainder in range determine `%` |
| Animation.CycleReturnsToFirstFrame | LPStatusBar/LPStatusBarApp.swift:577 | from 0, `count` ticks return the cursor to 0 |
| Animation.CursorCountsTicks | LPStatusBar/LPStatusBarApp.swift:577 | from 0, fewer than `count` ticks leave the cursor at the number of ticks |
| StatusRegistry.SyncCheckAlert | LPStatusBar/LPStatusBarApp.swift:459-470 | the alert names the item's path, and says invalid URL for a URL and missing file for a file |
| StatusRegistry.LoadFailureAlert | LPStatusBar/LPStatusBarApp.swift:491-494 | the alert names the item's path, and says URL load failure or file load failure according to the type |
| StatusRegistry.Launched | LPStatusBar/LPStatusBarApp.swift:445-474 | a refresh starts loads for exactly the enabled items that pass the synchronous check |
| StatusRegistry.Failing | LPStatusBar/LPStatusBarApp.swift:445-470 | a refresh shows alerts for exactly the enabled items that fail the synchronous check |
| StatusRegistry.SyncAlerts | LPStatusBar/LPStatusBarApp.swift:445-470 | every enabled item that fails the check gets its alert, and every alert belongs to such an item |
| StatusRegistry.SyncAlertsOfFailing | LPStatusBar/LPStatusBarApp.swift:445-470 | the alerts are one per failing enabled item, in list order, and there are exactly as many as there are such items |
| StatusRegistry.InvalidateTimerOf | LPStatusBar/LPStatusBarApp.swift:570-584 | invalidating an id's timer removes exactly the scheduled timers that tick that id |
| StatusRegistry.RemovedNothing | LPStatusBar/LPStatusBarApp.swift:594-598 | removing no id changes nothing |
| StatusRegistry.RemovedAllStep | LPStatusBar/LPStatusBarApp.swift:594-598 | removing ids one by one is removing the set of them, whatever the order |
| StatusRegistry.RemovedAllKeepsConsistent | LPStatusBar/LPStatusBarApp.swift:582-592 | removal keeps the registry consistent |
| StatusRegistry.RemovedAllConsistent | LPStatusBar/LPStatusBarApp.swift:582-592 | removal keeps the registry consistent; the removed ids are in no dictionary and have no image; every other id keeps its entries; no scheduled timer ticks a removed id |
| StatusRegistry.ClearedAll | LPStatusBar/LPStatusBarApp.swift:594-598 | clearing leaves no status item and no button image |
| StatusRegistry.CreatedKeepsConsistent | LPStatusBar/LPStatusBarApp.swift:450-472 | creating a status item keeps the registry consistent |
| StatusRegistry.CreatedState | LPStatusBar/LPStatusBarApp.swift:450-472 | creation registers a fresh status item without an image, then starts the load or shows the alert, and changes nothing else |
| StatusRegistry.CreatedAllNext | LPStatusBar/LPStatusBarApp.swift:445-446 | the loop's next step creates a status item exactly when the item is enabled |
| StatusRegistry.CreatedAllKeepsConsistent | LPStatusBar/LPStatusBarApp.swift:445-446 | the creation loop keeps the registry consistent |
| StatusRegistry.CreatedAllKeepsAnimations | LPStatusBar/LPStatusBarApp.swift:445-454 | the creation loop clears the enabled ids' images and leaves frames, cursors and timers alone |
| StatusRegistry.CreatedAllRegisters | LPStatusBar/LPStatusBarApp.swift:445-454 | the creation loop registers every enabled id with a new status item |
| StatusRegistry.CreatedAllLaunches | LPStatusBar/LPStatusBarApp.swift:445-474 | the loads started are exactly those of `Launched` |
| StatusRegistry.CreatedAllAlerts | LPStatusBar/LPStatusBarApp.swift:445-470 | the alerts shown are exactly those of `SyncAlerts` |
| StatusRegistry.RefreshedConsistent | LPStatusBar/LPStatusBarApp.swift:440-448 | a refresh keeps the registry consistent |
| StatusRegistry.RefreshedRegisters | LPStatusBar/LPStatusBarApp.swift:440-454 | after a refresh the registered ids are exactly the enabled ids, including those that failed the check, and no button shows an image |
| StatusRegistry.RefreshedState | LPStatusBar/LPStatusBarApp.swift:440-472 | after a refresh: the registered ids are exactly the enabled ids, each with a new status item and no image; the old ids lost their frames, cursors and timers; one load was started per enabled item passing the check, and one alert was shown per enabled item failing it |
| StatusRegistry.ScheduleTimer | LPStatusBar/LPStatusBarApp.swift:569-572 | after `startAnimation` the id has exactly one scheduled timer, the new one; other ids' timers stay; timers and schedule still match |
| StatusRegistry.LoadedConsistent | LPStatusBar/LPStatusBarApp.swift:477-487 | a successful completion keeps the registry consistent |
| StatusRegistry.LoadedState | LPStatusBar/LPStatusBarApp.swift:477-572 | after success the id has its frames and cursor 0, and its registered button shows the first frame; its only scheduled timer is a new one; registration and other ids' timers stay |
| StatusRegistry.FailedState | LPStatusBar/LPStatusBarApp.swift:489-495 | after a failure the alert is shown and the id is in no dictionary, has no image and has no scheduled timer |
| StatusRegistry.StaleCompletionOutlivesStatusItem | LPStatusBar/LPStatusBarApp.swift:474-487 | a completion after the item was disabled stores frames and a timer for an id with no status item, and a later refresh keeps them |
| StatusRegistry.StaleStartedFacts | LPStatusBar/LPStatusBarApp.swift:440-474 | in that scenario the first refresh starts the item's load |
| StatusRegistry.StaleDisabledFacts | LPStatusBar/LPStatusBarApp.swift:440-448 | in that scenario the second refresh registers nothing and the load is still in flight |
| StatusRegistry.StaleCompletedFacts | LPStatusBar/LPStatusBarApp.swift:477-487 | in that scenario the completion gives the unregistered id frames and a timer |
| StatusRegistry.ConsistentAnimates | LPStatusBar/LPStatusBarApp.swift:573-578 | in a consistent registry every id with frames has non-empty frames and a cursor inside them, so the tick's index is in range |
| StatusRegistry.TickedKeepsConsistent | LPStatusBar/LPStatusBarApp.swift:572-579 | a tick keeps the registry consistent |
| StatusRegistry.TickedState | LPStatusBar/LPStatusBarApp.swift:572-579 | a tick changes only the id's cursor, to `NextCursor` of the old one, and its registered button, to the frame under the new cursor; its requirement holds for every id when the registry is consistent |
| StatusRegistry.TickedWithoutFrames | LPStatusBar/LPStatusBarApp.swift:573-575 | with frames missing or empty for the id, a tick changes nothing |
| StatusRegistry.TickedTimesCursor | LPStatusBar/LPStatusBarApp.swift:572-579 | over `k` ticks the cursor follows `CursorAfterTicks`, stays inside the frames, and a registered button shows the frame under it |
| StatusRegistry.AnimationCycles | LPStatusBar/LPStatusBarApp.swift:480-579 | after a load of `n` frames, `k < n` ticks put the cursor on frame `k` and a registered button shows it; `n` ticks bring the cursor and a registered button back to the first frame |
| StatusRegistry.TeardownStopsTicks | LPStatusBar/LPStatusBarApp.swift:570-584 | after removal, no timer the run loop fires gives the id a cursor or an image |
| StatusBarApp.AppDelegate.constructor | LPStatusBar/LPStatusBarApp.swift:377-382 | a new view model, loaded from storage, and an empty registry |
| StatusBarApp.AppDelegate.RemoveStatusItem | LPStatusBar/LPStatusBarApp.swift:582-592 | invalidates the id's timer and drops the id from every dictionary, so the new state is `RemovedAll` of the id; the registry stays consistent |
| StatusBarApp.AppDelegate.ClearAllStatusItems | LPStatusBar/LPStatusBarApp.swift:594-598 | removes every registered id one at a time, so the new state is `RemovedAll` of all of them; no status item and no image remain |
| StatusBarApp.AppDelegate.CreateStatusItem | LPStatusBar/LPStatusBarApp.swift:450-474 | the new state is `Created`; the registry stays consistent |
| StatusBarApp.AppDelegate.RefreshStatusBarItems | LPStatusBar/LPStatusBarApp.swift:440-448 | the new state is `Refreshed`; the registered ids are exactly the enabled ids, and no button shows an image |
| StatusBarApp.AppDelegate.Complete | LPStatusBar/LPStatusBarApp.swift:474-497 | the new state is `Completed`; the registry stays consistent |
| StatusBarApp.AppDelegate.ShowFrames | LPStatusBar/LPStatusBarApp.swift:480-486 | stores the frames, sets the cursor to 0, and shows the first frame on a registered button |
| StatusBarApp.AppDelegate.StartAnimation | LPStatusBar/LPStatusBarApp.swift:569-572 | invalidates the id's timer and schedules a fresh one for it; nothing else changes |
| StatusBarApp.AppDelegate.Tick | LPStatusBar/LPStatusBarApp.swift:572-579 | the new state is `Ticked`; the registry stays consistent |
| StatusBarApp.AppDelegate.Fire | LPStatusBar/LPStatusBarApp.swift:572-579 | a scheduled timer runs its tick and an invalidated one does nothing, as `Fired` says |

## Left out

- Views and windows are not modelled. These are the SwiftUI content view, the window accessor, the toast window, the about window and the menu set up in `applicationDidFinishLaunching`.
- `isValidURL` is not modelled. It is a regular expression run by the platform.
- URL parsing and file existence are not modelled. They are the parameter `passes`, or `syncCheck` for a refresh.
- Persistence is not modelled: `saveItems`, and the property-list encoding and decoding of `loadItems`. Reading the stored list is the input `StoredItems`: no data, a decoded list, or undecodable data.
- `launchAtLogin` is not modelled. It is a thin wrapper over the platform's login-item service.
- Reading bytes, opening an image source and making thumbnails are not modelled. The image library is an input, `Fetch`. The aspect-ratio sizing of each frame uses floating point and is not modelled, so a frame is an opaque `Image`.
- The queue hops, the 0.1 s timer interval and the notification wiring are not modelled. Completions and timer firings are explicit events (`Complete`, `Fire`).
- Complete: requires that the item's load is in flight, because a completion only follows a started load. It also requires that a success carries at least one frame, which `LoadGifFrames` guarantees.
- Complete: the `[weak self]` guard is not modelled, because the application delegate lives as long as the application.
- Taking a status item off the system status bar, `NSStatusBar.removeStatusItem`, is not modelled separately. The model drops the id's button image together with its status item.
- `showError` is not modelled as a window. It is modelled as an entry appended to `alerts`.
- Logging is not modelled: the `print` calls and `printCurrentConfig`.
- `applicationWillTerminate` is not modelled separately. It only calls `clearAllStatusItems`, which is modelled.
- ShowFrames and StartAnimation: the success branch of `Complete` is split into these two methods. The split keeps each proof small; the two together perform the source's sequence of updates.
- AddItem: the fresh UUID is a parameter, `newId`, because generating one is not modelled.
