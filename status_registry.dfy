/**
 * The status-item registry of `AppDelegate`, as a value: four dictionaries
 * keyed by item id (`statusItems`, `animationTimers`, `gifFrames`,
 * `currentFrames`) together with the platform state they point into. Each
 * event the application reacts to is a function from the registry before it
 * to the registry after it; the class `AppDelegate` performs these updates
 * in place on its fields.
 */
module StatusRegistry {
  import opened Wrappers
  import opened GifItems
  import opened GifFrames
  import opened Animation

  /** A slot handed out by the system status bar; only its identity matters. */
  datatype StatusItem = StatusItem(serial: nat)

  /** A repeating timer scheduled on the run loop; only its identity matters. */
  datatype Timer = Timer(serial: nat)

  /** The messages `showError` puts up. */
  datatype Alert =
    | InvalidUrl(path: string)
    | FileNotFound(path: string)
    | UrlLoadFailed(path: string)
    | FileLoadFailed(path: string)

  /**
   * The four dictionaries of `AppDelegate`, and beside them: the image on
   * the button of each registered status item that shows one, the timers
   * scheduled on the run loop with the id their closure ticks, the items
   * whose load was started and has not completed, the alerts shown so far,
   * and the serial the platform gives the next status item or timer.
   */
  datatype Registry = Registry(
    statusItems: map<Uuid, StatusItem>,
    animationTimers: map<Uuid, Timer>,
    gifFrames: map<Uuid, seq<Image>>,
    currentFrames: map<Uuid, int>,
    buttonImages: map<Uuid, Image>,
    scheduled: map<Timer, Uuid>,
    inFlight: multiset<GifItem>,
    alerts: seq<Alert>,
    nextObject: nat)

  /** The registry of a freshly made `AppDelegate`. */
  const Empty := Registry(map[], map[], map[], map[], map[], map[], multiset{}, [], 0)

  /** The alert for an item whose URL does not parse or whose file does not exist. */
  function SyncCheckAlert(item: GifItem): (a: Alert)
    ensures a.path == item.path
    ensures a.InvalidUrl? <==> item.pathType == Url
    ensures a.FileNotFound? <==> item.pathType == File
  {
    match item.pathType
    case Url => InvalidUrl(item.path)
    case File => FileNotFound(item.path)
  }

  /** The alert for an item whose load failed. */
  function LoadFailureAlert(item: GifItem): (a: Alert)
    ensures a.path == item.path
    ensures a.UrlLoadFailed? <==> item.pathType == Url
    ensures a.FileLoadFailed? <==> item.pathType == File
  {
    match item.pathType
    case Url => UrlLoadFailed(item.path)
    case File => FileLoadFailed(item.path)
  }

  /** The loads a refresh starts: the enabled items that pass the synchronous check, in list order. */
  function Launched(items: seq<GifItem>, syncCheck: GifItem -> bool): (r: seq<GifItem>)
    ensures forall x :: x in r <==> x in items && x.isEnabled && syncCheck(x)
  {
    if items == [] then []
    else
      var last := items[|items| - 1];
      Launched(items[..|items| - 1], syncCheck) + (if last.isEnabled && syncCheck(last) then [last] else [])
  }

  /** The items a refresh shows an alert for: the enabled items that fail the synchronous check, in list order. */
  function Failing(items: seq<GifItem>, syncCheck: GifItem -> bool): (r: seq<GifItem>)
    ensures forall x :: x in r <==> x in items && x.isEnabled && !syncCheck(x)
  {
    if items == [] then []
    else
      var last := items[|items| - 1];
      Failing(items[..|items| - 1], syncCheck) + (if last.isEnabled && !syncCheck(last) then [last] else [])
  }

  /** The alerts a refresh shows: one per enabled item that fails the synchronous check, in list order. */
  function SyncAlerts(items: seq<GifItem>, syncCheck: GifItem -> bool): (r: seq<Alert>)
    ensures |r| <= |items|
    ensures forall a :: a in r ==> exists x :: x in items && x.isEnabled && !syncCheck(x) && a == SyncCheckAlert(x)
    ensures forall x :: x in items && x.isEnabled && !syncCheck(x) ==> SyncCheckAlert(x) in r
  {
    if items == [] then []
    else
      var last := items[|items| - 1];
      var front := items[..|items| - 1];
      assert forall x :: x in items <==> x in front || x == last;
      SyncAlerts(front, syncCheck) + (if last.isEnabled && !syncCheck(last) then [SyncCheckAlert(last)] else [])
  }

  /** The alerts of a refresh are the alerts of the failing items, one each, in the same order. */
  lemma {:induction false} SyncAlertsOfFailing(items: seq<GifItem>, syncCheck: GifItem -> bool)
    ensures |SyncAlerts(items, syncCheck)| == |Failing(items, syncCheck)|
    ensures forall i :: 0 <= i < |Failing(items, syncCheck)| ==>
      SyncAlerts(items, syncCheck)[i] == SyncCheckAlert(Failing(items, syncCheck)[i])
  {
    if items != [] {
      SyncAlertsOfFailing(items[..|items| - 1], syncCheck);
    }
  }

  /** The scheduled timers without those whose closure ticks one of `ids`. */
  function DropTimersOf(timers: map<Timer, Uuid>, ids: set<Uuid>): map<Timer, Uuid> {
    map t | t in timers && timers[t] !in ids :: timers[t]
  }

  // ---------------------------------------------------------------------------
  // What holds between events

  /** Each id's timer is scheduled to tick that id, and every scheduled timer is some id's timer. */
  ghost predicate TimersMatch(timers: map<Uuid, Timer>, scheduled: map<Timer, Uuid>) {
    && (forall id :: id in timers ==> timers[id] in scheduled && scheduled[timers[id]] == id)
    && (forall t :: t in scheduled ==> scheduled[t] in timers && timers[scheduled[t]] == t)
  }

  /** Every id with frames has non-empty frames and a cursor inside them. */
  ghost predicate CursorsInRange(frames: map<Uuid, seq<Image>>, cursors: map<Uuid, int>) {
    forall id :: id in frames ==> |frames[id]| > 0 && id in cursors && 0 <= cursors[id] < |frames[id]|
  }

  /** Every button that shows an image belongs to a registered id and shows that id's current frame. */
  ghost predicate ButtonsShowCursor(statusItems: map<Uuid, StatusItem>, frames: map<Uuid, seq<Image>>,
                                    cursors: map<Uuid, int>, images: map<Uuid, Image>) {
    forall id :: id in images ==>
      && id in statusItems && id in frames && id in cursors
      && 0 <= cursors[id] < |frames[id]|
      && images[id] == frames[id][cursors[id]]
  }

  /**
   * The registry's invariant. Frames, cursor and timer exist for the same
   * ids; the cursor lies inside its non-empty frames; a button shows the
   * current frame of its id; each id's timer is scheduled and is the only
   * scheduled timer for that id; scheduled timers were handed out already.
   * It does NOT say that every id with frames is registered in
   * `statusItems`: the completion handler does not check that.
   */
  ghost predicate Consistent(r: Registry) {
    && r.animationTimers.Keys == r.gifFrames.Keys
    && r.currentFrames.Keys == r.gifFrames.Keys
    && CursorsInRange(r.gifFrames, r.currentFrames)
    && ButtonsShowCursor(r.statusItems, r.gifFrames, r.currentFrames, r.buttonImages)
    && TimersMatch(r.animationTimers, r.scheduled)
    && (forall t :: t in r.scheduled ==> t.serial < r.nextObject)
  }

  /** The invariant says nothing about the loads in flight or the alerts shown. */
  lemma ConsistentIgnoresLog(r: Registry, inFlight: multiset<GifItem>, alerts: seq<Alert>)
    requires Consistent(r)
    ensures Consistent(r.(inFlight := inFlight, alerts := alerts))
  {
  }

  /**
   * Invalidating the timer of `id` (if it has one) removes exactly the
   * scheduled timers that tick `id`.
   */
  lemma InvalidateTimerOf(timers: map<Uuid, Timer>, scheduled: map<Timer, Uuid>, id: Uuid)
    requires TimersMatch(timers, scheduled)
    ensures (if id in timers then scheduled - {timers[id]} else scheduled) == DropTimersOf(scheduled, {id})
  {
    var dropped := if id in timers then scheduled - {timers[id]} else scheduled;
    assert dropped.Keys == DropTimersOf(scheduled, {id}).Keys;
  }

  /** Dropping ids keeps each remaining cursor inside its frames. */
  lemma DropKeepsCursors(frames: map<Uuid, seq<Image>>, cursors: map<Uuid, int>, ids: set<Uuid>)
    requires CursorsInRange(frames, cursors)
    ensures CursorsInRange(frames - ids, cursors - ids)
  {
  }

  /** Dropping ids keeps each remaining button on its current frame. */
  lemma DropKeepsButtons(statusItems: map<Uuid, StatusItem>, frames: map<Uuid, seq<Image>>,
                         cursors: map<Uuid, int>, images: map<Uuid, Image>, ids: set<Uuid>)
    requires ButtonsShowCursor(statusItems, frames, cursors, images)
    ensures ButtonsShowCursor(statusItems - ids, frames - ids, cursors - ids, images - ids)
  {
  }

  /** Dropping ids together with their scheduled timers keeps timers and schedule matched. */
  lemma DropKeepsTimers(timers: map<Uuid, Timer>, scheduled: map<Timer, Uuid>, ids: set<Uuid>)
    requires TimersMatch(timers, scheduled)
    ensures TimersMatch(timers - ids, DropTimersOf(scheduled, ids))
  {
  }

  /** A new status item for `id`, with no image, keeps every button on its current frame. */
  lemma RegisterKeepsButtons(statusItems: map<Uuid, StatusItem>, frames: map<Uuid, seq<Image>>,
                             cursors: map<Uuid, int>, images: map<Uuid, Image>, id: Uuid, handle: StatusItem)
    requires ButtonsShowCursor(statusItems, frames, cursors, images)
    ensures ButtonsShowCursor(statusItems[id := handle], frames, cursors, images - {id})
  {
  }

  /** Moving the cursor of `id` to `n` inside its frames keeps the cursors in range. */
  lemma MoveKeepsCursors(frames: map<Uuid, seq<Image>>, cursors: map<Uuid, int>, id: Uuid, n: int)
    requires CursorsInRange(frames, cursors) && id in frames && 0 <= n < |frames[id]|
    ensures CursorsInRange(frames, cursors[id := n])
  {
  }

  /** Moving the cursor of `id` to `n` and showing frame `n` on its registered button keeps the buttons right. */
  lemma MoveKeepsButtons(statusItems: map<Uuid, StatusItem>, frames: map<Uuid, seq<Image>>,
                         cursors: map<Uuid, int>, images: map<Uuid, Image>, id: Uuid, n: int)
    requires ButtonsShowCursor(statusItems, frames, cursors, images)
    requires id in frames && 0 <= n < |frames[id]|
    ensures ButtonsShowCursor(statusItems, frames, cursors[id := n],
                              if id in statusItems then images[id := frames[id][n]] else images)
  {
  }

  /** Storing non-empty frames for `id` with the cursor at 0 keeps the cursors in range. */
  lemma LoadKeepsCursors(frames: map<Uuid, seq<Image>>, cursors: map<Uuid, int>, id: Uuid, loaded: seq<Image>)
    requires CursorsInRange(frames, cursors) && loaded != []
    ensures CursorsInRange(frames[id := loaded], cursors[id := 0])
  {
  }

  /** Storing non-empty frames for `id` and showing the first on its registered button keeps the buttons right. */
  lemma LoadKeepsButtons(statusItems: map<Uuid, StatusItem>, frames: map<Uuid, seq<Image>>,
                         cursors: map<Uuid, int>, images: map<Uuid, Image>, id: Uuid, loaded: seq<Image>)
    requires ButtonsShowCursor(statusItems, frames, cursors, images) && loaded != []
    ensures ButtonsShowCursor(statusItems, frames[id := loaded], cursors[id := 0],
                              if id in statusItems then images[id := loaded[0]] else images)
  {
  }

  // ---------------------------------------------------------------------------
  // removeStatusItem(for:) and clearAllStatusItems()

  /**
   * `removeStatusItem(for:)` for every id of `ids`: each id's timer is
   * invalidated and the id leaves all four dictionaries and its button.
   */
  function RemovedAll(r: Registry, ids: set<Uuid>): Registry {
    r.(statusItems := r.statusItems - ids,
       animationTimers := r.animationTimers - ids,
       gifFrames := r.gifFrames - ids,
       currentFrames := r.currentFrames - ids,
       buttonImages := r.buttonImages - ids,
       scheduled := DropTimersOf(r.scheduled, ids))
  }

  /** Removing no id changes nothing. */
  lemma RemovedNothing(r: Registry)
    ensures RemovedAll(r, {}) == r
  {
    assert DropTimersOf(r.scheduled, {}) == r.scheduled;
  }

  /** Removing ids one at a time is removing the set of them. */
  lemma RemovedAllStep(r: Registry, ids: set<Uuid>, id: Uuid)
    ensures RemovedAll(RemovedAll(r, ids), {id}) == RemovedAll(r, ids + {id})
  {
    assert DropTimersOf(DropTimersOf(r.scheduled, ids), {id}) == DropTimersOf(r.scheduled, ids + {id});
  }

  /** Removal keeps the registry consistent. */
  lemma RemovedAllKeepsConsistent(r: Registry, ids: set<Uuid>)
    requires Consistent(r)
    ensures Consistent(RemovedAll(r, ids))
  {
    DropKeepsCursors(r.gifFrames, r.currentFrames, ids);
    DropKeepsButtons(r.statusItems, r.gifFrames, r.currentFrames, r.buttonImages, ids);
    DropKeepsTimers(r.animationTimers, r.scheduled, ids);
  }

  /**
   * A registry with the fields `removeStatusItem(for: id)` writes (the id's
   * timer taken off the run loop, the id dropped from every dictionary) is
   * the removal's result, and consistent.
   */
  lemma RemovedFields(r: Registry, id: Uuid, s: Registry)
    requires Consistent(r)
    requires s.scheduled == if id in r.animationTimers then r.scheduled - {r.animationTimers[id]} else r.scheduled
    requires s.animationTimers == r.animationTimers - {id} && s.buttonImages == r.buttonImages - {id}
    requires s.statusItems == r.statusItems - {id} && s.gifFrames == r.gifFrames - {id}
    requires s.currentFrames == r.currentFrames - {id}
    requires s.inFlight == r.inFlight && s.alerts == r.alerts && s.nextObject == r.nextObject
    ensures s == RemovedAll(r, {id}) && Consistent(s)
  {
    InvalidateTimerOf(r.animationTimers, r.scheduled, id);
    RemovedAllKeepsConsistent(r, {id});
  }

  /** Removing every registered id leaves no status item and no button image. */
  lemma ClearedAll(r: Registry)
    requires Consistent(r)
    ensures RemovedAll(r, r.statusItems.Keys).statusItems == map[]
    ensures RemovedAll(r, r.statusItems.Keys).buttonImages == map[]
  {
    var cleared := RemovedAll(r, r.statusItems.Keys);
    assert cleared.statusItems.Keys == {};
    assert cleared.buttonImages.Keys == {};
  }

  /**
   * Removal keeps the registry consistent, leaves the removed ids in no
   * dictionary, leaves every other id's entries as they were, and leaves no
   * scheduled timer that would tick a removed id.
   */
  lemma RemovedAllConsistent(r: Registry, ids: set<Uuid>)
    requires Consistent(r)
    ensures var s := RemovedAll(r, ids);
      && Consistent(s)
      && (forall id :: id in ids ==>
            id !in s.statusItems && id !in s.animationTimers && id !in s.gifFrames &&
            id !in s.currentFrames && id !in s.buttonImages)
      && (forall id :: id !in ids ==>
            Get(s.statusItems, id) == Get(r.statusItems, id) &&
            Get(s.animationTimers, id) == Get(r.animationTimers, id) &&
            Get(s.gifFrames, id) == Get(r.gifFrames, id) &&
            Get(s.currentFrames, id) == Get(r.currentFrames, id))
      && (forall t :: t in s.scheduled ==> s.scheduled[t] !in ids)
  {
    RemovedAllKeepsConsistent(r, ids);
  }

  // ---------------------------------------------------------------------------
  // createStatusItem(for:), synchronous part, and refreshStatusBarItems()

  /**
   * `createStatusItem(for:)` up to the asynchronous load: a new status item
   * is registered for the id without an image; then the load starts if the
   * synchronous check passes (the URL parses, the file exists), and an alert
   * is shown otherwise.
   */
  function Created(r: Registry, item: GifItem, passes: bool): Registry {
    var registered := r.(statusItems := r.statusItems[item.id := StatusItem(r.nextObject)],
                         buttonImages := r.buttonImages - {item.id},
                         nextObject := r.nextObject + 1);
    if passes then registered.(inFlight := r.inFlight + multiset{item})
    else registered.(alerts := r.alerts + [SyncCheckAlert(item)])
  }

  /** `createStatusItem(for:)` for every enabled item of `items`, in order. */
  function CreatedAll(r: Registry, items: seq<GifItem>, syncCheck: GifItem -> bool): Registry {
    if items == [] then r
    else
      var last := items[|items| - 1];
      var before := CreatedAll(r, items[..|items| - 1], syncCheck);
      if last.isEnabled then Created(before, last, syncCheck(last)) else before
  }

  /** Creating the status items of one more item of a list. */
  lemma CreatedAllNext(r: Registry, items: seq<GifItem>, i: nat, syncCheck: GifItem -> bool)
    requires i < |items|
    ensures var before := CreatedAll(r, items[..i], syncCheck);
      CreatedAll(r, items[..i + 1], syncCheck) ==
        if items[i].isEnabled then Created(before, items[i], syncCheck(items[i])) else before
  {
    assert items[..i + 1][..i] == items[..i];
  }

  /** `refreshStatusBarItems()`: clear everything registered, then create a status item per enabled item. */
  function Refreshed(r: Registry, items: seq<GifItem>, syncCheck: GifItem -> bool): Registry {
    CreatedAll(RemovedAll(r, r.statusItems.Keys), items, syncCheck)
  }

  /** One creation keeps the registry consistent. */
  lemma CreatedKeepsConsistent(r: Registry, item: GifItem, passes: bool)
    requires Consistent(r)
    ensures Consistent(Created(r, item, passes))
  {
    RegisterKeepsButtons(r.statusItems, r.gifFrames, r.currentFrames, r.buttonImages, item.id, StatusItem(r.nextObject));
  }

  /** One creation touches only the registration of `item.id`, the loads in flight and the alerts. */
  lemma CreatedState(r: Registry, item: GifItem, passes: bool)
    ensures var s := Created(r, item, passes);
      && s.statusItems == r.statusItems[item.id := StatusItem(r.nextObject)]
      && s.buttonImages == r.buttonImages - {item.id}
      && s.animationTimers == r.animationTimers && s.gifFrames == r.gifFrames
      && s.currentFrames == r.currentFrames && s.scheduled == r.scheduled
      && s.inFlight == (if passes then r.inFlight + multiset{item} else r.inFlight)
      && s.alerts == (if passes then r.alerts else r.alerts + [SyncCheckAlert(item)])
      && s.nextObject == r.nextObject + 1
  {
  }

  /** Creating the status items of `items` keeps the registry consistent. */
  lemma {:induction false} CreatedAllKeepsConsistent(r: Registry, items: seq<GifItem>, syncCheck: GifItem -> bool)
    requires Consistent(r)
    ensures Consistent(CreatedAll(r, items, syncCheck))
  {
    if items != [] {
      var front, last := items[..|items| - 1], items[|items| - 1];
      CreatedAllKeepsConsistent(r, front, syncCheck);
      if last.isEnabled {
        CreatedKeepsConsistent(CreatedAll(r, front, syncCheck), last, syncCheck(last));
      }
    }
  }

  /** Creating the status items of `items` clears the enabled ids' buttons and leaves frames, cursors and timers alone. */
  lemma {:induction false} CreatedAllKeepsAnimations(r: Registry, items: seq<GifItem>, syncCheck: GifItem -> bool)
    ensures var s := CreatedAll(r, items, syncCheck);
      && s.buttonImages == r.buttonImages - EnabledIds(items)
      && s.animationTimers == r.animationTimers && s.gifFrames == r.gifFrames
      && s.currentFrames == r.currentFrames && s.scheduled == r.scheduled
      && s.nextObject >= r.nextObject
  {
    if items != [] {
      var front, last := items[..|items| - 1], items[|items| - 1];
      assert items == front + [last];
      CreatedAllKeepsAnimations(r, front, syncCheck);
      EnabledIdsAppend(front, last);
      var before := CreatedAll(r, front, syncCheck);
      if last.isEnabled {
        CreatedState(before, last, syncCheck(last));
        assert before.buttonImages - {last.id} == r.buttonImages - EnabledIds(items);
      }
    }
  }

  /** Creating the status items of `items` registers every enabled id, each with a new status item. */
  lemma {:induction false} CreatedAllRegisters(r: Registry, items: seq<GifItem>, syncCheck: GifItem -> bool)
    ensures var s := CreatedAll(r, items, syncCheck);
      && s.statusItems.Keys == r.statusItems.Keys + EnabledIds(items)
      && (forall id :: id in EnabledIds(items) ==> s.statusItems[id].serial >= r.nextObject)
      && s.nextObject >= r.nextObject
  {
    if items != [] {
      var front, last := items[..|items| - 1], items[|items| - 1];
      assert items == front + [last];
      CreatedAllRegisters(r, front, syncCheck);
      EnabledIdsAppend(front, last);
      var before := CreatedAll(r, front, syncCheck);
      if last.isEnabled {
        var s := Created(before, last, syncCheck(last));
        assert s.statusItems == before.statusItems[last.id := StatusItem(before.nextObject)];
        assert s.nextObject == before.nextObject + 1;
        forall id | id in EnabledIds(items)
          ensures s.statusItems[id].serial >= r.nextObject
        {
          if id != last.id {
            assert id in EnabledIds(front);
            assert s.statusItems[id] == before.statusItems[id];
          }
        }
      }
    }
  }

  /** Creating the status items of `items` starts one load per enabled item passing the check. */
  lemma {:induction false} CreatedAllLaunches(r: Registry, items: seq<GifItem>, syncCheck: GifItem -> bool)
    ensures CreatedAll(r, items, syncCheck).inFlight == r.inFlight + multiset(Launched(items, syncCheck))
  {
    if items != [] {
      var front, last := items[..|items| - 1], items[|items| - 1];
      CreatedAllLaunches(r, front, syncCheck);
      var before := CreatedAll(r, front, syncCheck);
      var launched := Launched(front, syncCheck);
      if !last.isEnabled {
        assert Launched(items, syncCheck) == launched + [] == launched;
      } else if syncCheck(last) {
        CreatedState(before, last, true);
        assert Launched(items, syncCheck) == launched + [last];
        assert multiset(launched + [last]) == multiset(launched) + multiset{last};
      } else {
        CreatedState(before, last, false);
        assert Launched(items, syncCheck) == launched + [] == launched;
      }
    }
  }

  /** Creating the status items of `items` shows one alert per enabled item failing the check, in list order. */
  lemma {:induction false} CreatedAllAlerts(r: Registry, items: seq<GifItem>, syncCheck: GifItem -> bool)
    ensures CreatedAll(r, items, syncCheck).alerts == r.alerts + SyncAlerts(items, syncCheck)
  {
    if items == [] {
      assert r.alerts + [] == r.alerts;
    } else {
      var front, last := items[..|items| - 1], items[|items| - 1];
      CreatedAllAlerts(r, front, syncCheck);
      var before := CreatedAll(r, front, syncCheck);
      var alerts := SyncAlerts(front, syncCheck);
      if !last.isEnabled {
        assert SyncAlerts(items, syncCheck) == alerts + [] == alerts;
      } else if syncCheck(last) {
        CreatedState(before, last, true);
        assert SyncAlerts(items, syncCheck) == alerts + [] == alerts;
      } else {
        CreatedState(before, last, false);
        assert SyncAlerts(items, syncCheck) == alerts + [SyncCheckAlert(last)];
        assert (r.alerts + alerts) + [SyncCheckAlert(last)] == r.alerts + (alerts + [SyncCheckAlert(last)]);
      }
    }
  }

  /**
   * After a refresh and before any load completes, the registered ids are
   * exactly the enabled ids, each with a new status item and no image, also
   * the items that failed the synchronous check; every previously registered
   * id lost its frames, cursor and timer, which other ids keep; one load was
   * started per enabled item passing the check and one alert shown per
   * enabled item failing it.
   */
  lemma RefreshedState(r: Registry, items: seq<GifItem>, syncCheck: GifItem -> bool)
    requires Consistent(r)
    ensures var s := Refreshed(r, items, syncCheck);
      && Consistent(s)
      && s.statusItems.Keys == EnabledIds(items)
      && (forall id :: id in s.statusItems ==> s.statusItems[id].serial >= r.nextObject)
      && s.buttonImages == map[]
      && s.gifFrames == r.gifFrames - r.statusItems.Keys
      && s.currentFrames == r.currentFrames - r.statusItems.Keys
      && s.animationTimers == r.animationTimers - r.statusItems.Keys
      && s.scheduled == DropTimersOf(r.scheduled, r.statusItems.Keys)
      && s.inFlight == r.inFlight + multiset(Launched(items, syncCheck))
      && s.alerts == r.alerts + SyncAlerts(items, syncCheck)
  {
    var cleared := RemovedAll(r, r.statusItems.Keys);
    RefreshedConsistent(r, items, syncCheck);
    RefreshedRegisters(r, items, syncCheck);
    CreatedAllKeepsAnimations(cleared, items, syncCheck);
    CreatedAllRegisters(cleared, items, syncCheck);
    CreatedAllLaunches(cleared, items, syncCheck);
    CreatedAllAlerts(cleared, items, syncCheck);
  }

  /** A refresh keeps the registry consistent. */
  lemma RefreshedConsistent(r: Registry, items: seq<GifItem>, syncCheck: GifItem -> bool)
    requires Consistent(r)
    ensures Consistent(Refreshed(r, items, syncCheck))
  {
    RemovedAllKeepsConsistent(r, r.statusItems.Keys);
    CreatedAllKeepsConsistent(RemovedAll(r, r.statusItems.Keys), items, syncCheck);
  }

  /** After a refresh the registered ids are exactly the enabled ids, and no button shows an image. */
  lemma RefreshedRegisters(r: Registry, items: seq<GifItem>, syncCheck: GifItem -> bool)
    requires Consistent(r)
    ensures Refreshed(r, items, syncCheck).statusItems.Keys == EnabledIds(items)
    ensures Refreshed(r, items, syncCheck).buttonImages == map[]
  {
    var cleared := RemovedAll(r, r.statusItems.Keys);
    ClearedAll(r);
    CreatedAllRegisters(cleared, items, syncCheck);
    CreatedAllKeepsAnimations(cleared, items, syncCheck);
  }

  // ---------------------------------------------------------------------------
  // The completion handler of loadGIFFrames, and startAnimation(for:)

  /**
   * The completion of the load started for `item`. On success the frames are
   * stored, the cursor is set to 0, the first frame goes on the button if the
   * id is registered, and `startAnimation` invalidates the id's timer before
   * scheduling a new one. On failure an alert is shown and the id is
   * removed. Neither branch checks that the id is still registered.
   */
  function Completed(r: Registry, item: GifItem, result: LoadResult): Registry {
    var id := item.id;
    var done := r.(inFlight := r.inFlight - multiset{item});
    match result
    case Loaded(frames) =>
      var timer := Timer(r.nextObject);
      done.(gifFrames := r.gifFrames[id := frames],
            currentFrames := r.currentFrames[id := 0],
            buttonImages := if id in r.statusItems && |frames| > 0 then r.buttonImages[id := frames[0]]
                            else r.buttonImages,
            animationTimers := r.animationTimers[id := timer],
            scheduled := DropTimersOf(r.scheduled, {id})[timer := id],
            nextObject := r.nextObject + 1)
    case LoadFailed(_) =>
      RemovedAll(done.(alerts := r.alerts + [LoadFailureAlert(item)]), {id})
  }

  /**
   * `startAnimation(for:)` on the timers: invalidating the id's timer and
   * scheduling a fresh one leaves exactly that one scheduled for the id, keeps
   * the other ids' timers, and keeps timers and schedule matched.
   */
  lemma ScheduleTimer(timers: map<Uuid, Timer>, scheduled: map<Timer, Uuid>, id: Uuid, t: Timer)
    requires TimersMatch(timers, scheduled) && t !in scheduled
    ensures var s := DropTimersOf(scheduled, {id})[t := id];
      && TimersMatch(timers[id := t], s)
      && (forall u :: u in s && s[u] == id ==> u == t)
      && (forall u :: u in scheduled && scheduled[u] != id ==> u in s && s[u] == scheduled[u])
  {
    InvalidateTimerOf(timers, scheduled, id);
    DropKeepsTimers(timers, scheduled, {id});
  }

  /** A successful completion keeps the registry consistent. */
  lemma LoadedConsistent(r: Registry, item: GifItem, frames: seq<Image>)
    requires Consistent(r) && frames != []
    ensures Consistent(Completed(r, item, Loaded(frames)))
  {
    var timer := Timer(r.nextObject);
    assert timer !in r.scheduled;
    ScheduleTimer(r.animationTimers, r.scheduled, item.id, timer);
    LoadKeepsCursors(r.gifFrames, r.currentFrames, item.id, frames);
    LoadKeepsButtons(r.statusItems, r.gifFrames, r.currentFrames, r.buttonImages, item.id, frames);
  }

  /** A registry with the fields a successful completion writes is that completion's result. */
  lemma LoadedFields(r: Registry, item: GifItem, frames: seq<Image>, s: Registry)
    requires Consistent(r) && frames != []
    requires s.statusItems == r.statusItems && s.inFlight == r.inFlight - multiset{item} && s.alerts == r.alerts
    requires s.gifFrames == r.gifFrames[item.id := frames] && s.currentFrames == r.currentFrames[item.id := 0]
    requires s.buttonImages == if item.id in r.statusItems then r.buttonImages[item.id := frames[0]] else r.buttonImages
    requires s.animationTimers == r.animationTimers[item.id := Timer(r.nextObject)]
    requires s.scheduled == DropTimersOf(r.scheduled, {item.id})[Timer(r.nextObject) := item.id]
    requires s.nextObject == r.nextObject + 1
    ensures s == Completed(r, item, Loaded(frames)) && Consistent(s)
  {
    LoadedConsistent(r, item, frames);
  }

  /**
   * After a successful completion the id has its frames, cursor 0, the first
   * frame on a registered button, and exactly one scheduled timer, a new one;
   * registration and other ids' timers stay.
   */
  lemma LoadedState(r: Registry, item: GifItem, frames: seq<Image>)
    requires Consistent(r) && frames != []
    ensures var s := Completed(r, item, Loaded(frames));
      && Consistent(s)
      && s.inFlight == r.inFlight - multiset{item}
      && s.statusItems == r.statusItems && s.alerts == r.alerts
      && s.gifFrames == r.gifFrames[item.id := frames]
      && s.currentFrames == r.currentFrames[item.id := 0]
      && (item.id in r.statusItems ==> s.buttonImages == r.buttonImages[item.id := frames[0]])
      && (item.id !in r.statusItems ==> s.buttonImages == r.buttonImages)
      && item.id in s.animationTimers && s.animationTimers[item.id] !in r.scheduled
      && (forall t :: t in s.scheduled && s.scheduled[t] == item.id ==> t == s.animationTimers[item.id])
      && (forall t :: t in r.scheduled && r.scheduled[t] != item.id ==>
            t in s.scheduled && s.scheduled[t] == r.scheduled[t])
  {
    LoadedConsistent(r, item, frames);
    var timer := Timer(r.nextObject);
    assert timer !in r.scheduled;
    ScheduleTimer(r.animationTimers, r.scheduled, item.id, timer);
  }

  /** A failed completion keeps the registry consistent, shows the alert and leaves the id in no dictionary. */
  lemma FailedState(r: Registry, item: GifItem, error: LoadError)
    requires Consistent(r)
    ensures var s := Completed(r, item, LoadFailed(error));
      && Consistent(s)
      && s.inFlight == r.inFlight - multiset{item}
      && s.alerts == r.alerts + [LoadFailureAlert(item)]
      && s == RemovedAll(r.(inFlight := s.inFlight, alerts := s.alerts), {item.id})
      && item.id !in s.statusItems && item.id !in s.gifFrames && item.id !in s.currentFrames
      && item.id !in s.animationTimers && item.id !in s.buttonImages
      && (forall t :: t in s.scheduled ==> s.scheduled[t] != item.id)
  {
    RemovedAllConsistent(r.(inFlight := r.inFlight - multiset{item}, alerts := r.alerts + [LoadFailureAlert(item)]), {item.id});
  }

  /**
   * The source does not check, on completion, that the id is still
   * registered: a load that finishes after its item was disabled and the
   * status bar refreshed stores frames and schedules a timer for an id with
   * no status item. A refresh does not clear them while the item stays
   * disabled, because clearing visits only the registered ids.
   */
  lemma StaleCompletionOutlivesStatusItem()
    ensures Consistent(StaleCompleted())
    ensures StaleItem() in StaleDisabled().inFlight
    ensures StaleItem().id !in StaleCompleted().statusItems
    ensures StaleItem().id in StaleCompleted().gifFrames && StaleItem().id in StaleCompleted().animationTimers
    ensures var again := Refreshed(StaleCompleted(), [StaleItem().(isEnabled := false)], AlwaysPasses);
      StaleItem().id in again.gifFrames && StaleItem().id in again.animationTimers
  {
    StaleDisabledFacts();
    StaleCompletedFacts();
    var off := StaleItem().(isEnabled := false);
    RemovedNothing(StaleCompleted());
    CreatedAllKeepsAnimations(StaleCompleted(), [off], AlwaysPasses);
  }

  /** The scenario's item: an enabled item with a file path. */
  function StaleItem(): GifItem {
    GifItem(Uuid(1), "/tmp/a.gif", true, File)
  }

  /** A sync check every item passes. */
  function AlwaysPasses(item: GifItem): bool {
    true
  }

  /** The registry after the first refresh, with the item's load started. */
  function StaleStarted(): Registry {
    Refreshed(Empty, [StaleItem()], AlwaysPasses)
  }

  /** The registry after the item is disabled and the status bar refreshed again. */
  function StaleDisabled(): Registry {
    Refreshed(StaleStarted(), [StaleItem().(isEnabled := false)], AlwaysPasses)
  }

  /** The registry after the first load completes. */
  function StaleCompleted(): Registry {
    Completed(StaleDisabled(), StaleItem(), Loaded([Image(0)]))
  }

  /** The first refresh starts the item's load. */
  lemma StaleStartedFacts()
    ensures Consistent(StaleStarted()) && StaleItem() in StaleStarted().inFlight
  {
    var item := StaleItem();
    assert [item][..0] == [];
    assert Consistent(Empty);
    RefreshedConsistent(Empty, [item], AlwaysPasses);
    CreatedAllLaunches(RemovedAll(Empty, {}), [item], AlwaysPasses);
    assert Launched([item], AlwaysPasses) == [item];
  }

  /** The second refresh registers nothing and leaves the load in flight. */
  lemma StaleDisabledFacts()
    ensures Consistent(StaleDisabled()) && StaleItem() in StaleDisabled().inFlight
    ensures StaleDisabled().statusItems.Keys == {}
  {
    StaleStartedFacts();
    var started := StaleStarted();
    var off := StaleItem().(isEnabled := false);
    assert [off][..0] == [];
    RefreshedConsistent(started, [off], AlwaysPasses);
    RefreshedRegisters(started, [off], AlwaysPasses);
    CreatedAllLaunches(RemovedAll(started, started.statusItems.Keys), [off], AlwaysPasses);
    assert Launched([off], AlwaysPasses) == [];
    assert EnabledIds([off]) == {};
  }

  /** The completion stores frames and a timer for the unregistered id. */
  lemma StaleCompletedFacts()
    requires Consistent(StaleDisabled()) && StaleDisabled().statusItems.Keys == {}
    ensures Consistent(StaleCompleted()) && StaleCompleted().statusItems.Keys == {}
    ensures StaleItem().id in StaleCompleted().gifFrames && StaleItem().id in StaleCompleted().animationTimers
  {
    LoadedConsistent(StaleDisabled(), StaleItem(), [Image(0)]);
  }

  // ---------------------------------------------------------------------------
  // The timer's closure, and the run loop firing a timer

  /**
   * One run of the closure `startAnimation` schedules for `id`: with frames
   * for the id, the cursor moves to `NextCursor` of the old one and a
   * registered button shows the frame under it; without frames nothing
   * changes. (The cursor always lies inside the frames when the registry is
   * consistent; the guard only keeps the function total.)
   */
  function Ticked(r: Registry, id: Uuid): Registry {
    if id in r.gifFrames && |r.gifFrames[id]| > 0 then
      var frames := r.gifFrames[id];
      var cursors := r.currentFrames[id := NextCursor(Get(r.currentFrames, id), |frames|)];
      var shown := Get(cursors, id).GetOr(0);
      r.(currentFrames := cursors,
         buttonImages := if id in r.statusItems && 0 <= shown < |frames| then r.buttonImages[id := frames[shown]]
                         else r.buttonImages)
    else r
  }

  /** `k` runs of the closure for `id`. */
  function TickedTimes(r: Registry, id: Uuid, k: nat): Registry
    decreases k
  {
    if k == 0 then r else TickedTimes(Ticked(r, id), id, k - 1)
  }

  /** The run loop fires `t`: a scheduled timer runs its closure; an invalidated one does nothing. */
  function Fired(r: Registry, t: Timer): Registry {
    if t in r.scheduled then Ticked(r, r.scheduled[t]) else r
  }

  /** `id` has non-empty frames and a cursor inside them: what `Consistent` says about one animated id. */
  ghost predicate Animating(r: Registry, id: Uuid) {
    id in r.gifFrames && id in r.currentFrames && 0 <= r.currentFrames[id] < |r.gifFrames[id]|
  }

  /** In a consistent registry every id with frames is animating. */
  lemma ConsistentAnimates(r: Registry, id: Uuid)
    requires Consistent(r)
    ensures id in r.gifFrames ==> Animating(r, id) && |r.gifFrames[id]| > 0
  {
  }

  /** A tick keeps the registry consistent. */
  lemma TickedKeepsConsistent(r: Registry, id: Uuid)
    requires Consistent(r)
    ensures Consistent(Ticked(r, id))
  {
    if id in r.gifFrames {
      var n := NextCursor(Get(r.currentFrames, id), |r.gifFrames[id]|);
      MoveKeepsCursors(r.gifFrames, r.currentFrames, id, n);
      MoveKeepsButtons(r.statusItems, r.gifFrames, r.currentFrames, r.buttonImages, id, n);
    }
  }

  /**
   * A tick changes only the cursor of `id` and the image of its button,
   * which then shows the frame under the new cursor. Its requirement holds
   * for every id of a consistent registry (`ConsistentAnimates`), where
   * frames that are present are never empty; `TickedWithoutFrames` covers
   * missing and empty frames alike.
   */
  lemma TickedState(r: Registry, id: Uuid)
    requires id in r.gifFrames ==> Animating(r, id)
    ensures var s := Ticked(r, id);
      && s == r.(currentFrames := s.currentFrames, buttonImages := s.buttonImages)
      && s.currentFrames - {id} == r.currentFrames - {id}
      && s.buttonImages - {id} == r.buttonImages - {id}
      && (id in r.gifFrames ==>
            && s.currentFrames[id] == NextCursor(Some(r.currentFrames[id]), |r.gifFrames[id]|)
            && (id in r.statusItems ==> s.buttonImages[id] == r.gifFrames[id][s.currentFrames[id]]))
      && (id !in r.gifFrames ==> s == r)
  {
    if id in r.gifFrames {
      var frames := r.gifFrames[id];
      var n := NextCursor(Get(r.currentFrames, id), |frames|);
      var s := Ticked(r, id);
      assert s.currentFrames == r.currentFrames[id := n];
      assert s.currentFrames - {id} == r.currentFrames - {id};
      assert s.buttonImages - {id} == r.buttonImages - {id};
    }
  }

  /** Without frames for `id`, or with empty frames, a tick changes nothing. */
  lemma TickedWithoutFrames(r: Registry, id: Uuid)
    requires id !in r.gifFrames || |r.gifFrames[id]| == 0
    ensures Ticked(r, id) == r
  {
  }

  /** Over `k` ticks the cursor of `id` follows `CursorAfterTicks`, and only the cursor and the image change. */
  lemma {:induction false} TickedTimesCursor(r: Registry, id: Uuid, k: nat)
    requires Animating(r, id)
    decreases k
    ensures var s := TickedTimes(r, id, k);
      && Animating(s, id)
      && s == r.(currentFrames := s.currentFrames, buttonImages := s.buttonImages)
      && s.currentFrames[id] == CursorAfterTicks(r.currentFrames[id], |r.gifFrames[id]|, k)
      && (id in r.statusItems && k > 0 ==> id in s.buttonImages && s.buttonImages[id] == r.gifFrames[id][s.currentFrames[id]])
  {
    if k > 0 {
      TickedState(r, id);
      var next := Ticked(r, id);
      assert next.gifFrames == r.gifFrames && next.statusItems == r.statusItems;
      assert next.currentFrames[id] == NextCursor(Some(r.currentFrames[id]), |r.gifFrames[id]|);
      TickedTimesCursor(next, id, k - 1);
      var s := TickedTimes(r, id, k);
      assert s == TickedTimes(next, id, k - 1);
      if k == 1 {
        assert s == next;
      }
    }
  }

  /**
   * After a successful load of `n` frames, `k < n` ticks put the cursor on
   * frame `k`, and a registered button shows that frame; `n` ticks bring it, and a registered button, back to the
   * first frame.
   */
  lemma AnimationCycles(r: Registry, item: GifItem, frames: seq<Image>, k: nat)
    requires Consistent(r) && frames != []
    ensures var loaded := Completed(r, item, Loaded(frames));
      var ticked, cycled := TickedTimes(loaded, item.id, k), TickedTimes(loaded, item.id, |frames|);
      && item.id in ticked.currentFrames && (k < |frames| ==> ticked.currentFrames[item.id] == k)
      && (item.id in r.statusItems && 0 < k < |frames| ==>
            item.id in ticked.buttonImages && ticked.buttonImages[item.id] == frames[k])
      && item.id in cycled.currentFrames && cycled.currentFrames[item.id] == 0
      && (item.id in r.statusItems ==> item.id in cycled.buttonImages && cycled.buttonImages[item.id] == frames[0])
  {
    var loaded := Completed(r, item, Loaded(frames));
    LoadedState(r, item, frames);
    TickedTimesCursor(loaded, item.id, |frames|);
    CycleReturnsToFirstFrame(|frames|);
    TickedTimesCursor(loaded, item.id, k);
    if k < |frames| {
      CursorCountsTicks(|frames|, k);
    }
  }

  /**
   * Tearing an item down cancels its animation: once the id is removed, no
   * timer the run loop fires gives it a cursor or an image again.
   */
  lemma TeardownStopsTicks(r: Registry, id: Uuid, t: Timer)
    requires Consistent(r)
    ensures var s := RemovedAll(r, {id});
      id !in Fired(s, t).currentFrames && id !in Fired(s, t).buttonImages
  {
    RemovedAllConsistent(r, {id});
    var s := RemovedAll(r, {id});
    if t in s.scheduled {
      TickedState(s, s.scheduled[t]);
    }
  }
}
