/**
 * `AppDelegate`: owns the view model and the status-item registry, and
 * updates the registry's dictionaries in place, one entry at a time, as the
 * Swift class does. Each method that handles an event is proved to leave
 * the registry as the matching function of `StatusRegistry` says.
 */
module StatusBarApp {
  import opened Wrappers
  import opened GifItems
  import opened GifFrames
  import opened Animation
  import opened ViewModel
  import opened StatusRegistry

  class AppDelegate {
    const viewModel: StatusBarViewModel

    var statusItems: map<Uuid, StatusItem>
    var animationTimers: map<Uuid, Timer>
    var gifFrames: map<Uuid, seq<Image>>
    var currentFrames: map<Uuid, int>

    /** The image on the button of `statusItems[id]`, for the ids whose button shows one. */
    var buttonImages: map<Uuid, Image>
    /** The timers scheduled on the run loop, each with the id its closure ticks. */
    var scheduled: map<Timer, Uuid>
    /** The items whose load was started and has not yet completed. */
    var inFlight: multiset<GifItem>
    /** The alerts shown so far. */
    var alerts: seq<Alert>
    /** The serial the platform gives the next status item or timer. */
    var nextObject: nat

    /** The registry these fields hold. */
    function State(): Registry
      reads this
    {
      Registry(statusItems, animationTimers, gifFrames, currentFrames,
               buttonImages, scheduled, inFlight, alerts, nextObject)
    }

    ghost predicate Valid()
      reads this
    {
      Consistent(State())
    }

    /** `AppDelegate()`: a new view model, which loads the stored items, and an empty registry. */
    constructor (stored: StoredItems)
      ensures Valid() && fresh(viewModel)
      ensures viewModel.items == if stored.Decodes? then stored.items else []
      ensures State() == Empty
    {
      viewModel := new StatusBarViewModel(stored);
      statusItems, animationTimers, gifFrames, currentFrames := map[], map[], map[], map[];
      buttonImages, scheduled, inFlight, alerts := map[], map[], multiset{}, [];
      nextObject := 0;
    }

    /**
     * `removeStatusItem(for:)`: invalidate the id's timer, take its status
     * item off the bar and drop the id from every dictionary.
     */
    method RemoveStatusItem(id: Uuid)
      requires Valid()
      modifies this
      ensures Valid()
      ensures State() == RemovedAll(old(State()), {id})
    {
      if id in animationTimers {
        scheduled := scheduled - {animationTimers[id]};
      }
      animationTimers, buttonImages, statusItems, gifFrames, currentFrames :=
        animationTimers - {id}, buttonImages - {id}, statusItems - {id}, gifFrames - {id}, currentFrames - {id};
      RemovedFields(old(State()), id, State());
    }

    /**
     * `clearAllStatusItems()`: `removeStatusItem` for every id registered in
     * `statusItems`, in the dictionary's unspecified order.
     */
    method ClearAllStatusItems()
      requires Valid()
      modifies this
      ensures Valid()
      ensures State() == RemovedAll(old(State()), old(statusItems.Keys))
      ensures statusItems == map[] && buttonImages == map[]
    {
      var pending := statusItems.Keys;
      ghost var start, removed: set<Uuid> := State(), {};
      RemovedNothing(start);
      while pending != {}
        invariant pending + removed == start.statusItems.Keys && pending !! removed
        invariant State() == RemovedAll(start, removed)
        decreases pending
      {
        var id :| id in pending;
        RemovedAllKeepsConsistent(start, removed);
        RemovedAllStep(start, removed, id);
        RemoveStatusItem(id);
        pending := pending - {id};
        removed := removed + {id};
      }
      RemovedAllKeepsConsistent(start, removed);
      ClearedAll(start);
    }

    /**
     * `createStatusItem(for:)`, its synchronous part: register a new status
     * item without an image, then start the load if `passes` (the URL parses
     * or the file exists), or show an alert and leave the item registered.
     */
    method CreateStatusItem(item: GifItem, passes: bool)
      requires Valid()
      modifies this
      ensures Valid()
      ensures State() == Created(old(State()), item, passes)
    {
      var statusItem := StatusItem(nextObject);
      statusItems, buttonImages, nextObject := statusItems[item.id := statusItem], buttonImages - {item.id}, nextObject + 1;
      if passes {
        inFlight := inFlight + multiset{item};
      } else {
        alerts := alerts + [SyncCheckAlert(item)];
      }
      CreatedKeepsConsistent(old(State()), item, passes);
    }

    /**
     * `refreshStatusBarItems()`: clear everything registered, then create a
     * status item for every enabled item in list order. Afterwards the
     * registered ids are exactly the enabled ids, none showing an image yet.
     */
    method RefreshStatusBarItems(syncCheck: GifItem -> bool)
      requires Valid()
      modifies this
      ensures Valid()
      ensures State() == Refreshed(old(State()), viewModel.items, syncCheck)
      ensures statusItems.Keys == EnabledIds(viewModel.items) && buttonImages == map[]
    {
      RefreshedRegisters(State(), viewModel.items, syncCheck);
      ClearAllStatusItems();
      ghost var cleared := State();
      var items := viewModel.items;
      for i := 0 to |items|
        invariant State() == CreatedAll(cleared, items[..i], syncCheck)
        invariant Valid()
      {
        var item := items[i];
        CreatedAllNext(cleared, items, i, syncCheck);
        if item.isEnabled {
          CreateStatusItem(item, syncCheck(item));
        }
      }
      assert items[..|items|] == items;
    }

    /**
     * The completion handler of the load started for `item`. On success:
     * store the frames, set the cursor to 0, show the first frame on a
     * registered button, and `startAnimation`. On failure: show an alert and
     * `removeStatusItem`. Neither branch checks that the id is still
     * registered in `statusItems`.
     */
    method Complete(item: GifItem, result: LoadResult)
      requires Valid()
      requires item in inFlight
      requires result.Loaded? ==> result.frames != []
      modifies this
      ensures Valid()
      ensures State() == Completed(old(State()), item, result)
    {
      var id := item.id;
      inFlight := inFlight - multiset{item};
      match result
      case Loaded(frames) =>
        ShowFrames(id, frames);
        StartAnimation(id);
        LoadedFields(old(State()), item, frames, State());
      case LoadFailed(error) =>
        alerts := alerts + [LoadFailureAlert(item)];
        ConsistentIgnoresLog(old(State()), inFlight, alerts);
        RemoveStatusItem(id);
    }

    /**
     * The success branch of the completion up to `startAnimation`: store the
     * frames, set the cursor to 0 and put the first frame on the id's
     * button, if the id has a status item.
     */
    method ShowFrames(id: Uuid, frames: seq<Image>)
      requires frames != []
      modifies this
      ensures State() == old(State()).(gifFrames := old(gifFrames)[id := frames],
                                       currentFrames := old(currentFrames)[id := 0],
                                       buttonImages := if id in old(statusItems) then old(buttonImages)[id := frames[0]]
                                                       else old(buttonImages))
    {
      gifFrames := gifFrames[id := frames];
      currentFrames := currentFrames[id := 0];
      if id in statusItems {
        buttonImages := buttonImages[id := frames[0]];
      }
    }

    /** `startAnimation(for:)`: invalidate the id's timer, then schedule a new repeating one for the id. */
    method StartAnimation(id: Uuid)
      requires TimersMatch(animationTimers, scheduled)
      requires forall t :: t in scheduled ==> t.serial < nextObject
      modifies this
      ensures animationTimers == old(animationTimers)[id := Timer(old(nextObject))]
      ensures scheduled == DropTimersOf(old(scheduled), {id})[Timer(old(nextObject)) := id]
      ensures nextObject == old(nextObject) + 1
      ensures statusItems == old(statusItems) && gifFrames == old(gifFrames)
      ensures currentFrames == old(currentFrames) && buttonImages == old(buttonImages)
      ensures inFlight == old(inFlight) && alerts == old(alerts)
    {
      InvalidateTimerOf(animationTimers, scheduled, id);
      if id in animationTimers {
        scheduled := scheduled - {animationTimers[id]};
      }
      var timer := Timer(nextObject);
      scheduled, animationTimers, nextObject := scheduled[timer := id], animationTimers[id := timer], nextObject + 1;
    }

    /** The closure `startAnimation` schedules, run once for `id`. */
    method Tick(id: Uuid)
      requires Valid()
      modifies this
      ensures Valid()
      ensures State() == Ticked(old(State()), id)
    {
      if id in gifFrames && |gifFrames[id]| > 0 {
        var frames := gifFrames[id];
        assert Animating(old(State()), id);
        currentFrames := currentFrames[id := NextCursor(Get(currentFrames, id), |frames|)];
        if id in statusItems {
          buttonImages := buttonImages[id := frames[Get(currentFrames, id).GetOr(0)]];
        }
      }
      TickedKeepsConsistent(old(State()), id);
    }

    /** The run loop fires timer `t`: a scheduled timer runs its closure, an invalidated one does nothing. */
    method Fire(t: Timer)
      requires Valid()
      modifies this
      ensures Valid()
      ensures State() == Fired(old(State()), t)
    {
      if t in scheduled {
        Tick(scheduled[t]);
      }
    }
  }
}
