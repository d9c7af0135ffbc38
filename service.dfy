/**
 * `MonitorService`: checks every entity, folds each result into its entity,
 * tells the listener, raises an alert for an Offline result, and re-runs
 * itself every 20 seconds while it is running.
 *
 * The handler's timers are modelled by `pending`, the number of posted
 * re-runs not yet run or removed; the checks it issues, the listener calls
 * and the alerts are logged in order. The foreground notification, the
 * notification channel and the binder are left out.
 */
module Service {
  import opened Lang
  import opened Results
  import opened Entity
  import opened StatusChecker

  /** The delay of the periodic re-run, in milliseconds. */
  const CheckIntervalMs := 20000

  /**
   * The completion callback's effect on an entity's fields: the result's
   * status through `setStatus`, its message and uptime, and the time.
   */
  function Completed(f: Fields, r: Result, now: int): (g: Fields)
    ensures g.status == r.status && g.previous == Some(f.status)
    ensures g.message == r.message && g.uptime == r.uptime && g.lastCheck == now
    ensures g.notify == f.notify
  {
    WithStatus(f, r.status).(message := r.message, uptime := r.uptime, lastCheck := now)
  }

  /** The completion callback raises an alert: notifications are on and the result is Offline. */
  predicate Alert(notify: bool, status: Status)
  {
    notify && status == Offline
  }

  /**
   * The alert does not ask `shouldNotify`: it fires for every Offline result,
   * also when the entity was already Offline, and never for NoConnection,
   * where a notification would be due after a change.
   */
  lemma AlertIgnoresPrevious(f: Fields, r: Result, now: int)
    ensures Alert(f.notify, r.status) && f.status == Offline ==> !Notify(Completed(f, r, now))
    ensures r.status == NoConnection ==> !Alert(f.notify, r.status)
    ensures r.status == NoConnection ==> (Notify(Completed(f, r, now)) <==> f.notify && f.status != NoConnection)
  {
    NotifyAfterSetStatus(f, r.status);
  }

  /** `MonitorService` */
  class MonitorService {
    const entities: seq<MonitorEntity>
    var isRunning: bool
    var hasListener: bool
    /** Every check issued, in order. */
    var dispatched: seq<MonitorEntity>
    /** Re-runs posted with the check interval and not yet run or removed. */
    var pending: nat
    /** Every call of the listener, in order. */
    var updates: seq<MonitorEntity>
    /** Every alert raised, in order. */
    var alerts: seq<MonitorEntity>

    /** `onCreate()`: the configured entities, not running, nothing issued yet. */
    constructor (entities: seq<MonitorEntity>)
      ensures this.entities == entities && !isRunning && !hasListener
      ensures dispatched == [] && pending == 0 && updates == [] && alerts == []
    {
      this.entities := entities;
      isRunning := false;
      hasListener := false;
      dispatched := [];
      pending := 0;
      updates := [];
      alerts := [];
    }

    /** `setStatusUpdateListener(listener)`; `present` is false for `null`. */
    method SetStatusUpdateListener(present: bool)
      modifies this
      ensures hasListener == present
      ensures isRunning == old(isRunning) && dispatched == old(dispatched) && pending == old(pending)
      ensures updates == old(updates) && alerts == old(alerts)
    {
      hasListener := present;
    }

    /** `performChecks()`: one check per entity in list order, then one delayed re-run. */
    method PerformChecks()
      modifies this
      ensures dispatched == old(dispatched) + entities && pending == old(pending) + 1
      ensures isRunning == old(isRunning) && hasListener == old(hasListener)
      ensures updates == old(updates) && alerts == old(alerts)
    {
      for i := 0 to |entities|
        invariant dispatched == old(dispatched) + entities[..i]
        invariant pending == old(pending)
        invariant isRunning == old(isRunning) && hasListener == old(hasListener)
        invariant updates == old(updates) && alerts == old(alerts)
      {
        assert entities[..i + 1] == entities[..i] + [entities[i]];
        dispatched := dispatched + [entities[i]];
      }
      assert entities[..|entities|] == entities;
      pending := pending + 1;
    }

    /** `checkNow()`: checks at once, whether or not the service is running. */
    method CheckNow()
      modifies this
      ensures dispatched == old(dispatched) + entities && pending == old(pending) + 1
      ensures isRunning == old(isRunning) && hasListener == old(hasListener)
      ensures updates == old(updates) && alerts == old(alerts)
    {
      PerformChecks();
    }

    /** `startMonitoring()`: does nothing when already running; otherwise starts and checks. */
    method StartMonitoring()
      modifies this
      ensures old(isRunning) ==> unchanged(this)
      ensures !old(isRunning) ==> isRunning && dispatched == old(dispatched) + entities && pending == old(pending) + 1
      ensures hasListener == old(hasListener) && updates == old(updates) && alerts == old(alerts)
    {
      if isRunning {
        return;
      }
      isRunning := true;
      PerformChecks();
    }

    /** `stopMonitoring()`: stops, and removes every posted re-run. */
    method StopMonitoring()
      modifies this
      ensures !isRunning && pending == 0
      ensures dispatched == old(dispatched) && hasListener == old(hasListener)
      ensures updates == old(updates) && alerts == old(alerts)
    {
      isRunning := false;
      pending := 0;
    }

    /**
     * A posted `checkRunnable` runs: it checks again only while the service
     * is running.
     */
    method CheckRunnable()
      requires pending > 0
      modifies this
      ensures old(isRunning) ==> dispatched == old(dispatched) + entities && pending == old(pending)
      ensures !old(isRunning) ==> dispatched == old(dispatched) && pending == old(pending) - 1
      ensures isRunning == old(isRunning) && hasListener == old(hasListener)
      ensures updates == old(updates) && alerts == old(alerts)
    {
      pending := pending - 1;
      if isRunning {
        PerformChecks();
      }
    }

    /**
     * The completion callback for one check: folds the result into the
     * entity, calls the listener once if there is one, and raises an alert
     * for an Offline result when the entity's notifications are on.
     */
    method OnStatusChecked(entity: MonitorEntity, r: Result, now: int)
      modifies this, entity
      ensures entity.State() == Completed(old(entity.State()), r, now)
      ensures updates == old(updates) + (if hasListener then [entity] else [])
      ensures alerts == old(alerts) + (if Alert(old(entity.notificationsEnabled), r.status) then [entity] else [])
      ensures isRunning == old(isRunning) && hasListener == old(hasListener)
      ensures dispatched == old(dispatched) && pending == old(pending)
    {
      entity.SetStatus(r.status);
      entity.SetMessage(r.message);
      entity.SetUptime(r.uptime);
      entity.SetLastCheckTime(now);
      if hasListener {
        updates := updates + [entity];
      }
      if entity.notificationsEnabled && r.status == Offline {
        alerts := alerts + [entity];
      }
    }

    /**
     * One issued check carried through: the dispatcher picks the result from
     * the connectivity and the probe's run, and the callback folds it in.
     */
    method CompleteCheck(entity: MonitorEntity, c: Connectivity, run: ProbeRun, now: int)
      modifies this, entity
      ensures entity.State() == Completed(old(entity.State()), Choose(HasActiveNetwork(c), run), now)
      ensures hasListener == old(hasListener)
      ensures updates == old(updates) + (if hasListener then [entity] else [])
      ensures alerts == old(alerts) +
        (if Alert(old(entity.notificationsEnabled), Choose(HasActiveNetwork(c), run).status) then [entity] else [])
      ensures isRunning == old(isRunning) && dispatched == old(dispatched) && pending == old(pending)
    {
      var probed, delivered, r := CheckStatus(entity, c, run);
      OnStatusChecked(delivered, r, now);
    }
  }
}
