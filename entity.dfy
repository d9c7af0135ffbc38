/**
 * `MonitorEntity`: one monitored server, service or program. Its identity
 * and probe are fixed when it is built; the outcome of the latest check
 * (status, message, uptime, time) and the notification switch change in
 * place through setters. `setStatus` keeps the status it replaces as the
 * previous status, which `shouldNotify` compares against.
 */
module Entity {
  import opened Lang
  import opened Results
  import MinecraftCheck
  import HealthCheck
  import WebsiteCheck

  /** The check strategy an entity is built with: which probe, configured how. */
  datatype Strategy =
    | Minecraft(minecraft: MinecraftCheck.Probe)
    | Health(health: HealthCheck.Probe)
    | Website(website: WebsiteCheck.Probe)
    | Ping(host: string)

  /**
   * The fields of an entity that change after it is built, as one value;
   * `previous` is `None` while `previousStatus` is `null`, and `lastCheck`
   * is the `long` milliseconds of the latest check (0: none yet).
   */
  datatype Fields = Fields(
    status: Status,
    previous: Option<Status>,
    message: Option<string>,
    uptime: Option<string>,
    notify: bool,
    lastCheck: int)

  /** What the constructor sets: Offline, "Checking...", no uptime, no check yet, no previous status. */
  function Initial(notify: bool): (f: Fields)
    ensures f.status == Offline && f.previous == None && f.notify == notify
    ensures f.message == Some("Checking...") && f.uptime == None && f.lastCheck == 0
  {
    Fields(Offline, None, Some("Checking..."), None, notify, 0)
  }

  /** `setStatus(s)`: the current status becomes the previous one, even when `s` equals it. */
  function WithStatus(f: Fields, s: Status): (g: Fields)
    ensures g.status == s && g.previous == Some(f.status)
    ensures g.(status := f.status, previous := f.previous) == f
  {
    f.(previous := Some(f.status), status := s)
  }

  /** The fields after `setStatus` is called with each of `ss` in turn. */
  function AfterStatuses(f: Fields, ss: seq<Status>): Fields
  {
    if ss == [] then f else WithStatus(AfterStatuses(f, ss[..|ss| - 1]), ss[|ss| - 1])
  }

  /**
   * After one or more calls the status is the last argument and the previous
   * status the one before it, or the status held before the first call; no
   * other field changes.
   */
  lemma {:induction false} PreviousAfterCalls(f: Fields, ss: seq<Status>)
    requires |ss| >= 1
    ensures AfterStatuses(f, ss).status == ss[|ss| - 1]
    ensures AfterStatuses(f, ss).previous == Some(if |ss| == 1 then f.status else ss[|ss| - 2])
    ensures AfterStatuses(f, ss).(status := f.status, previous := f.previous) == f
  {
    var init := ss[..|ss| - 1];
    if |ss| > 1 {
      PreviousAfterCalls(f, init);
    }
  }

  /** On a new entity the first `setStatus` leaves Offline, the constructor's placeholder, as the previous status. */
  lemma FirstCallLeavesOffline(notify: bool, s: Status)
    ensures AfterStatuses(Initial(notify), [s]).previous == Some(Offline)
  {
    PreviousAfterCalls(Initial(notify), [s]);
  }

  /**
   * `shouldNotify()`: notifications are on, there is a previous status, the
   * status changed, and it is now Offline or NoConnection.
   */
  predicate Notify(f: Fields)
  {
    f.notify && f.previous.Some? && f.previous.value != f.status && (f.status == Offline || f.status == NoConnection)
  }

  /** A new entity never asks for a notification: it has no previous status yet. */
  lemma NewEntityDoesNotNotify(notify: bool)
    ensures !Notify(Initial(notify))
  {
  }

  /** Right after `setStatus(s)` a notification is due exactly when `s` is a change for the worse. */
  lemma NotifyAfterSetStatus(f: Fields, s: Status)
    ensures Notify(WithStatus(f, s)) <==> f.notify && f.status != s && s != Online
  {
  }

  /** `MonitorEntity` */
  class MonitorEntity {
    const id: string
    const name: string
    const address: Option<string>
    const strategy: Strategy
    var status: Status
    var message: Option<string>
    var uptime: Option<string>
    var notificationsEnabled: bool
    var lastCheckTime: int
    var previousStatus: Option<Status>

    /** The changing fields, as one value. */
    function State(): Fields
      reads this
    {
      Fields(status, previousStatus, message, uptime, notificationsEnabled, lastCheckTime)
    }

    /** The private constructor `Builder.build` calls. */
    constructor (id: string, name: string, address: Option<string>, strategy: Strategy, notificationsEnabled: bool)
      ensures this.id == id && this.name == name && this.address == address && this.strategy == strategy
      ensures State() == Initial(notificationsEnabled)
    {
      this.id := id;
      this.name := name;
      this.address := address;
      this.strategy := strategy;
      status := Offline;
      message := Some("Checking...");
      uptime := None;
      this.notificationsEnabled := notificationsEnabled;
      lastCheckTime := 0;
      previousStatus := None;
    }

    method SetStatus(s: Status)
      modifies this
      ensures State() == WithStatus(old(State()), s)
    {
      previousStatus := Some(status);
      status := s;
    }

    method SetMessage(m: Option<string>)
      modifies this
      ensures State() == old(State()).(message := m)
    {
      message := m;
    }

    method SetUptime(u: Option<string>)
      modifies this
      ensures State() == old(State()).(uptime := u)
    {
      uptime := u;
    }

    method SetNotificationsEnabled(enabled: bool)
      modifies this
      ensures State() == old(State()).(notify := enabled)
    {
      notificationsEnabled := enabled;
    }

    method SetLastCheckTime(time: int)
      modifies this
      ensures State() == old(State()).(lastCheck := time)
    {
      lastCheckTime := time;
    }

    /** `shouldNotify()`, read off the fields. */
    function ShouldNotify(): (b: bool)
      reads this
      ensures b == Notify(State())
    {
      if !notificationsEnabled || previousStatus.None? || previousStatus.value == status then false
      else status == Offline || status == NoConnection
    }
  }

  /** What `build()` throws when no check strategy was given. */
  const MissingStrategy := Fault(Other("IllegalStateException"), Some("checkStrategy is required"))

  /** `MonitorEntity.Builder`: notifications default to on; a strategy is required. */
  class Builder {
    const id: string
    const name: string
    var address: Option<string>
    var notificationsEnabled: bool
    var checkStrategy: Option<Strategy>

    constructor (id: string, name: string)
      ensures this.id == id && this.name == name
      ensures address == None && notificationsEnabled && checkStrategy == None
    {
      this.id := id;
      this.name := name;
      address := None;
      notificationsEnabled := true;
      checkStrategy := None;
    }

    method Address(a: Option<string>) returns (b: Builder)
      modifies this
      ensures b == this && address == a
      ensures notificationsEnabled == old(notificationsEnabled) && checkStrategy == old(checkStrategy)
    {
      address := a;
      b := this;
    }

    method NotificationsEnabled(enabled: bool) returns (b: Builder)
      modifies this
      ensures b == this && notificationsEnabled == enabled
      ensures address == old(address) && checkStrategy == old(checkStrategy)
    {
      notificationsEnabled := enabled;
      b := this;
    }

    method CheckStrategy(s: Option<Strategy>) returns (b: Builder)
      modifies this
      ensures b == this && checkStrategy == s
      ensures address == old(address) && notificationsEnabled == old(notificationsEnabled)
    {
      checkStrategy := s;
      b := this;
    }

    /**
     * `build()`: a new entity carrying the builder's settings and the
     * constructor's defaults, or the IllegalStateException when no strategy
     * was given.
     */
    method Build() returns (e: MonitorEntity?, thrown: Option<Fault>)
      ensures checkStrategy.None? ==> e == null && thrown == Some(MissingStrategy)
      ensures checkStrategy.Some? ==> thrown == None && e != null && fresh(e)
      ensures e != null ==> e.id == id && e.name == name && e.address == address
      ensures e != null ==> Some(e.strategy) == checkStrategy && e.State() == Initial(notificationsEnabled)
    {
      if checkStrategy.None? {
        return null, Some(MissingStrategy);
      }
      e := new MonitorEntity(id, name, address, checkStrategy.value, notificationsEnabled);
      thrown := None;
    }
  }
}
