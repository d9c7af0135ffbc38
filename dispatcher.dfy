/**
 * `StatusChecker`: runs an entity's probe and hands the result to a
 * callback. When the device has no usable network the probe is not run at
 * all; a probe that throws counts as NoConnection.
 *
 * The thread pool and the hop back to the main thread are left out: here a
 * check runs to completion and its callback's arguments are returned.
 */
module StatusChecker {
  import opened Lang
  import opened Results
  import opened Entity

  /** The network capabilities the check looks at. */
  datatype Capability = Internet | OtherCapability

  /**
   * What the connectivity service reports: whether there is a manager,
   * whether it names an active network, and that network's capabilities
   * (`None`: `null`).
   */
  datatype Connectivity = Connectivity(manager: bool, activeNetwork: bool, capabilities: Option<set<Capability>>)

  /**
   * `hasActiveNetwork()`: false when the manager, the active network or its
   * capabilities are missing, or when the network cannot reach the Internet.
   */
  predicate HasActiveNetwork(c: Connectivity)
  {
    c.manager && c.activeNetwork && c.capabilities.Some? && Internet in c.capabilities.value
  }

  /** How the probe's `check` ended: it returned a result, or it threw. */
  datatype ProbeRun = Returned(result: Result) | Threw(fault: Fault)

  /** The result `checkStatus` hands to the callback. */
  function Choose(networkUp: bool, run: ProbeRun): (r: Result)
    ensures !networkUp ==> r == Result(NoConnection, Some("No network"), None)
    ensures networkUp && run.Returned? ==> r == run.result
    ensures networkUp && run.Threw? ==> r == Result(NoConnection, Some("Check failed"), None)
  {
    if !networkUp then MakeNoConnection(Some("No network"))
    else match run
      case Returned(result) => result
      case Threw(_) => MakeNoConnection(Some("Check failed"))
  }

  /**
   * An entity is reported Online only when the network was up and the
   * probe itself returned Online; every failure of the device or of the
   * probe is NoConnection, never Offline.
   */
  lemma OnlineOnlyFromProbe(networkUp: bool, run: ProbeRun)
    ensures Choose(networkUp, run).status == Online <==>
      networkUp && run.Returned? && run.result.status == Online
    ensures Choose(networkUp, run).status == Offline ==>
      networkUp && run.Returned? && run.result.status == Offline
  {
  }

  /**
   * `checkStatus(entity, callback)`: consults connectivity, runs the probe
   * only when the network is up, and delivers the entity with the chosen
   * result to the callback once. `probed` says whether the probe ran.
   */
  method CheckStatus(entity: MonitorEntity, c: Connectivity, run: ProbeRun)
    returns (probed: bool, delivered: MonitorEntity, r: Result)
    ensures probed == HasActiveNetwork(c)
    ensures delivered == entity && r == Choose(HasActiveNetwork(c), run)
  {
    var up := c.manager && c.activeNetwork && c.capabilities.Some? && Internet in c.capabilities.value;
    if !up {
      probed := false;
      r := MakeNoConnection(Some("No network"));
    } else {
      probed := true;
      if run.Returned? {
        r := run.result;
      } else {
        r := MakeNoConnection(Some("Check failed"));
      }
    }
    delivered := entity;
  }
}
