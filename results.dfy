/**
 * `MonitorEntity.Status` and `StatusCheckStrategy.Result`: the three-valued
 * verdict of one probe run, with its message and optional uptime. A Result
 * is an immutable value.
 */
module Results {
  import opened Lang

  /** `MonitorEntity.Status` */
  datatype Status = Online | Offline | NoConnection

  /** `StatusCheckStrategy.Result`: every field is final; `message` and `uptime` may be null. */
  datatype Result = Result(status: Status, message: Option<string>, uptime: Option<string>)

  /** The two-argument constructor `Result(status, message)`: no uptime. */
  function Make(status: Status, message: Option<string>): (r: Result)
    ensures r == Result(status, message, None)
  {
    Result(status, message, None)
  }

  /** `Result.online(message)` */
  function MakeOnline(message: Option<string>): (r: Result)
    ensures r.status == Online && r.message == message && r.uptime == None
  {
    Make(Online, message)
  }

  /** `Result.online(message, uptime)` */
  function MakeOnlineWithUptime(message: Option<string>, uptime: Option<string>): (r: Result)
    ensures r.status == Online && r.message == message && r.uptime == uptime
  {
    Result(Online, message, uptime)
  }

  /** `Result.offline(message)` */
  function MakeOffline(message: Option<string>): (r: Result)
    ensures r.status == Offline && r.message == message && r.uptime == None
  {
    Make(Offline, message)
  }

  /** `Result.noConnection(message)` */
  function MakeNoConnection(message: Option<string>): (r: Result)
    ensures r.status == NoConnection && r.message == message && r.uptime == None
  {
    Make(NoConnection, message)
  }
}
