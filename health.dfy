/**
 * `SimpleHealthCheck`: a probe that GETs `/health` from a small HTTP health
 * server, classifies the response code, and scans the JSON body for the
 * host's name and uptime.
 *
 * The HTTP exchange is an oracle: `Exchange` says whether asking for the
 * response code threw, and if not, which code came back and which lines the
 * body held (or that reading the body threw).
 */
module HealthCheck {
  import opened Lang
  import opened Strings
  import opened Decimal
  import opened Results
  import opened Http

  /** The probe's configuration: port first, as the constructor takes them. */
  datatype Probe = Probe(port: Int32, host: string)

  /** The URL the probe requests: "http://host:port/health". */
  function Url(p: Probe): (url: string)
    ensures |url| == 7 + |p.host| + 1 + |IntToString(p.port)| + 7
    ensures url[..7] == "http://" && url[|url| - 7..] == "/health"
  {
    "http://" + p.host + ":" + IntToString(p.port) + "/health"
  }

  /** The host and the port can be read back out of the URL at their places. */
  lemma UrlParts(p: Probe)
    ensures Url(p)[7..7 + |p.host|] == p.host
    ensures Url(p)[7 + |p.host|] == ':'
    ensures ParseInt(Url(p)[8 + |p.host|..|Url(p)| - 7]) == Some(p.port as int)
  {
    var url := Url(p);
    var digits := IntToString(p.port);
    assert url == "http://" + p.host + ":" + digits + "/health";
    assert url[8 + |p.host|..|url| - 7] == digits;
    IntToStringRoundTrip(p.port);
  }

  /** `getDescription()`: "HTTP:" and the port in decimal, which reads back as the port. */
  function Description(p: Probe): (d: string)
    ensures |d| > 5 && d[..5] == "HTTP:" && ParseInt(d[5..]) == Some(p.port as int)
  {
    var d := "HTTP:" + IntToString(p.port);
    assert d[5..] == IntToString(p.port);
    IntToStringRoundTrip(p.port);
    d
  }

  /* ---------------------------------------------------------------------- */
  /* The body                                                               */
  /* ---------------------------------------------------------------------- */

  /**
   * What `readBody` returns for a body that reads as `lines` (`None`: the
   * stream threw): the lines joined with no separator, then trimmed; `null`
   * when reading threw.
   */
  function BodyText(lines: Option<seq<string>>): (r: Option<string>)
    ensures r.Some? <==> lines.Some?
    ensures r.Some? ==> |r.value| <= TotalLength(lines.value)
  {
    match lines
    case None => None
    case Some(ls) => Some(Trim(Concat(ls)))
  }

  /** `readBody`: appends each line to a buffer, then trims it; any exception gives `null`. */
  method ReadBody(lines: Option<seq<string>>) returns (r: Option<string>)
    ensures r == BodyText(lines)
  {
    if lines.None? {
      return None;
    }
    var ls := lines.value;
    var sb := "";
    var i := 0;
    while i < |ls|
      invariant 0 <= i <= |ls|
      invariant sb == Concat(ls[..i])
    {
      assert ls[..i + 1][..i] == ls[..i];
      sb := sb + ls[i];
      i := i + 1;
    }
    assert ls[..i] == ls;
    r := Some(Trim(sb));
  }

  /* ---------------------------------------------------------------------- */
  /* Scanning the JSON text                                                 */
  /* ---------------------------------------------------------------------- */

  /**
   * `extractJson(json, key)` of this probe: the text between the first '"'
   * that follows the quoted key and one more character (the ':'), and the
   * next '"'. `null` when the text is null or the key or either quote is
   * missing. A value found holds no '"'.
   */
  function QuotedField(json: Option<string>, key: string): (r: Option<string>)
    ensures r.Some? ==> json.Some? && Unquoted(r.value) && Contains(json.value, Quoted(key))
  {
    if json.None? then None
    else
      var text := json.value;
      var search := Quoted(key);
      var keyStart := IndexOf(text, search, 0);
      if keyStart < 0 then None else QuotedFrom(text, keyStart + |search| + 1)
  }

  /** The text between the first '"' at or after `from` and the next '"'. */
  function QuotedFrom(text: string, from: nat): (r: Option<string>)
    ensures r.Some? ==> Unquoted(r.value)
  {
    var valueStart := IndexOf(text, "\"", from);
    if valueStart < 0 then None
    else
      var valueEnd := IndexOf(text, "\"", valueStart + 1);
      if valueEnd < 0 then None
      else
        UnquotedBetween(text, valueStart + 1, valueEnd);
        Some(text[valueStart + 1..valueEnd])
  }

  /** Once the first `"key"` is found at `at`, the value is the quoted text after it and the ':'. */
  lemma FieldAfterKey(text: string, key: string, at: nat)
    requires FirstAt(text, Quoted(key), at)
    ensures QuotedField(Some(text), key) == QuotedFrom(text, at + |Quoted(key)| + 1)
  {
    IndexOfFinds(text, Quoted(key), 0, at);
    FieldFromIndex(text, key, at);
  }

  /** `QuotedField` reads from just past the key's first position and the ':'. */
  lemma FieldFromIndex(text: string, key: string, at: nat)
    requires IndexOf(text, Quoted(key), 0) == at
    ensures QuotedField(Some(text), key) == QuotedFrom(text, at + |Quoted(key)| + 1)
  {
  }

  /** With no '"' at or after `from`, there is no quoted text. */
  lemma NoOpeningQuoteFrom(text: string, from: nat)
    requires forall k :: from <= k < |text| ==> text[k] != '"'
    ensures QuotedFrom(text, from) == None
  {
    var valueStart := IndexOf(text, "\"", from);
    if valueStart >= 0 {
      OccursAtChar(text, '"', valueStart);
    }
  }

  /** A '"' at `valueStart`, the first at or after `from`, that is never closed: no quoted text. */
  lemma NoClosingQuoteFrom(text: string, from: nat, valueStart: nat)
    requires from <= valueStart < |text| && text[valueStart] == '"'
    requires forall k :: from <= k < |text| && k != valueStart ==> text[k] != '"'
    ensures QuotedFrom(text, from) == None
  {
    forall k | from <= k < valueStart
      ensures !OccursAt(text, "\"", k)
    {
      OccursAtChar(text, '"', k);
    }
    OccursAtChar(text, '"', valueStart);
    IndexOfFinds(text, "\"", from, valueStart);
    var valueEnd := IndexOf(text, "\"", valueStart + 1);
    if valueEnd >= 0 {
      OccursAtChar(text, '"', valueEnd);
    }
  }

  /** The first `"key"` at `at` with no '"' after it and the ':': no value. */
  lemma NoOpeningQuote(text: string, key: string, at: nat)
    requires FirstAt(text, Quoted(key), at)
    requires forall k :: at + |Quoted(key)| + 1 <= k < |text| ==> text[k] != '"'
    ensures QuotedField(Some(text), key) == None
  {
    FieldAfterKey(text, key, at);
    NoOpeningQuoteFrom(text, at + |Quoted(key)| + 1);
  }

  /** The first `"key"` at `at`, then a single '"' after it and the ':': no value. */
  lemma NoClosingQuote(text: string, key: string, at: nat, valueStart: nat)
    requires FirstAt(text, Quoted(key), at)
    requires at + |Quoted(key)| + 1 <= valueStart < |text| && text[valueStart] == '"'
    requires forall k :: at + |Quoted(key)| + 1 <= k < |text| && k != valueStart ==> text[k] != '"'
    ensures QuotedField(Some(text), key) == None
  {
    FieldAfterKey(text, key, at);
    NoClosingQuoteFrom(text, at + |Quoted(key)| + 1, valueStart);
  }

  /** The first `"key"` at `at`, then the quoted text after it and the ':': the value. */
  lemma FieldAt(text: string, key: string, at: nat, from: nat, value: string)
    requires FirstAt(text, Quoted(key), at) && from == at + |Quoted(key)| + 1
    requires QuotedFrom(text, from) == Some(value)
    ensures QuotedField(Some(text), key) == Some(value)
  {
    FieldAfterKey(text, key, at);
  }

  /** Quotes at `valueStart` and `valueEnd`, none from `from` up to `valueEnd` but that one: the value between. */
  lemma QuotedFromAt(text: string, from: nat, valueStart: nat, valueEnd: nat, value: string)
    requires from <= valueStart < valueEnd < |text|
    requires text[valueStart] == '"' && text[valueEnd] == '"'
    requires forall k :: from <= k < valueEnd && k != valueStart ==> text[k] != '"'
    requires text[valueStart + 1..valueEnd] == value
    ensures QuotedFrom(text, from) == Some(value)
  {
    FirstQuote(text, from, valueStart);
    FirstQuote(text, valueStart + 1, valueEnd);
  }

  /**
   * A field reads back: when the first `"key"` is followed by one character
   * (the ':'), text without '"' and a quoted value without '"', that value is
   * what `extractJson` returns.
   */
  lemma FieldReadsBack(pre: string, key: string, colon: char, gap: string, value: string, post: string)
    requires Unquoted(gap) && Unquoted(value)
    requires FirstAt(pre + Quoted(key) + [colon] + gap + "\"" + value + "\"" + post, Quoted(key), |pre|)
    ensures QuotedField(Some(pre + Quoted(key) + [colon] + gap + "\"" + value + "\"" + post), key) == Some(value)
  {
    var text := pre + Quoted(key) + [colon] + gap + "\"" + value + "\"" + post;
    TextReadsBack(text, pre, key, colon, gap, value, post);
  }

  /** `FieldReadsBack` with the whole text named. */
  lemma TextReadsBack(text: string, pre: string, key: string, colon: char, gap: string, value: string, post: string)
    requires Unquoted(gap) && Unquoted(value)
    requires text == pre + Quoted(key) + [colon] + gap + "\"" + value + "\"" + post
    requires FirstAt(text, Quoted(key), |pre|)
    ensures QuotedField(Some(text), key) == Some(value)
  {
    ValueAfterGap(text, pre, key, colon, gap, value, post);
    FieldAt(text, key, |pre|, |pre| + |Quoted(key)| + 1, value);
  }

  /** After the key and one character, the gap is skipped and the quoted value read. */
  lemma ValueAfterGap(text: string, pre: string, key: string, colon: char, gap: string, value: string, post: string)
    requires Unquoted(gap) && Unquoted(value)
    requires text == pre + Quoted(key) + [colon] + gap + "\"" + value + "\"" + post
    ensures QuotedFrom(text, |pre| + |Quoted(key)| + 1) == Some(value)
  {
    var from := |pre| + |Quoted(key)| + 1;
    var vs := from + |gap|;
    var ve := vs + 1 + |value|;
    var head := pre + Quoted(key) + [colon] + gap;
    assert text[vs] == '"' && text[ve] == '"' && ve < |text| by {
      assert text == head + ("\"" + value + "\"" + post);
    }
    assert forall k :: from <= k < vs ==> text[k] != '"' by {
      GapLayout(pre + Quoted(key), colon, gap);
    }
    assert forall k :: vs < k < ve ==> text[k] != '"' by {
      assert text == head + ("\"" + value + "\"" + post);
      assert forall k :: vs < k < ve ==> text[k] == value[k - vs - 1];
    }
    assert text[vs + 1..ve] == value by {
      assert text == head + ("\"" + value + "\"" + post);
    }
    QuotedFromAt(text, from, vs, ve, value);
  }

  /** `gap` sits right after the character that follows `head`. */
  lemma GapLayout(head: string, c: char, gap: string)
    ensures forall k :: |head| + 1 <= k < |head| + 1 + |gap| ==> (head + [c] + gap)[k] == gap[k - |head| - 1]
  {
  }

  /* ---------------------------------------------------------------------- */
  /* The probe                                                              */
  /* ---------------------------------------------------------------------- */

  /** What the server answered: the response code and the body's lines (`None`: reading threw). */
  datatype Reply = Reply(code: Int32, body: Option<seq<string>>)

  /** The HTTP exchange: opening the connection or asking for the code threw, or a reply came. */
  datatype Exchange = Failed(fault: Fault) | Answered(reply: Reply)

  /** The catch clauses of `check`, in their order. */
  function FaultResult(f: Fault): (r: Result)
    ensures r.uptime == None && r.message.Some? && r.status != Online
    ensures r.status == NoConnection <==>
      f.kind == UnknownHost || f.kind == NoRouteToHost || (f.kind != SocketTimeout && f.kind != ConnectRefused && NoNetworkMessage(f.message))
    ensures f.kind == UnknownHost ==> r == Result(NoConnection, Some("No DNS"), None)
    ensures f.kind == SocketTimeout ==> r == Result(Offline, Some("Timeout"), None)
    ensures f.kind == ConnectRefused ==> r == Result(Offline, Some("Connection refused"), None)
    ensures f.kind == NoRouteToHost ==> r == Result(NoConnection, Some("No route"), None)
    ensures f.kind !in {UnknownHost, SocketTimeout, ConnectRefused, NoRouteToHost} ==>
      r == Result(if NoNetworkMessage(f.message) then NoConnection else Offline,
                  Some(if NoNetworkMessage(f.message) then "No network" else SimpleName(f.kind)), None)
  {
    match f.kind
    case UnknownHost => MakeNoConnection(Some("No DNS"))
    case SocketTimeout => MakeOffline(Some("Timeout"))
    case ConnectRefused => MakeOffline(Some("Connection refused"))
    case NoRouteToHost => MakeNoConnection(Some("No route"))
    case _ =>
      if NoNetworkMessage(f.message) then MakeNoConnection(Some("No network"))
      else MakeOffline(Some(SimpleName(f.kind)))
  }

  /** The exception's message says the network is down or the name cannot be resolved. */
  predicate NoNetworkMessage(message: Option<string>)
  {
    message.Some? && (Contains(message.value, "Network is unreachable") || Contains(message.value, "Unable to resolve"))
  }

  /** The result for a reply, given the body text `readBody` returned. */
  function ReplyResult(code: Int32, body: Option<string>): (r: Result)
    ensures r.status == Online <==> Successful(code)
  {
    if Successful(code) then
      var name := QuotedField(body, "name");
      var uptime := QuotedField(body, "uptime");
      MakeOnlineWithUptime(Some(if name.Some? then name.value else "OK"), uptime)
    else MakeOffline(Some("HTTP " + IntToString(code)))
  }

  /** What `check` returns when the exchange goes as `ex` says. */
  function Outcome(ex: Exchange): (r: Result)
    ensures r.status == Online ==> ex.Answered? && Successful(ex.reply.code)
  {
    match ex
    case Failed(f) => FaultResult(f)
    case Answered(reply) => ReplyResult(reply.code, BodyText(reply.body))
  }

  /** `check(entity)`: asks for the response code, reads the body on a 2xx, and classifies. */
  method Check(p: Probe, ex: Exchange) returns (url: string, r: Result)
    ensures url == Url(p)
    ensures r == Outcome(ex)
  {
    url := "http://" + p.host + ":" + IntToString(p.port) + "/health";
    if ex.Failed? {
      return url, FaultResult(ex.fault);
    }
    var code := ex.reply.code;
    if code >= 200 && code < 300 {
      var body := ReadBody(ex.reply.body);
      var name := QuotedField(body, "name");
      var uptime := QuotedField(body, "uptime");
      var message := if name.Some? then name.value else "OK";
      r := MakeOnlineWithUptime(Some(message), uptime);
    } else {
      r := MakeOffline(Some("HTTP " + IntToString(code)));
    }
  }

  /** Any code outside 2xx reports Offline with "HTTP " and the code, which reads back. */
  lemma ErrorCodeMessage(code: Int32, body: Option<seq<string>>)
    requires !Successful(code)
    ensures var r := Outcome(Answered(Reply(code, body)));
      r.status == Offline && r.uptime == None && |r.message.value| > 5
      && r.message.value[..5] == "HTTP " && ParseInt(r.message.value[5..]) == Some(code as int)
  {
    var m := "HTTP " + IntToString(code);
    assert m[5..] == IntToString(code);
    IntToStringRoundTrip(code);
  }

  /** A 2xx whose body cannot be read still reports Online, with "OK" and no uptime. */
  lemma UnreadableBodyIsOk(code: Int32)
    requires Successful(code)
    ensures Outcome(Answered(Reply(code, None))) == Result(Online, Some("OK"), None)
  {
  }

  /** A 2xx reports the name and the uptime the body holds, "OK" when it names no host. */
  lemma SuccessfulReply(code: Int32, lines: seq<string>)
    requires Successful(code)
    ensures var body := Some(Trim(Concat(lines)));
      var name := QuotedField(body, "name");
      Outcome(Answered(Reply(code, Some(lines))))
      == Result(Online, Some(if name.Some? then name.value else "OK"), QuotedField(body, "uptime"))
  {
  }

  /** The body the health server sends, for a host named pve0 that has been up for 2:15:00. */
  const SampleBody := "{\"status\":\"ok\"," + "\"name\":\"pve0\"," + "\"uptime\":\"2:15:00\"}"

  /** The health server's body yields its name. */
  lemma SampleName()
    ensures QuotedField(Some(SampleBody), "name") == Some("pve0")
  {
    var pre := "{\"status\":\"ok\",";
    var post := ",\"uptime\":\"2:15:00\"}";
    var json := pre + Quoted("name") + [':'] + "" + "\"" + "pve0" + "\"" + post;
    SampleAsName();
    assert 'n' !in pre;
    forall i | 0 <= i < |pre|
      ensures !OccursAt(json, Quoted("name"), i)
    {
      assert json[i + 1] != 'n' by {
        if i + 1 < |pre| {
          assert json[i + 1] == pre[i + 1];
        }
      }
      MismatchAt(json, Quoted("name"), i, 1);
    }
    FieldReadsBack(pre, "name", ':', "", "pve0", post);
  }

  /** The sample body, cut around its "name" field. */
  lemma SampleAsName()
    ensures SampleBody == "{\"status\":\"ok\"," + Quoted("name") + [':'] + "" + "\"" + "pve0" + "\"" + ",\"uptime\":\"2:15:00\"}"
  {
  }

  /** The health server's body yields its uptime. */
  lemma SampleUptime()
    ensures QuotedField(Some(SampleBody), "uptime") == Some("2:15:00")
  {
    var pre := "{\"status\":\"ok\",\"name\":\"pve0\",";
    var json := pre + Quoted("uptime") + [':'] + "" + "\"" + "2:15:00" + "\"" + "}";
    SampleAsUptime();
    assert 'i' !in pre;
    forall i | 0 <= i < |pre|
      ensures !OccursAt(json, Quoted("uptime"), i)
    {
      assert json[i + 4] != 'i' by {
        if i + 4 < |pre| {
          assert json[i + 4] == pre[i + 4];
        } else {
          assert json[i + 4] == Quoted("uptime")[i + 4 - |pre|];
        }
      }
      MismatchAt(json, Quoted("uptime"), i, 4);
    }
    FieldReadsBack(pre, "uptime", ':', "", "2:15:00", "}");
  }

  /** The sample body, cut around its "uptime" field. */
  lemma SampleAsUptime()
    ensures SampleBody == "{\"status\":\"ok\",\"name\":\"pve0\"," + Quoted("uptime") + [':'] + "" + "\"" + "2:15:00" + "\"" + "}"
  {
  }

  /** A 200 with that body reports Online "pve0" with uptime "2:15:00". */
  lemma SampleReply()
    ensures Outcome(Answered(Reply(200, Some([SampleBody])))) == Result(Online, Some("pve0"), Some("2:15:00"))
  {
    var body := SampleBody;
    var lines: seq<string> := [body];
    assert Concat(lines) == body by {
      assert lines[..0] == [];
    }
    assert TrimStart(body) == body by {
      assert !IsTrimmable(body[0]);
    }
    assert TrimEnd(body) == body by {
      assert !IsTrimmable(body[|body| - 1]);
    }
    SampleName();
    SampleUptime();
  }

  /** A 503 reports Offline "HTTP 503". */
  lemma UnavailableReply(body: Option<seq<string>>)
    ensures Outcome(Answered(Reply(503, body))) == Result(Offline, Some("HTTP 503"), None)
  {
    assert Digits(503) == "503";
    assert "HTTP " + IntToString(503) == "HTTP 503";
  }
}
