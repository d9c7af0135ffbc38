/**
 * `WebsiteCheck`: a probe that GETs a page, classifies the response code,
 * looks for an expected text in the page regardless of case, and reports
 * the page's title. A timeout on the first attempt earns one more attempt.
 *
 * Each attempt's HTTP exchange is an oracle: asking for the response code
 * threw, or a code came back together with the body as the reader delivers
 * it (its lines, and whether reading past the last one throws).
 */
module WebsiteCheck {
  import opened Lang
  import opened Strings
  import opened Decimal
  import opened Results
  import opened Http

  /** The number of attempts `check` makes at most. */
  const MaxAttempts := 2

  /** `readBody` stops reading once this many characters have been kept. */
  const BodyCap := 50000

  /** The longest title reported; a longer one is cut to 27 characters and "...". */
  const MaxTitle := 30

  /** `getDescription()` */
  const Description := "HTTPS"

  /** The probe's configuration; `expected` is kept lower-cased. */
  datatype Probe = Probe(url: string, expected: string)

  /** The constructor: the expected text is lowered once, up front. */
  function NewProbe(url: string, expectedContent: string): (p: Probe)
    ensures p.url == url && |p.expected| == |expectedContent|
    ensures ToLower(p.expected) == p.expected
    ensures forall i :: 0 <= i < |p.expected| ==> p.expected[i] == LowerChar(expectedContent[i])
  {
    ToLowerIdempotent(expectedContent);
    Probe(url, ToLower(expectedContent))
  }

  /**
   * `body.toLowerCase().contains(expected)`; as in Java, every text contains
   * the empty text.
   */
  predicate Matches(body: string, expected: string)
  {
    expected == [] || Contains(ToLower(body), expected)
  }

  /** A page that holds the expected text in the very case it was given matches it. */
  lemma LiteralTextMatches(url: string, body: string, content: string)
    requires content != [] && Contains(body, content)
    ensures Matches(body, NewProbe(url, content).expected)
  {
    ContainsIff(body, content);
    var i :| OccursAt(body, content, i);
    LowerOccurs(body, content, i);
    ContainsIff(ToLower(body), ToLower(content));
  }

  /** Giving the expected text in another case changes nothing. */
  lemma ExpectedIgnoresCase(url: string, content: string)
    ensures NewProbe(url, ToLower(content)) == NewProbe(url, content)
  {
    ToLowerIdempotent(content);
  }

  /* ---------------------------------------------------------------------- */
  /* The body                                                               */
  /* ---------------------------------------------------------------------- */

  /**
   * The body as the reader delivers it: `lines` in order, then either the
   * end of the stream or, when `fails` holds, an exception. Opening the
   * stream throwing is `Stream([], true)`.
   */
  datatype Stream = Stream(lines: seq<string>, fails: bool)

  /**
   * How many of `lines` `readBody` keeps, counting on from `n` kept lines:
   * it keeps lines while fewer than `BodyCap` characters are kept, so every
   * kept line began below the cap, and it stops at the end or at the cap.
   */
  function Kept(lines: seq<string>, n: nat): (r: nat)
    requires n <= |lines|
    ensures n <= r <= |lines|
    ensures r == |lines| || TotalLength(lines[..r]) >= BodyCap
    ensures forall j :: n <= j < r ==> TotalLength(lines[..j]) < BodyCap
    decreases |lines| - n
  {
    if n == |lines| || TotalLength(lines[..n]) >= BodyCap then n else Kept(lines, n + 1)
  }

  /**
   * What `readBody` returns: the kept lines joined with no separator, or
   * `null` when the reader throws, which it reaches only by asking for a line
   * after keeping them all.
   */
  function BodyText(s: Stream): (r: Option<string>)
    ensures r.None? <==> s.fails && Kept(s.lines, 0) == |s.lines|
    ensures r.Some? ==> r.value == Concat(s.lines[..Kept(s.lines, 0)])
  {
    var n := Kept(s.lines, 0);
    if n == |s.lines| && s.fails then None else Some(Concat(s.lines[..n]))
  }

  /** The joined length of a prefix is at most that of the whole. */
  lemma {:induction false} TotalLengthPrefix(lines: seq<string>, j: nat)
    requires j <= |lines|
    ensures TotalLength(lines[..j]) <= TotalLength(lines)
    decreases |lines|
  {
    if j < |lines| {
      var init := lines[..|lines| - 1];
      assert lines[..j] == init[..j];
      TotalLengthPrefix(init, j);
      assert TotalLength(lines) == TotalLength(init) + |lines[|lines| - 1]|;
    } else {
      assert lines[..j] == lines;
    }
  }

  /** A body shorter than the cap that ends normally is read whole. */
  lemma ShortBodyReadWhole(lines: seq<string>)
    requires TotalLength(lines) < BodyCap
    ensures BodyText(Stream(lines, false)) == Some(Concat(lines))
  {
    var n := Kept(lines, 0);
    if n < |lines| {
      TotalLengthPrefix(lines, n);
    }
    assert lines[..|lines|] == lines;
  }

  /**
   * `readBody`: asks for a line, stops at the end of the stream or once the
   * kept characters reach the cap, and otherwise appends the line; any
   * exception gives `null`.
   */
  method ReadBody(s: Stream) returns (r: Option<string>)
    ensures r == BodyText(s)
  {
    var sb := "";
    var chars := 0;
    var n := 0;
    while true
      invariant n <= |s.lines|
      invariant sb == Concat(s.lines[..n]) && chars == TotalLength(s.lines[..n])
      invariant Kept(s.lines, n) == Kept(s.lines, 0)
      decreases |s.lines| - n
    {
      if n == |s.lines| {
        if s.fails {
          return None;
        }
        break;
      }
      var line := s.lines[n];
      if chars >= BodyCap {
        break;
      }
      assert s.lines[..n + 1][..n] == s.lines[..n];
      sb := sb + line;
      chars := chars + |line|;
      n := n + 1;
    }
    r := Some(sb);
  }

  /* ---------------------------------------------------------------------- */
  /* The title                                                              */
  /* ---------------------------------------------------------------------- */

  /**
   * A title longer than `MaxTitle` becomes its first 27 characters and
   * "..."; a shorter one stays as it is.
   */
  function Shorten(t: string): (r: string)
    ensures |r| <= MaxTitle
    ensures |t| <= MaxTitle ==> r == t
    ensures |t| > MaxTitle ==> |r| == MaxTitle && r[..27] == t[..27] && r[27..] == "..."
  {
    if |t| > MaxTitle then t[..27] + "..." else t
  }

  /**
   * The title text cleaned up: trimmed, each run of `\s` characters made one
   * ' ', and shortened. A title of nothing but white space becomes "".
   */
  function Tidy(raw: string): (r: string)
    ensures |r| <= MaxTitle
    ensures r == [] <==> Trim(raw) == []
    ensures r != [] ==> !IsRegexSpace(r[0])
    ensures forall i :: 0 <= i < |r| - 1 && r[i] == ' ' ==> r[i + 1] != ' '
  {
    var c := CollapseSpaces(Trim(raw));
    ShortenKeepsSpacing(c);
    Shorten(c)
  }

  /**
   * The tidied title is the trimmed text with its `\s` runs collapsed, as
   * it is when that fits in `MaxTitle`, else cut to 27 characters and "...".
   */
  lemma TidyCollapsesTrim(raw: string)
    ensures var c := CollapseSpaces(Trim(raw)); |c| <= MaxTitle ==> Tidy(raw) == c
    ensures var c := CollapseSpaces(Trim(raw));
      |c| > MaxTitle ==> Tidy(raw) == c[..27] + "..."
  {
    var c := CollapseSpaces(Trim(raw));
    var r := Tidy(raw);
    if |c| > MaxTitle {
      assert r[..27] == c[..27] && r[27..] == "...";
      assert r == r[..27] + r[27..];
    }
  }

  /** Shortening keeps the first character and never puts two spaces side by side. */
  lemma ShortenKeepsSpacing(c: string)
    requires forall i :: 0 <= i < |c| - 1 && c[i] == ' ' ==> c[i + 1] != ' '
    ensures (Shorten(c) == []) == (c == [])
    ensures c != [] ==> Shorten(c)[0] == c[0]
    ensures forall i :: 0 <= i < |Shorten(c)| - 1 && Shorten(c)[i] == ' ' ==> Shorten(c)[i + 1] != ' '
  {
    var r := Shorten(c);
    if |c| > MaxTitle {
      assert forall i :: 0 <= i < 27 ==> r[i] == c[i];
      assert forall i :: 27 <= i < |r| ==> r[i] == '.';
    }
  }

  /**
   * `extractTitle(html)`: the first "<title>" and the first "</title>" after
   * it, both found without regard to case, and the tidied original-case text
   * between them; `null` when either is missing or nothing lies between.
   */
  function ExtractTitle(html: string): (r: Option<string>)
    ensures r.Some? ==> |r.value| <= MaxTitle
    ensures r.Some? ==> Contains(ToLower(html), "<title>") && Contains(ToLower(html), "</title>")
  {
    var lower := ToLower(html);
    var start := IndexOf(lower, "<title>", 0);
    if start < 0 then None
    else
      var from := start + 7;
      var end := IndexOf(lower, "</title>", from);
      if end < 0 || end <= from then None
      else
        ContainsIff(lower, "</title>");
        Some(Tidy(html[from..end]))
  }

  /**
   * Where the lowered page first holds "<title>" at `at` and then first holds
   * "</title>" at `end`, with text between, the title is that text tidied.
   */
  lemma TitleReadsBack(html: string, at: nat, end: nat)
    requires FirstAt(ToLower(html), "<title>", at)
    requires at + 7 < end && OccursAt(ToLower(html), "</title>", end)
    requires forall i :: at + 7 <= i < end ==> !OccursAt(ToLower(html), "</title>", i)
    ensures ExtractTitle(html) == Some(Tidy(html[at + 7..end]))
  {
    var lower := ToLower(html);
    IndexOfFinds(lower, "<title>", 0, at);
    IndexOfFinds(lower, "</title>", at + 7, end);
  }

  /** A page whose lowered text holds no "<title>" has no title. */
  lemma NoTitleTag(html: string)
    requires forall i :: !OccursAt(ToLower(html), "<title>", i)
    ensures ExtractTitle(html) == None
  {
  }

  /** Nothing between the first "<title>" and a "</title>" right after it: no title. */
  lemma EmptyTitle(html: string, at: nat)
    requires FirstAt(ToLower(html), "<title>", at)
    requires OccursAt(ToLower(html), "</title>", at + 7)
    ensures ExtractTitle(html) == None
  {
    var lower := ToLower(html);
    IndexOfFinds(lower, "<title>", 0, at);
    IndexOfFinds(lower, "</title>", at + 7, at + 7);
  }

  /** No "</title>" after the first "<title>", even when one comes before it: no title. */
  lemma NoClosingTagAfter(html: string, at: nat)
    requires FirstAt(ToLower(html), "<title>", at)
    requires forall i :: at + 7 <= i ==> !OccursAt(ToLower(html), "</title>", i)
    ensures ExtractTitle(html) == None
  {
    IndexOfFinds(ToLower(html), "<title>", 0, at);
  }

  /**
   * A page that opens with a title tag in any case, then text without '<',
   * then the closing tag in any case, has that text tidied as its title,
   * whatever follows.
   */
  lemma TitleBetween(open: string, t: string, close: string, post: string)
    requires ToLower(open) == "<title>" && ToLower(close) == "</title>"
    requires t != [] && '<' !in t
    ensures ExtractTitle(open + t + close + post) == Some(Tidy(t))
  {
    var html := open + t + close + post;
    LowerKeepsNoTag(t);
    TagsFound(ToLower(t), ToLower(post));
    LowerPage(open, t, close, post);
    MiddleOfPage(open, t, close, post);
    TitleFrom(html, t);
  }

  /** Tags found around `t` in the lowered page: the title is `t`, tidied. */
  lemma TitleFrom(html: string, t: string)
    requires 7 + |t| <= |html| && html[7..7 + |t|] == t
    requires FirstAt(ToLower(html), "<title>", 0) && OccursAt(ToLower(html), "</title>", 7 + |t|)
    requires forall i :: 7 <= i < 7 + |t| ==> !OccursAt(ToLower(html), "</title>", i)
    requires t != []
    ensures ExtractTitle(html) == Some(Tidy(t))
  {
    var end := 7 + |t|;
    assert html[0 + 7..end] == t;
    TitleReadsBack(html, 0, end);
  }

  /** A word without white space or control characters that fits is its own tidied title. */
  lemma TidyWord(word: string)
    requires word != [] && |word| <= MaxTitle
    requires forall k :: 0 <= k < |word| ==> !IsTrimmable(word[k])
    ensures Tidy(word) == word
  {
    TrimWord(word);
    CollapseNothing(word);
    TidyCollapsesTrim(word);
  }

  lemma TrimWord(word: string)
    requires word != [] && forall k :: 0 <= k < |word| ==> !IsTrimmable(word[k])
    ensures Trim(word) == word
  {
    assert [] + word + [] == word;
    TrimPadded([], word, []);
  }

  lemma CollapseNothing(word: string)
    requires forall k :: 0 <= k < |word| ==> !IsTrimmable(word[k])
    ensures CollapseSpaces(word) == word
  {
    CollapseWord(word);
  }

  /**
   * Two such words with a run of `\s` characters between them and white
   * space around them tidy to the two words with one ' ' between.
   */
  lemma TidyTwoWords(pre: string, w1: string, sp: string, w2: string, post: string)
    requires forall k :: 0 <= k < |pre| ==> IsTrimmable(pre[k])
    requires forall k :: 0 <= k < |post| ==> IsTrimmable(post[k])
    requires sp != [] && forall k :: 0 <= k < |sp| ==> IsRegexSpace(sp[k])
    requires w1 != [] && forall k :: 0 <= k < |w1| ==> !IsTrimmable(w1[k])
    requires w2 != [] && forall k :: 0 <= k < |w2| ==> !IsTrimmable(w2[k])
    requires |w1| + 1 + |w2| <= MaxTitle
    ensures Tidy(pre + w1 + sp + w2 + post) == w1 + " " + w2
  {
    TrimTwoWords(pre, w1, sp, w2, post);
    CollapseTwoWords(w1, sp, w2);
    TidyCollapsesTrim(pre + w1 + sp + w2 + post);
  }

  lemma TrimTwoWords(pre: string, w1: string, sp: string, w2: string, post: string)
    requires forall k :: 0 <= k < |pre| ==> IsTrimmable(pre[k])
    requires forall k :: 0 <= k < |post| ==> IsTrimmable(post[k])
    requires w1 != [] && !IsTrimmable(w1[0])
    requires w2 != [] && !IsTrimmable(w2[|w2| - 1])
    ensures Trim(pre + w1 + sp + w2 + post) == w1 + sp + w2
  {
    var m := w1 + sp + w2;
    assert pre + w1 + sp + w2 + post == pre + m + post;
    assert m[0] == w1[0] && m[|m| - 1] == w2[|w2| - 1];
    TrimPadded(pre, m, post);
  }

  lemma CollapseTwoWords(w1: string, sp: string, w2: string)
    requires sp != [] && forall k :: 0 <= k < |sp| ==> IsRegexSpace(sp[k])
    requires w1 != [] && forall k :: 0 <= k < |w1| ==> !IsTrimmable(w1[k])
    requires w2 != [] && forall k :: 0 <= k < |w2| ==> !IsTrimmable(w2[k])
    ensures CollapseSpaces(w1 + sp + w2) == w1 + " " + w2
  {
    CollapseJoin(w1, sp, w2);
    CollapseNothing(w1);
    CollapseNothing(w2);
  }

  lemma LowerPage(open: string, t: string, close: string, post: string)
    requires ToLower(open) == "<title>" && ToLower(close) == "</title>"
    ensures ToLower(open + t + close + post) == "<title>" + ToLower(t) + "</title>" + ToLower(post)
  {
    ToLowerAppend(open + t + close, post);
    ToLowerAppend(open + t, close);
    ToLowerAppend(open, t);
  }

  lemma MiddleOfPage(open: string, t: string, close: string, post: string)
    ensures (open + t + close + post)[|open|..|open| + |t|] == t
  {
    assert open + t + close + post == open + (t + (close + post));
  }

  lemma LowerKeepsNoTag(t: string)
    requires '<' !in t
    ensures '<' !in ToLower(t)
  {
    var lt := ToLower(t);
    assert forall k :: 0 <= k < |lt| ==> lt[k] == LowerChar(t[k]) && t[k] != '<';
  }

  /**
   * In "<title>", then text without '<', then "</title>", the first tag
   * stands at 0 and the closing tag first follows the text.
   */
  lemma TagsFound(t: string, post: string)
    requires t != [] && '<' !in t
    ensures var s := "<title>" + t + "</title>" + post;
      FirstAt(s, "<title>", 0) && OccursAt(s, "</title>", 7 + |t|)
      && forall i :: 7 <= i < 7 + |t| ==> !OccursAt(s, "</title>", i)
  {
    var s := "<title>" + t + "</title>" + post;
    assert s[..7] == "<title>";
    assert s[7 + |t|..7 + |t| + 8] == "</title>";
    forall i | 7 <= i < 7 + |t|
      ensures !OccursAt(s, "</title>", i)
    {
      assert s[i] == t[i - 7];
      MismatchAt(s, "</title>", i, 0);
    }
  }

  /** The title tags lowered, in either case. */
  lemma TagsLower()
    ensures ToLower("<title>") == "<title>" && ToLower("</title>") == "</title>"
    ensures ToLower("<TITLE>") == "<title>" && ToLower("</TITLE>") == "</title>"
  {
    LowersTo("<title>", "<title>");
    LowersTo("</title>", "</title>");
    LowersTo("<TITLE>", "<title>");
    LowersTo("</TITLE>", "</title>");
  }

  /** A page that is one fitting word between lower-case title tags has that word as its title. */
  lemma TitleOfWord(word: string)
    requires word != [] && |word| <= MaxTitle && '<' !in word
    requires forall k :: 0 <= k < |word| ==> !IsTrimmable(word[k])
    ensures ExtractTitle("<title>" + word + "</title>") == Some(word)
  {
    TidyWord(word);
    TagsLower();
    TitleBetween("<title>", word, "</title>", "");
    assert "<title>" + word + "</title>" + "" == "<title>" + word + "</title>";
  }

  /**
   * Two words with white space around and between them, inside upper-case
   * title tags: the tags are found and the title is the two words with one
   * ' ' between.
   */
  lemma TitleOfTwoWords(w1: string, w2: string)
    requires w1 != [] && '<' !in w1 && forall k :: 0 <= k < |w1| ==> !IsTrimmable(w1[k])
    requires w2 != [] && '<' !in w2 && forall k :: 0 <= k < |w2| ==> !IsTrimmable(w2[k])
    requires |w1| + 1 + |w2| <= MaxTitle
    ensures ExtractTitle("<TITLE>" + (" " + w1 + " \n " + w2 + " ") + "</TITLE>") == Some(w1 + " " + w2)
  {
    var t := " " + w1 + " \n " + w2 + " ";
    assert '<' !in t by {
      assert '<' !in " " && '<' !in " \n ";
    }
    TidyTwoWords(" ", w1, " \n ", w2, " ");
    TagsLower();
    TitleBetween("<TITLE>", t, "</TITLE>", "");
    assert "<TITLE>" + t + "</TITLE>" + "" == "<TITLE>" + t + "</TITLE>";
  }

  /** "<title>Example</title>" has the title "Example". */
  lemma ExampleTitle()
    ensures ExtractTitle("<title>Example</title>") == Some("Example")
  {
    assert "<title>" + "Example" + "</title>" == "<title>Example</title>";
    TitleOfWord("Example");
  }

  /** "<TITLE> a \n b </TITLE>" has the title "a b". */
  lemma SpacedTitle()
    ensures ExtractTitle("<TITLE> a \n b </TITLE>") == Some("a b")
  {
    assert "<TITLE>" + (" " + "a" + " \n " + "b" + " ") + "</TITLE>" == "<TITLE> a \n b </TITLE>";
    assert "a" + " " + "b" == "a b";
    TitleOfTwoWords("a", "b");
  }

  /* ---------------------------------------------------------------------- */
  /* The probe                                                              */
  /* ---------------------------------------------------------------------- */

  /** What the server answered: the response code and the body's reader. */
  datatype Reply = Reply(code: Int32, body: Stream)

  /** One attempt's exchange: it threw, or a reply came. */
  datatype Exchange = Failed(fault: Fault) | Answered(reply: Reply)

  /** The result for a reply, given the body text `readBody` returned. */
  function ReplyResult(expected: string, code: Int32, body: Option<string>): (r: Result)
    ensures r.status == Online <==> Successful(code) && body.Some? && Matches(body.value, expected)
    ensures r.status == Online ==> r.message.Some? && |r.message.value| <= MaxTitle
    ensures r.uptime == None && r.message.Some?
    ensures r.status == Online ==>
      r.message == Some(if ExtractTitle(body.value).Some? then ExtractTitle(body.value).value else "OK")
    ensures Successful(code) && r.status != Online ==> r == Result(Offline, Some("Content not found"), None)
    ensures Redirection(code) ==> r == Result(Offline, Some("Redirect " + IntToString(code)), None)
    ensures !Successful(code) && !Redirection(code) ==> r == Result(Offline, Some("HTTP " + IntToString(code)), None)
  {
    if Successful(code) then
      if body.Some? && Matches(body.value, expected) then
        var title := ExtractTitle(body.value);
        MakeOnline(Some(if title.Some? then title.value else "OK"))
      else MakeOffline(Some("Content not found"))
    else if Redirection(code) then MakeOffline(Some("Redirect " + IntToString(code)))
    else MakeOffline(Some("HTTP " + IntToString(code)))
  }

  /**
   * The catch clauses of `check`, in their order, on attempt `attempt`:
   * `None` when the attempt timed out and another one follows.
   */
  function FaultResult(f: Fault, attempt: nat): (r: Option<Result>)
    ensures r.None? <==> f.kind == SocketTimeout && attempt != 1
    ensures r.Some? ==> r.value.uptime == None && r.value.message.Some? && r.value.status != Online
    ensures r.Some? ==> (r.value.status == NoConnection <==> f.kind == UnknownHost || f.kind == NoRouteToHost)
    ensures f.kind == UnknownHost ==> r == Some(Result(NoConnection, Some("No DNS"), None))
    ensures f.kind == SocketTimeout && attempt == 1 ==> r == Some(Result(Offline, Some("Timeout"), None))
    ensures f.kind == NoRouteToHost ==> r == Some(Result(NoConnection, Some("No route"), None))
    ensures f.kind == ConnectRefused ==> r == Some(Result(Offline, Some("Connection refused"), None))
    ensures f.kind == Ssl ==> r == Some(Result(Offline, Some("SSL error"), None))
    ensures f.kind !in {UnknownHost, SocketTimeout, NoRouteToHost, ConnectRefused, Ssl} ==>
      r == Some(Result(Offline, Some(SimpleName(f.kind)), None))
  {
    match f.kind
    case UnknownHost => Some(MakeNoConnection(Some("No DNS")))
    case SocketTimeout => if attempt == 1 then Some(MakeOffline(Some("Timeout"))) else None
    case NoRouteToHost => Some(MakeNoConnection(Some("No route")))
    case ConnectRefused => Some(MakeOffline(Some("Connection refused")))
    case Ssl => Some(MakeOffline(Some("SSL error")))
    case _ => Some(MakeOffline(Some(SimpleName(f.kind))))
  }

  /** One attempt: its result, or `None` when it asks for another. */
  function AttemptResult(p: Probe, ex: Exchange, attempt: nat): (r: Option<Result>)
    ensures r.None? <==> ex.Failed? && ex.fault.kind == SocketTimeout && attempt != 1
  {
    match ex
    case Failed(f) => FaultResult(f, attempt)
    case Answered(reply) => Some(ReplyResult(p.expected, reply.code, BodyText(reply.body)))
  }

  /** An attempt that timed out. */
  predicate TimedOut(ex: Exchange)
  {
    ex.Failed? && ex.fault.kind == SocketTimeout
  }

  /** The attempts from `attempt` on: the first that ends the loop decides; "Timeout" if none does. */
  function Run(p: Probe, attempts: seq<Exchange>, attempt: nat): (r: Result)
    requires |attempts| == MaxAttempts && attempt <= MaxAttempts
    decreases MaxAttempts - attempt
  {
    if attempt == MaxAttempts then MakeOffline(Some("Timeout"))
    else
      match AttemptResult(p, attempts[attempt], attempt)
      case Some(r) => r
      case None => Run(p, attempts, attempt + 1)
  }

  /** What `check` returns when its attempts go as `attempts` say. */
  function Outcome(p: Probe, attempts: seq<Exchange>): (r: Result)
    requires |attempts| == MaxAttempts
    ensures r.uptime == None && r.message.Some?
  {
    Run(p, attempts, 0)
  }

  /**
   * `check(entity)`: up to two attempts; every outcome but a first timeout
   * returns at once. `tries` counts the attempts made: two exactly when the
   * first one timed out.
   */
  method Check(p: Probe, attempts: seq<Exchange>) returns (tries: nat, r: Result)
    requires |attempts| == MaxAttempts
    ensures tries == if TimedOut(attempts[0]) then 2 else 1
    ensures r == Outcome(p, attempts)
  {
    tries := 0;
    for attempt := 0 to MaxAttempts
      invariant tries == attempt
      invariant attempt >= 1 ==> TimedOut(attempts[0])
      invariant Run(p, attempts, attempt) == Outcome(p, attempts)
    {
      tries := tries + 1;
      var ex := attempts[attempt];
      if ex.Failed? {
        var f := ex.fault;
        if f.kind == SocketTimeout {
          if attempt == 1 {
            return tries, MakeOffline(Some("Timeout"));
          }
        } else {
          var res := FaultResult(f, attempt);
          return tries, res.value;
        }
      } else {
        var code := ex.reply.code;
        if code >= 200 && code < 300 {
          var body := ReadBody(ex.reply.body);
          if body.Some? && Matches(body.value, p.expected) {
            var title := ExtractTitle(body.value);
            return tries, MakeOnline(Some(if title.Some? then title.value else "OK"));
          } else {
            return tries, MakeOffline(Some("Content not found"));
          }
        } else if code >= 300 && code < 400 {
          return tries, MakeOffline(Some("Redirect " + IntToString(code)));
        } else {
          return tries, MakeOffline(Some("HTTP " + IntToString(code)));
        }
      }
    }
    r := MakeOffline(Some("Timeout"));
  }

  /** Only a timeout on the first attempt lets the second attempt matter. */
  lemma SecondAttemptOnlyAfterTimeout(p: Probe, first: Exchange, second: Exchange, other: Exchange)
    requires !TimedOut(first)
    ensures Outcome(p, [first, second]) == Outcome(p, [first, other])
  {
  }

  /** Two timeouts in a row report Offline "Timeout". */
  lemma TimeoutTwice(p: Probe, first: Exchange, second: Exchange)
    requires TimedOut(first) && TimedOut(second)
    ensures Outcome(p, [first, second]) == Result(Offline, Some("Timeout"), None)
  {
  }

  /**
   * The site is reported Online exactly when the attempt that decides
   * answered 2xx with a readable page holding the expected text.
   */
  lemma OnlineIff(p: Probe, attempts: seq<Exchange>)
    requires |attempts| == MaxAttempts
    ensures var decides := if TimedOut(attempts[0]) then attempts[1] else attempts[0];
      Outcome(p, attempts).status == Online <==>
        decides.Answered? && Successful(decides.reply.code)
        && var body := BodyText(decides.reply.body); body.Some? && Matches(body.value, p.expected)
  {
  }

  /** A 3xx reports Offline with "Redirect " and the code, which reads back. */
  lemma RedirectMessage(p: Probe, code: Int32, body: Stream, second: Exchange)
    requires Redirection(code)
    ensures var r := Outcome(p, [Answered(Reply(code, body)), second]);
      r.status == Offline && |r.message.value| > 9
      && r.message.value[..9] == "Redirect " && ParseInt(r.message.value[9..]) == Some(code as int)
  {
    var m := "Redirect " + IntToString(code);
    assert m[9..] == IntToString(code);
    IntToStringRoundTrip(code);
  }

  /** A 2xx page holding the expected text reports Online with its title. */
  lemma ExamplePage()
    ensures ReplyResult("example", 200, Some("<title>Example</title>"))
      == Result(Online, Some("Example"), None)
  {
    ExampleTitle();
    ExampleMatches();
  }

  lemma ExampleMatches()
    ensures Matches("<title>Example</title>", "example")
  {
    assert "<title>Example</title>" == "<title>" + "Example" + "</title>";
    LowersTo("Example", "example");
    WordMatches("<title>", "Example", "</title>", "example");
  }

  /** A page whose middle piece lowers to `lw` matches `lw`. */
  lemma WordMatches(open: string, w: string, close: string, lw: string)
    requires ToLower(w) == lw && lw != []
    ensures Matches(open + w + close, lw)
  {
    ToLowerAppend(open + w, close);
    ToLowerAppend(open, w);
    var lower := ToLower(open) + lw + ToLower(close);
    assert lower[|open|..|open| + |lw|] == lw;
    assert OccursAt(lower, lw, |open|);
    ContainsIff(lower, lw);
  }

  /** A 2xx page without the expected text reports Offline "Content not found". */
  lemma PageWithoutContent()
    ensures ReplyResult("welcome", 200, Some("<title>Example</title>"))
      == Result(Offline, Some("Content not found"), None)
  {
    var lower := ToLower("<title>Example</title>");
    forall i | 0 <= i < |lower|
      ensures !OccursAt(lower, "welcome", i)
    {
      if i + 7 <= |lower| {
        MismatchAt(lower, "welcome", i, 0);
      }
    }
    ContainsIff(lower, "welcome");
  }

  /** A 404 reports Offline "HTTP 404". */
  lemma NotFoundPage()
    ensures ReplyResult("", 404, None) == Result(Offline, Some("HTTP 404"), None)
  {
    assert Digits(404) == "404";
    assert "HTTP " + IntToString(404) == "HTTP 404";
  }
}
