/** The browser-side routing of StreamElementsCefClient: the client id counter,
    the URL sanitiser used in log lines, the reply table for process messages
    sent by the renderer, the process-wide list of live browsers and the JS
    event broadcast over it, and the decisions taken when a frame finishes or
    fails loading.

    CEF objects are reduced to what these decisions read: a browser is an
    identifier, a frame is whether it is the main frame plus its URL, and a
    message sent to a renderer is recorded as a value instead of being posted. */
module CefClient {
  import opened Common

  // ---------------------------------------------------------------------------
  // Client ids

  /** os_atomic_inc_long on the process-wide counter: the counter grows by one
      and the new value is the id handed out. */
  function AtomicIncrement(counter: int): (r: (int, int))
    ensures r.0 > counter && r.1 == r.0
    ensures r.1 - counter == 1
  {
    (counter + 1, counter + 1)
  }

  /** The ids `n` clients constructed one after another receive, starting from
      counter value `counter`, and the counter value afterwards. */
  function ConstructClients(counter: int, n: nat): (r: (seq<int>, int))
    ensures |r.0| == n
    ensures r.1 == counter + n
    ensures forall i :: 0 <= i < n ==> counter < r.0[i] <= r.1
    ensures forall i, j :: 0 <= i < j < n ==> r.0[i] < r.0[j]
    decreases n
  {
    if n == 0 then ([], counter)
    else
      var (id, counter') := AtomicIncrement(counter);
      var (rest, last) := ConstructClients(counter', n - 1);
      ([id] + rest, last)
  }

  // ---------------------------------------------------------------------------
  // sanitize_url

  predicate IsDataUrl(input: string)
  {
    |input| > 5 && input[..5] == "data:"
  }

  /** sanitize_url: a data: URL longer than its scheme is hidden; any other URL
      loses everything from its first '#'. The source's `pos >= 0` test on an
      unsigned position always holds, and cutting at npos keeps the whole string,
      so a URL without '#' comes back unchanged. */
  function SanitizeUrl(input: string): (r: string)
    ensures IsDataUrl(input) ==> r == "data:HIDDEN"
    ensures !IsDataUrl(input) ==> r <= input && '#' !in r
    ensures !IsDataUrl(input) && |r| < |input| ==> input[|r|] == '#'
    ensures !IsDataUrl(input) && '#' !in input ==> r == input
  {
    if IsDataUrl(input) then "data:HIDDEN"
    else
      match IndexOf(input, '#')
      case None => input
      case Some(pos) => input[..pos]
  }

  /** Sanitising twice gives what sanitising once gives. */
  lemma SanitizeUrlIdempotent(input: string)
    ensures SanitizeUrl(SanitizeUrl(input)) == SanitizeUrl(input)
  {
    var r := SanitizeUrl(input);
    if !IsDataUrl(input) {
      assert !IsDataUrl(r);
    }
  }

  // ---------------------------------------------------------------------------
  // Process messages

  /** An entry of a CefListValue: an int, a string, or anything else. */
  datatype Arg = IntArg(i: int) | StrArg(s: string) | OtherArg

  datatype ProcessMessage = ProcessMessage(name: string, args: seq<Arg>)

  /** CefListValue::GetInt: the int at `index`, or 0 when there is none. */
  function GetInt(args: seq<Arg>, index: nat): (r: int)
    ensures index < |args| && args[index].IntArg? ==> r == args[index].i
    ensures !(index < |args| && args[index].IntArg?) ==> r == 0
  {
    if index < |args| && args[index].IntArg? then args[index].i else 0
  }

  /** What the OBS front-end reports when asked for its status. */
  datatype Status = Status(recording: bool, streaming: bool, replayBuffer: bool)

  /** The object getStatus answers with. */
  function StatusJson(status: Status): (j: Json)
    ensures j.JObject? && j.fields.Keys == {"recording", "streaming", "replaybuffer"}
    ensures j.fields["recording"] == JBool(status.recording)
    ensures j.fields["streaming"] == JBool(status.streaming)
    ensures j.fields["replaybuffer"] == JBool(status.replayBuffer)
  {
    JObject(map["recording" := JBool(status.recording), "streaming" := JBool(status.streaming),
                "replaybuffer" := JBool(status.replayBuffer)])
  }

  /** The names the client answers itself. */
  predicate AnsweredLocally(name: string)
  {
    name == "getCurrentScene" || name == "getStatus"
  }

  /** The outcome of OnProcessMessageReceived: whether it reports the message
      handled, and the messages it sent back to the renderer. */
  datatype Routing = Routing(handled: bool, replies: seq<ProcessMessage>)

  /** OnProcessMessageReceived. `delegate` is the registered message handler's
      answer (None when no handler is registered); it is consulted only for
      names the client does not answer itself. `dump` is json11's serialiser. */
  function OnProcessMessageReceived(request: ProcessMessage, status: Status, delegate: Option<bool>,
                                    dump: Json -> string): (r: Routing)
    ensures r.handled <==> AnsweredLocally(request.name) || delegate == Some(true)
    ensures |r.replies| == (if AnsweredLocally(request.name) then 1 else 0)
    ensures AnsweredLocally(request.name) ==>
              r.replies[0].name == "executeCallback" && |r.replies[0].args| == 2
              && r.replies[0].args[0] == IntArg(GetInt(request.args, 0))
    ensures request.name == "getCurrentScene" ==> r.replies[0].args[1] == StrArg(dump(JObject(map[])))
    ensures request.name == "getStatus" ==> r.replies[0].args[1] == StrArg(dump(StatusJson(status)))
  {
    var json :=
      if request.name == "getCurrentScene" then JObject(map[])
      else StatusJson(status);
    if AnsweredLocally(request.name) then
      Routing(true, [ProcessMessage("executeCallback",
                                    [IntArg(GetInt(request.args, 0)), StrArg(dump(json))])])
    else
      Routing(delegate == Some(true), [])
  }

  /** The reply carries the request's correlation number back unchanged. */
  lemma ReplyEchoesCorrelation(request: ProcessMessage, status: Status, delegate: Option<bool>,
                               dump: Json -> string, callbackId: int)
    requires AnsweredLocally(request.name)
    requires |request.args| > 0 && request.args[0] == IntArg(callbackId)
    ensures OnProcessMessageReceived(request, status, delegate, dump).replies
            == [ProcessMessage("executeCallback",
                               [IntArg(callbackId),
                                OnProcessMessageReceived(request, status, delegate, dump).replies[0].args[1]])]
  {
  }

  /** A message the client does not answer itself is never answered with a
      reply, and the delegate's answer alone decides whether it counts as handled. */
  lemma DelegatedMessagesGetNoReply(request: ProcessMessage, status: Status, delegate: Option<bool>,
                                    dump: Json -> string)
    requires !AnsweredLocally(request.name)
    ensures OnProcessMessageReceived(request, status, delegate, dump) == Routing(delegate == Some(true), [])
  {
  }

  // ---------------------------------------------------------------------------
  // The list of live browsers

  /** A CefBrowser, compared by identity as the source compares raw pointers. */
  type BrowserId = nat

  /** OnAfterCreated: the new browser goes at the end of the list, even when it is already there. */
  function OnAfterCreated(browsers: seq<BrowserId>, browser: BrowserId): (r: seq<BrowserId>)
    ensures |r| == |browsers| + 1 && r[..|browsers|] == browsers && r[|browsers|] == browser
    ensures multiset(r) == multiset(browsers) + multiset{browser}
  {
    browsers + [browser]
  }

  /** OnBeforeClose: the first entry for the browser is erased; nothing changes when there is none. */
  function OnBeforeClose(browsers: seq<BrowserId>, browser: BrowserId): (r: seq<BrowserId>)
    ensures browser !in browsers ==> r == browsers
    ensures browser in browsers ==> |r| == |browsers| - 1
    ensures browser in browsers ==>
              var i := IndexOf(browsers, browser).value;
              r == browsers[..i] + browsers[i + 1..] && browser !in browsers[..i]
    ensures multiset(r) == multiset(browsers) - multiset{browser}
  {
    RemoveFirst(browsers, browser)
  }

  /** Closing a browser undoes its creation: each browser is listed as often as before. */
  lemma CloseUndoesCreate(browsers: seq<BrowserId>, browser: BrowserId)
    ensures multiset(OnBeforeClose(OnAfterCreated(browsers, browser), browser)) == multiset(browsers)
    ensures browser !in browsers ==> OnBeforeClose(OnAfterCreated(browsers, browser), browser) == browsers
  {
    var created := OnAfterCreated(browsers, browser);
    if browser !in browsers {
      assert IndexOf(created, browser) == Some(|browsers|) by {
        assert created[..|browsers|] == browsers;
      }
      assert created[..|browsers|] + created[|browsers| + 1..] == browsers;
    }
  }

  /** A browser created twice is listed twice: the list keeps no set semantics. */
  lemma CreateTwiceListsTwice(browsers: seq<BrowserId>, browser: BrowserId)
    ensures Count(OnAfterCreated(OnAfterCreated(browsers, browser), browser), browser)
            == Count(browsers, browser) + 2
  {
  }

  // ---------------------------------------------------------------------------
  // DispatchJSEvent

  /** A message posted to one browser's renderer process. */
  datatype Sent = Sent(to: BrowserId, msg: ProcessMessage)

  /** The message that asks a renderer to raise a JS event. */
  function JsEventMessage(event: string, eventArgsJson: string): ProcessMessage
  {
    ProcessMessage("DispatchJSEvent", [StrArg(event), StrArg(eventArgsJson)])
  }

  /** DispatchJSEvent (broadcast): one message per entry of the browser list, in list order. */
  method DispatchJSEvent(browsers: seq<BrowserId>, event: string, eventArgsJson: string)
    returns (sent: seq<Sent>)
    ensures |sent| == |browsers|
    ensures forall i :: 0 <= i < |browsers| ==> sent[i] == Sent(browsers[i], JsEventMessage(event, eventArgsJson))
  {
    sent := [];
    var i := 0;
    while i < |browsers|
      invariant 0 <= i <= |browsers|
      invariant |sent| == i
      invariant forall k :: 0 <= k < i ==> sent[k] == Sent(browsers[k], JsEventMessage(event, eventArgsJson))
    {
      sent := sent + [Sent(browsers[i], JsEventMessage(event, eventArgsJson))];
      i := i + 1;
    }
  }

  /** How many of the sent messages went to `browser`. */
  function SentTo(sent: seq<Sent>, browser: BrowserId): nat
  {
    if |sent| == 0 then 0
    else (if sent[0].to == browser then 1 else 0) + SentTo(sent[1..], browser)
  }

  /** A broadcast reaches every browser exactly as many times as it is listed. */
  lemma {:induction false} BroadcastReachesEachBrowser(browsers: seq<BrowserId>, sent: seq<Sent>,
                                                      event: string, eventArgsJson: string, browser: BrowserId)
    requires |sent| == |browsers|
    requires forall i :: 0 <= i < |browsers| ==> sent[i] == Sent(browsers[i], JsEventMessage(event, eventArgsJson))
    ensures SentTo(sent, browser) == Count(browsers, browser)
    decreases |browsers|
  {
    if |browsers| > 0 {
      BroadcastReachesEachBrowser(browsers[1..], sent[1..], event, eventArgsJson, browser);
    }
  }

  /** DispatchJSEvent (targeted): one message to the given browser, none for a null browser. */
  function DispatchJSEventTo(browser: Option<BrowserId>, event: string, eventArgsJson: string): (sent: seq<Sent>)
    ensures browser.None? <==> sent == []
    ensures browser.Some? ==> SentTo(sent, browser.value) == 1 && |sent| == 1
    ensures forall i :: 0 <= i < |sent| ==> sent[i].msg == JsEventMessage(event, eventArgsJson)
  {
    match browser
    case None => []
    case Some(b) => [Sent(b, JsEventMessage(event, eventArgsJson))]
  }

  // ---------------------------------------------------------------------------
  // Loading

  /** What a load callback needs of a CefFrame. */
  datatype Frame = Frame(isMain: bool, url: string)

  /** CefFrame::ExecuteJavaScript(code, script URL, start line). */
  datatype ScriptRun = ScriptRun(code: string, scriptUrl: string, startLine: int)

  /** OnLoadEnd: the client's on-load script runs in the main frame, attributed
      to the frame's URL from line 0, unless the script is empty. */
  function OnLoadEnd(onLoadScript: string, frame: Frame): (r: Option<ScriptRun>)
    ensures r.Some? <==> onLoadScript != "" && frame.isMain
    ensures r.Some? ==> r.value.code == onLoadScript && r.value.scriptUrl == frame.url
                        && r.value.startLine == 0
  {
    if onLoadScript == "" || !frame.isMain then None
    else Some(ScriptRun(onLoadScript, frame.url, 0))
  }

  /** Sub-frames never run the on-load script, and two main frames that finish
      loading the same URL run the very same script. */
  lemma OnLoadEndOnlyMainFrame(onLoadScript: string, frame: Frame, other: Frame)
    ensures !frame.isMain ==> OnLoadEnd(onLoadScript, frame) == None
    ensures frame.isMain && other.isMain && frame.url == other.url ==>
              OnLoadEnd(onLoadScript, frame) == OnLoadEnd(onLoadScript, other)
  {
  }

  /** CEF's code for a load that was aborted (a download, or a page left while loading). */
  const ErrAborted: int := -3

  /** One element of a regular expression made only of literal characters and '.'. */
  datatype PatChar = Lit(c: char) | AnyChar

  /** ECMAScript's '.' matches any character except a line terminator. */
  predicate CharMatches(p: PatChar, c: char)
  {
    match p
    case Lit(x) => c == x
    case AnyChar => c != '\n' && c != '\r' && c != '\U{2028}' && c != '\U{2029}'
  }

  /** `pat` matches `s` at position `i`. */
  predicate MatchesAt(s: string, i: nat, pat: seq<PatChar>)
  {
    i + |pat| <= |s| && forall j :: 0 <= j < |pat| ==> CharMatches(pat[j], s[i + j])
  }

  /** The pattern each of OnLoadError's three regular expressions denotes: the
      escaped "${" and "}" are literal, the '.' between "error" and the field is not. */
  function Placeholder(field: string): (p: seq<PatChar>)
    ensures |p| == |field| + 9 && p[0] == Lit('$')
  {
    var prefix := [Lit('$'), Lit('{'), Lit('e'), Lit('r'), Lit('r'), Lit('o'), Lit('r'), AnyChar];
    var name := seq(|field|, i requires 0 <= i < |field| => Lit(field[i]));
    assert |name| == |field|;
    var p := prefix + name + [Lit('}')];
    assert p[0] == prefix[0];
    p
  }

  /** std::regex_replace with a pattern of fixed length: every leftmost,
      non-overlapping match is replaced by `rep`, read literally. */
  function ReplaceAll(s: string, pat: seq<PatChar>, rep: string): (r: string)
    requires |pat| > 0
    decreases |s|
  {
    if |s| == 0 then ""
    else if MatchesAt(s, 0, pat) then rep + ReplaceAll(s[|pat|..], pat, rep)
    else [s[0]] + ReplaceAll(s[1..], pat, rep)
  }

  /** A string in which the pattern matches nowhere comes back unchanged. */
  lemma {:induction false} ReplaceWithoutMatchIsIdentity(s: string, pat: seq<PatChar>, rep: string)
    requires |pat| > 0
    requires forall i :: 0 <= i < |s| ==> !MatchesAt(s, i, pat)
    ensures ReplaceAll(s, pat, rep) == s
    decreases |s|
  {
    if |s| > 0 {
      assert !MatchesAt(s, 0, pat);
      forall i | 0 <= i < |s[1..]|
        ensures !MatchesAt(s[1..], i, pat)
      {
        assert !MatchesAt(s, i + 1, pat);
      }
      ReplaceWithoutMatchIsIdentity(s[1..], pat, rep);
      assert [s[0]] + s[1..] == s;
    }
  }

  /** Text without '$' holds no placeholder, so it is copied as it is, and the
      replacement carries on with what follows it. */
  lemma {:induction false} ReplaceSkipsPlainText(a: string, b: string, pat: seq<PatChar>, rep: string)
    requires |pat| > 0 && pat[0] == Lit('$')
    requires '$' !in a
    ensures ReplaceAll(a + b, pat, rep) == a + ReplaceAll(b, pat, rep)
    decreases |a|
  {
    if |a| > 0 {
      assert (a + b)[1..] == a[1..] + b;
      assert !MatchesAt(a + b, 0, pat) by {
        assert (a + b)[0] == a[0];
      }
      ReplaceSkipsPlainText(a[1..], b, pat, rep);
    } else {
      assert a + b == b;
    }
  }

  /** Text without '$' passes through the replacement unchanged. */
  lemma ReplaceLeavesPlainText(s: string, pat: seq<PatChar>, rep: string)
    requires |pat| > 0 && pat[0] == Lit('$')
    requires '$' !in s
    ensures ReplaceAll(s, pat, rep) == s
  {
    ReplaceSkipsPlainText(s, "", pat, rep);
    assert s + "" == s;
  }

  /** The page shown when the application bundles no error.html. */
  const DefaultErrorPage: string :=
    "<html><body><h1>error page</h1><p>" + PlaceholderText("code") + "</p><p>" + PlaceholderText("url")
    + "</p></body></html>"

  /** The bundled error page, or the default when the resource is empty. */
  function ErrorTemplate(resource: string): (t: string)
    ensures resource != "" ==> t == resource
    ensures resource == "" ==> t == DefaultErrorPage
  {
    if resource == "" then DefaultErrorPage else resource
  }

  /** The error string: CEF's error text, or "UNKNOWN (<code>)" when it is empty. */
  function ErrorString(errorCode: int, errorText: string): (e: string)
    ensures errorText != "" ==> e == errorText
    ensures errorText == "" ==> e == "UNKNOWN (" + IntToString(errorCode) + ")"
  {
    if errorText != "" then errorText else "UNKNOWN (" + IntToString(errorCode) + ")"
  }

  /** The three replacements OnLoadError applies, in order. */
  function RenderErrorPage(template: string, error: string, failedUrl: string): string
  {
    var withCode := ReplaceAll(template, Placeholder("code"), error);
    var withText := ReplaceAll(withCode, Placeholder("text"), error);
    ReplaceAll(withText, Placeholder("url"), failedUrl)
  }

  /** CefFrame::LoadString(html, url). */
  datatype PageLoad = PageLoad(html: string, url: string)

  /** OnLoadError: nothing for a null frame, an aborted load or a child frame;
      otherwise the main frame is given the rendered error page at the failed URL.
      `resource` is what LoadResourceString returns for the bundled page. */
  function OnLoadError(frame: Option<Frame>, errorCode: int, errorText: string, failedUrl: string,
                       resource: string): (r: Option<PageLoad>)
    ensures r.Some? <==> frame.Some? && errorCode != ErrAborted && frame.value.isMain
    ensures r.Some? ==> r.value.url == failedUrl
    ensures r.Some? ==> r.value.html
                        == RenderErrorPage(ErrorTemplate(resource), ErrorString(errorCode, errorText), failedUrl)
  {
    if frame.None? || errorCode == ErrAborted || !frame.value.isMain then None
    else
      var html := RenderErrorPage(ErrorTemplate(resource), ErrorString(errorCode, errorText), failedUrl);
      Some(PageLoad(html, failedUrl))
  }

  /** The text each placeholder is written as in an error page template. */
  function PlaceholderText(field: string): string
  {
    "${error." + field + "}"
  }

  /** A placeholder written out in full matches its own pattern. */
  lemma PlaceholderMatches(field: string, rest: string)
    requires '\n' !in field && '\r' !in field
    ensures MatchesAt(PlaceholderText(field) + rest, 0, Placeholder(field))
  {
    var s := PlaceholderText(field) + rest;
    var p := Placeholder(field);
    forall j | 0 <= j < |p|
      ensures CharMatches(p[j], s[j])
    {
      if 8 <= j < 8 + |field| {
        assert s[j] == field[j - 8];
      }
    }
  }

  /** A placeholder for another field whose name starts differently does not match. */
  lemma OtherPlaceholderDiffers(field: string, other: string, rest: string)
    requires |field| > 0 && |other| > 0 && field[0] != other[0]
    ensures !MatchesAt(PlaceholderText(other) + rest, 0, Placeholder(field))
  {
    var s := PlaceholderText(other) + rest;
    assert Placeholder(field)[8] == Lit(field[0]);
    assert s[8] == other[0];
  }

  /** Replacing in plain text, a placeholder, then plain text. */
  lemma ReplaceOnePlaceholder(a: string, other: string, b: string, field: string, rep: string)
    requires '$' !in a && '$' !in other
    requires |field| > 0 && '\n' !in field && '\r' !in field
    requires |other| > 0
    ensures other == field ==>
              ReplaceAll(a + PlaceholderText(other) + b, Placeholder(field), rep)
              == a + rep + ReplaceAll(b, Placeholder(field), rep)
    ensures other[0] != field[0] && '$' !in b ==>
              ReplaceAll(a + PlaceholderText(other) + b, Placeholder(field), rep) == a + PlaceholderText(other) + b
  {
    var p := Placeholder(field);
    var t := PlaceholderText(other);
    assert a + t + b == a + (t + b);
    ReplaceSkipsPlainText(a, t + b, p, rep);
    if other == field {
      PlaceholderMatches(field, b);
      assert (t + b)[|p|..] == b;
      assert a + rep + ReplaceAll(b, p, rep) == a + (rep + ReplaceAll(b, p, rep));
    } else if other[0] != field[0] && '$' !in b {
      OtherPlaceholderDiffers(field, other, b);
      assert (t + b)[1..] == t[1..] + b;
      assert '$' !in t[1..] + b;
      ReplaceLeavesPlainText(t[1..] + b, p, rep);
      assert [(t + b)[0]] + (t[1..] + b) == t + b;
    }
  }

  /** Rendering a template whose only placeholders are ${error.code} and then
      ${error.url}, around text without '$': the error string and the URL take
      their places. */
  lemma RenderCodeAndUrl(head: string, mid: string, tail: string, error: string, failedUrl: string)
    requires '$' !in head && '$' !in mid && '$' !in tail && '$' !in error
    ensures RenderErrorPage(head + PlaceholderText("code") + mid + PlaceholderText("url") + tail, error, failedUrl)
            == head + error + mid + failedUrl + tail
  {
    var template := head + PlaceholderText("code") + mid + PlaceholderText("url") + tail;
    var s1 := (head + error + mid) + PlaceholderText("url") + tail;
    // ${error.code} becomes the error string; ${error.url} is left alone
    assert template == head + PlaceholderText("code") + (mid + PlaceholderText("url") + tail);
    ReplaceOnePlaceholder(head, "code", mid + PlaceholderText("url") + tail, "code", error);
    ReplaceOnePlaceholder(mid, "url", tail, "code", error);
    assert ReplaceAll(template, Placeholder("code"), error) == s1;
    // there is no ${error.text}
    ReplaceOnePlaceholder(head + error + mid, "url", tail, "text", error);
    // ${error.url} becomes the failed URL
    ReplaceOnePlaceholder(head + error + mid, "url", tail, "url", failedUrl);
    ReplaceLeavesPlainText(tail, Placeholder("url"), failedUrl);
  }

  /** With the default page, the error string and the failed URL land in its
      two paragraphs, when the error string holds no '$'. */
  lemma DefaultErrorPageRendering(error: string, failedUrl: string)
    requires '$' !in error
    ensures RenderErrorPage(DefaultErrorPage, error, failedUrl)
            == "<html><body><h1>error page</h1><p>" + error + "</p><p>" + failedUrl + "</p></body></html>"
  {
    RenderCodeAndUrl("<html><body><h1>error page</h1><p>", "</p><p>", "</p></body></html>", error, failedUrl);
  }
}
