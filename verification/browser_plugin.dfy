/** The module-level helpers of the obs-browser plug-in: the table that turns
    OBS front-end events into JS events, the paths and the Accept-Language list
    derived at start-up, the default directory offered for a local file, the
    list of cookie managers, the visibility rules of a browser source's
    properties, and the flag that starts the browser manager only once.

    OBS and CEF calls become parameters: the locale, the module's binary path,
    the current scene, the settings a callback reads, whether a URL is a
    StreamElements overlay URL (ParseStreamElementsOverlayURL is not part of
    this model) and json11's serialiser. */
module BrowserPlugin {
  import opened Common

  // ---------------------------------------------------------------------------
  // Front-end events

  /** The OBS front-end events handle_obs_frontend_event distinguishes; every
      other event is `OtherEvent`. */
  datatype FrontendEvent =
    | StreamingStarting | StreamingStarted | StreamingStopping | StreamingStopped
    | RecordingStarting | RecordingStarted | RecordingPaused | RecordingUnpaused
    | RecordingStopping | RecordingStopped
    | ReplayBufferStarting | ReplayBufferStarted | ReplayBufferStopping | ReplayBufferStopped
    | Exit
    | SceneChanged
    | OtherEvent(code: int)

  /** The events announced with a fixed name and empty arguments. */
  predicate HasFixedName(e: FrontendEvent)
  {
    !e.SceneChanged? && !e.OtherEvent?
  }

  /** The JS event name each fixed-name event is announced with. */
  function FixedEventName(e: FrontendEvent): string
    requires HasFixedName(e)
  {
    match e
    case StreamingStarting => "obsStreamingStarting"
    case StreamingStarted => "obsStreamingStarted"
    case StreamingStopping => "obsStreamingStopping"
    case StreamingStopped => "obsStreamingStopped"
    case RecordingStarting => "obsRecordingStarting"
    case RecordingStarted => "obsRecordingStarted"
    case RecordingPaused => "obsRecordingPaused"
    case RecordingUnpaused => "obsRecordingUnpaused"
    case RecordingStopping => "obsRecordingStopping"
    case RecordingStopped => "obsRecordingStopped"
    case ReplayBufferStarting => "obsReplaybufferStarting"
    case ReplayBufferStarted => "obsReplaybufferStarted"
    case ReplayBufferStopping => "obsReplaybufferStopping"
    case ReplayBufferStopped => "obsReplaybufferStopped"
    case Exit => "obsExit"
  }

  /** No two fixed-name events share a JS event name. */
  lemma FixedEventNamesDistinct(a: FrontendEvent, b: FrontendEvent)
    requires HasFixedName(a) && HasFixedName(b) && a != b
    ensures FixedEventName(a) != FixedEventName(b)
  {
  }

  /** No fixed-name event is announced as a scene change. */
  lemma FixedEventNameIsNotSceneChange(a: FrontendEvent)
    requires HasFixedName(a)
    ensures FixedEventName(a) != "obsSceneChanged"
  {
  }

  /** The current scene as the front-end reports it: the source's name (which
      may be null) and its size as obs_source_get_width/height return it. */
  datatype Scene = Scene(name: Option<string>, width: nat, height: nat)

  predicate ValidScene(s: Scene)
  {
    s.width < 0x1_0000_0000 && s.height < 0x1_0000_0000
  }

  /** The C cast `(int)` of a uint32_t: values from 2^31 up wrap to negative numbers. */
  function Int32Of(u: nat): (i: int)
    requires u < 0x1_0000_0000
    ensures -0x8000_0000 <= i < 0x8000_0000
    ensures (i - u) % 0x1_0000_0000 == 0
  {
    if u < 0x8000_0000 then u else u - 0x1_0000_0000
  }

  /** The object obsSceneChanged carries. */
  function SceneJson(name: string, width: nat, height: nat): (j: Json)
    requires width < 0x1_0000_0000 && height < 0x1_0000_0000
    ensures j.JObject? && j.fields.Keys == {"name", "width", "height"}
    ensures j.fields["name"] == JStr(name)
    ensures j.fields["width"] == JInt(Int32Of(width)) && j.fields["height"] == JInt(Int32Of(height))
  {
    JObject(map["name" := JStr(name), "width" := JInt(Int32Of(width)), "height" := JInt(Int32Of(height))])
  }

  /** handle_obs_frontend_event: the JS event dispatched (its name and JSON
      arguments), or None when nothing is dispatched. `scene` is what
      obs_frontend_get_current_scene returns, None for a null source. */
  function HandleFrontendEvent(e: FrontendEvent, scene: Option<Scene>, dump: Json -> string)
    : (r: Option<(string, string)>)
    requires scene.Some? ==> ValidScene(scene.value)
    ensures HasFixedName(e) ==> r == Some((FixedEventName(e), ""))
    ensures e.OtherEvent? ==> r.None?
    ensures e.SceneChanged? ==> (r.Some? <==> scene.Some? && scene.value.name.Some?)
    ensures e.SceneChanged? && r.Some? ==>
              r.value.0 == "obsSceneChanged"
              && r.value.1 == dump(SceneJson(scene.value.name.value, scene.value.width, scene.value.height))
  {
    match e
    case OtherEvent(_) => None
    case SceneChanged =>
      (match scene
       case None => None
       case Some(s) =>
         (match s.name
          case None => None
          case Some(name) => Some(("obsSceneChanged", dump(SceneJson(name, s.width, s.height))))))
    case _ => Some((FixedEventName(e), ""))
  }

  /** The dispatched name tells the event apart: two events that dispatch the
      same name are the same event. */
  lemma DispatchedNameIdentifiesEvent(a: FrontendEvent, b: FrontendEvent, scene: Option<Scene>,
                                      dump: Json -> string)
    requires scene.Some? ==> ValidScene(scene.value)
    requires HandleFrontendEvent(a, scene, dump).Some? && HandleFrontendEvent(b, scene, dump).Some?
    requires HandleFrontendEvent(a, scene, dump).value.0 == HandleFrontendEvent(b, scene, dump).value.0
    ensures a == b
  {
    if a != b && HasFixedName(a) && HasFixedName(b) {
      FixedEventNamesDistinct(a, b);
    } else if HasFixedName(a) {
      FixedEventNameIsNotSceneChange(a);
    } else if HasFixedName(b) {
      FixedEventNameIsNotSceneChange(b);
    }
  }

  // ---------------------------------------------------------------------------
  // Start-up strings

  /** The Accept-Language list: the OBS locale first unless it is en-US itself,
      then en-US and en. */
  function AcceptLanguage(locale: string): (r: string)
    ensures locale != "en-US" ==> r == locale + ",en-US,en"
    ensures locale == "en-US" ==> r == "en-US,en"
    ensures |r| >= 8 && r[|r| - 8..] == "en-US,en"
    ensures locale != "en-US" ==> |r| > |locale| && r[..|locale|] == locale && r[|locale|] == ','
  {
    if locale != "en-US" then locale + "," + "en-US,en" else "en-US,en"
  }

  /** Reads the locale back from an Accept-Language list: the short list is
      en-US's own, a longer one carries its locale before ",en-US,en". */
  function LocaleOf(list: string): string
  {
    if |list| <= 8 then "en-US" else list[..|list| - 9]
  }

  /** LocaleOf undoes AcceptLanguage. */
  lemma AcceptLanguageRoundTrip(locale: string)
    ensures LocaleOf(AcceptLanguage(locale)) == locale
  {
    if locale != "en-US" {
      var r := AcceptLanguage(locale);
      assert |r| == |locale| + 9;
      assert r[..|r| - 9] == locale;
    }
  }

  /** Different locales give different lists. */
  lemma AcceptLanguageInjective(a: string, b: string)
    ensures AcceptLanguage(a) == AcceptLanguage(b) ==> a == b
  {
    AcceptLanguageRoundTrip(a);
    AcceptLanguageRoundTrip(b);
  }

  /** The directory part of a path: everything up to and including its last
      '/', or nothing when it has none (the substr at find_last_of + 1). */
  function DirPrefix(path: string): (d: string)
    ensures d <= path
    ensures '/' in path ==> |d| > 0 && d[|d| - 1] == '/' && '/' !in path[|d|..]
    ensures '/' !in path ==> d == ""
  {
    match LastIndexOf(path, '/')
    case None => ""
    case Some(i) => path[..i + 1]
  }

  /** Taking the directory part of a directory part changes nothing. */
  lemma DirPrefixIdempotent(path: string)
    ensures DirPrefix(DirPrefix(path)) == DirPrefix(path)
  {
    var d := DirPrefix(path);
    if '/' in path {
      assert d[..|d|] == d;
      assert d[|d| - 1] == '/';
      assert '/' in d;
      var dd := DirPrefix(d);
      assert dd <= d;
      assert '/' !in d[|dd|..];
      assert |dd| == |d|;
    }
  }

  /** The path of the helper executable: the module's directory, then
      "//obs-browser-page", then ".exe" on Windows. */
  function SubprocessPath(binaryPath: string, windows: bool): (r: string)
    ensures |r| >= |DirPrefix(binaryPath)| && r[..|DirPrefix(binaryPath)|] == DirPrefix(binaryPath)
    ensures windows ==> r[|DirPrefix(binaryPath)|..] == "//obs-browser-page.exe"
    ensures !windows ==> r[|DirPrefix(binaryPath)|..] == "//obs-browser-page"
  {
    var path := DirPrefix(binaryPath) + "//obs-browser-page";
    if windows then path + ".exe" else path
  }

  /** The default directory offered for a local file: with backslashes turned
      into slashes, the source's URL cut just after its last '/'; None (a null
      path) when there is no source or its URL is empty. */
  function DefaultLocalDir(url: Option<string>): (r: Option<string>)
    ensures url.None? || url == Some("") ==> r.None?
    ensures url.Some? && url.value != "" ==> r.Some? && r.value != "" && '\\' !in r.value
    ensures url.Some? && url.value != "" ==> r.value <= ReplaceChar(url.value, '\\', '/')
    ensures url.Some? && url.value != "" && '/' in ReplaceChar(url.value, '\\', '/') ==>
              r.value == DirPrefix(ReplaceChar(url.value, '\\', '/'))
    ensures url.Some? && url.value != "" && '/' !in ReplaceChar(url.value, '\\', '/') ==>
              r.value == url.value
  {
    match url
    case None => None
    case Some(u) =>
      if u == "" then None
      else
        var path := ReplaceChar(u, '\\', '/');
        if '/' in path then Some(DirPrefix(path))
        else
          assert path == u by {
            forall i | 0 <= i < |u|
              ensures path[i] == u[i]
            {
            }
          }
          Some(path)
  }

  /** Deriving the default directory from a directory it produced gives it back. */
  lemma DefaultLocalDirIdempotent(url: string)
    requires url != ""
    ensures DefaultLocalDir(DefaultLocalDir(Some(url))) == DefaultLocalDir(Some(url))
  {
    var d := DefaultLocalDir(Some(url)).value;
    var path := ReplaceChar(url, '\\', '/');
    assert ReplaceChar(d, '\\', '/') == d;
    if '/' in path {
      DirPrefixIdempotent(path);
    }
  }

  // ---------------------------------------------------------------------------
  // Cookie managers

  /** A CefCookieManager, compared by identity. */
  type CookieManager = nat

  /** The registered cookie managers, and the FlushStore calls made so far. */
  datatype CookieState = CookieState(managers: seq<CookieManager>, flushed: seq<CookieManager>)

  /** register_cookie_manager: a null manager is ignored, any other is appended. */
  function RegisterCookieManager(s: CookieState, cm: Option<CookieManager>): (r: CookieState)
    ensures cm.None? ==> r == s
    ensures cm.Some? ==> multiset(r.managers) == multiset(s.managers) + multiset{cm.value}
    ensures cm.Some? ==> |r.managers| == |s.managers| + 1 && r.managers[..|s.managers|] == s.managers
    ensures r.flushed == s.flushed
  {
    match cm
    case None => s
    case Some(m) => s.(managers := s.managers + [m])
  }

  /** unregister_cookie_manager: a null manager is ignored; any other is
      flushed, then its first entry is erased (none when it is not registered). */
  function UnregisterCookieManager(s: CookieState, cm: Option<CookieManager>): (r: CookieState)
    ensures cm.None? ==> r == s
    ensures cm.Some? ==> r.flushed == s.flushed + [cm.value]
    ensures cm.Some? ==> multiset(r.managers) == multiset(s.managers) - multiset{cm.value}
    ensures cm.Some? && cm.value !in s.managers ==> r.managers == s.managers
    ensures cm.Some? && cm.value in s.managers ==>
              var i := IndexOf(s.managers, cm.value).value;
              r.managers == s.managers[..i] + s.managers[i + 1..] && cm.value !in s.managers[..i]
  {
    match cm
    case None => s
    case Some(m) => CookieState(RemoveFirst(s.managers, m), s.flushed + [m])
  }

  /** Unregistering a manager undoes registering it, apart from the flush. */
  lemma UnregisterUndoesRegister(s: CookieState, m: CookieManager)
    ensures var r := UnregisterCookieManager(RegisterCookieManager(s, Some(m)), Some(m));
            multiset(r.managers) == multiset(s.managers) && r.flushed == s.flushed + [m]
    ensures m !in s.managers ==>
              UnregisterCookieManager(RegisterCookieManager(s, Some(m)), Some(m)).managers == s.managers
  {
    var registered := RegisterCookieManager(s, Some(m)).managers;
    if m !in s.managers {
      assert IndexOf(registered, m) == Some(|s.managers|) by {
        assert registered[..|s.managers|] == s.managers;
      }
      assert registered[..|s.managers|] + registered[|s.managers| + 1..] == s.managers;
    }
  }

  /** flush_cookie_managers: every registered manager is flushed once, in list order. */
  method FlushCookieManagers(s: CookieState) returns (r: CookieState)
    ensures r.managers == s.managers
    ensures |r.flushed| == |s.flushed| + |s.managers|
    ensures r.flushed[..|s.flushed|] == s.flushed
    ensures forall i :: 0 <= i < |s.managers| ==> r.flushed[|s.flushed| + i] == s.managers[i]
  {
    r := s;
    var i := 0;
    while i < |s.managers|
      invariant 0 <= i <= |s.managers|
      invariant r.managers == s.managers
      invariant |r.flushed| == |s.flushed| + i
      invariant r.flushed[..|s.flushed|] == s.flushed
      invariant forall k :: 0 <= k < i ==> r.flushed[|s.flushed| + k] == s.managers[k]
    {
      r := r.(flushed := r.flushed + [s.managers[i]]);
      i := i + 1;
    }
  }

  // ---------------------------------------------------------------------------
  // Property visibility

  /** The settings the property callbacks read. `url` is None when the
      setting yields a null string. */
  datatype Settings = Settings(isLocalFile: bool, url: Option<string>, fpsCustom: bool)

  /** The visibility of the properties the callbacks show and hide. */
  datatype Props = Props(urlVisible: bool, localFileVisible: bool, editOverlayVisible: bool, fpsVisible: bool)

  /** Whether the "edit overlay" button belongs on screen: the source shows a
      URL, not a local file, and the URL is an overlay URL. */
  predicate OverlayEditorEnabled(settings: Settings, isOverlayUrl: string -> bool)
  {
    !settings.isLocalFile && settings.url.Some? && isOverlayUrl(settings.url.value)
  }

  /** on_streamelements_url_modified: shows the button exactly when the editor
      is enabled, and asks for a refresh exactly when its visibility changed. */
  function OnUrlModified(props: Props, settings: Settings, isOverlayUrl: string -> bool): (r: (bool, Props))
    ensures r.1.editOverlayVisible == OverlayEditorEnabled(settings, isOverlayUrl)
    ensures r.0 <==> props.editOverlayVisible != r.1.editOverlayVisible
    ensures r.1.urlVisible == props.urlVisible && r.1.localFileVisible == props.localFileVisible
            && r.1.fpsVisible == props.fpsVisible
  {
    var enable := OverlayEditorEnabled(settings, isOverlayUrl);
    if props.editOverlayVisible != enable then (true, props.(editOverlayVisible := enable))
    else (false, props)
  }

  /** Running the callback again with the same settings asks for no refresh. */
  lemma OnUrlModifiedSettles(props: Props, settings: Settings, isOverlayUrl: string -> bool)
    ensures var once := OnUrlModified(props, settings, isOverlayUrl).1;
            OnUrlModified(once, settings, isOverlayUrl) == (false, once)
  {
  }

  /** is_local_file_modified: the URL field is shown for a URL source and the
      file field for a local file; the overlay button is re-evaluated; the
      result is always true. */
  function IsLocalFileModified(props: Props, settings: Settings, isOverlayUrl: string -> bool): (r: (bool, Props))
    ensures r.0
    ensures r.1.urlVisible == !settings.isLocalFile && r.1.localFileVisible == settings.isLocalFile
    ensures r.1.editOverlayVisible == OverlayEditorEnabled(settings, isOverlayUrl)
    ensures r.1.fpsVisible == props.fpsVisible
  {
    var shown := props.(urlVisible := !settings.isLocalFile, localFileVisible := settings.isLocalFile);
    (true, OnUrlModified(shown, settings, isOverlayUrl).1)
  }

  /** A local file never shows the overlay button, and exactly one of the URL
      and file fields is visible. */
  lemma LocalFileHidesOverlayButton(props: Props, settings: Settings, isOverlayUrl: string -> bool)
    ensures var p := IsLocalFileModified(props, settings, isOverlayUrl).1;
            (settings.isLocalFile ==> !p.editOverlayVisible) && (p.urlVisible != p.localFileVisible)
  {
  }

  /** is_fps_custom: the FPS field is shown exactly when a custom frame rate is chosen. */
  function IsFpsCustom(props: Props, settings: Settings): (r: (bool, Props))
    ensures r.0 && r.1.fpsVisible == settings.fpsCustom
    ensures r.1.urlVisible == props.urlVisible && r.1.localFileVisible == props.localFileVisible
            && r.1.editOverlayVisible == props.editOverlayVisible
  {
    (true, props.(fpsVisible := settings.fpsCustom))
  }

  // ---------------------------------------------------------------------------
  // obs_browser_initialize

  /** The once-flag and the number of times the browser manager was started. */
  datatype InitState = InitState(initialized: bool, starts: nat)

  /** obs_browser_initialize: the atomic exchange returns the old flag; only the
      caller that saw it false starts the manager. */
  function Initialize(s: InitState): (r: InitState)
    ensures r.initialized
    ensures !s.initialized ==> r.starts == s.starts + 1
    ensures s.initialized ==> r == s
  {
    if !s.initialized then InitState(true, s.starts + 1) else s
  }

  /** `n` calls in a row. */
  function InitializeTimes(s: InitState, n: nat): InitState
    decreases n
  {
    if n == 0 then s else InitializeTimes(Initialize(s), n - 1)
  }

  /** However often it is called, the manager is started once. */
  lemma {:induction false} InitializeStartsOnce(n: nat)
    requires n >= 1
    ensures InitializeTimes(InitState(false, 0), n) == InitState(true, 1)
  {
    InitializedStaysPut(InitState(true, 1), n - 1);
  }

  /** Once the flag is set, further calls change nothing. */
  lemma {:induction false} InitializedStaysPut(s: InitState, n: nat)
    requires s.initialized
    ensures InitializeTimes(s, n) == s
    decreases n
  {
    if n > 0 {
      InitializedStaysPut(Initialize(s), n - 1);
    }
  }
}
