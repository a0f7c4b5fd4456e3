/** ThemeService: reads and writes the theme preference through the
    settings store, swaps the theme stylesheet link in the document head and
    derives the dark variant of icon file names. The service is an immutable
    record; each operation returns the service after the call. */
module ThemeService {
  import opened Nullable
  import Settings
  import Dom
  import JsString

  /** The settings key the preference is stored under. */
  const ThemeSetting := "ThemeService.THEME_SETTING"
  const LightTheme := "Light (White)"
  const DarkTheme := "Dark (Black)"

  /** Element id of the theme stylesheet link. */
  const ThemeId := "themeID"
  const CssDir := "/css/"
  const DarkCss := "app-dark.css"
  const LightCss := "app-light.css"

  /** `_dark`, inserted before the extension of an icon name under the dark
      theme. */
  const DarkSuffix: JsString.JsStr := JsString.FromAscii("_dark")

  /** The settings the service reads and writes, the document head it
      edits, and its `currentTheme` field. */
  datatype Service = Service(store: Settings.Store, head: Dom.Head, currentTheme: string)

  /** The freshly constructed service: `currentTheme` starts empty. */
  function Create(store: Settings.Store, head: Dom.Head): (s: Service)
    ensures s.store == store && s.head == head && s.currentTheme == ""
  {
    Service(store, head, "")
  }

  /** JavaScript truthiness of a retrieved setting: a missing value and the
      empty string are falsy. */
  predicate Truthy(v: Option<string>)
  {
    v.Some? && v.value != ""
  }

  /** getTheme: the stored preference, or the light theme when nothing
      usable is stored. */
  function GetTheme(svc: Service): (t: string)
    ensures t != ""
    ensures ThemeSetting in svc.store && svc.store[ThemeSetting] != "" ==> t == svc.store[ThemeSetting]
    ensures ThemeSetting !in svc.store || svc.store[ThemeSetting] == "" ==> t == LightTheme
  {
    var theme := Settings.Retrieve(svc.store, ThemeSetting);
    if Truthy(theme) then theme.value else LightTheme
  }

  /** init: caches the current preference in `currentTheme`; nothing else
      changes. */
  function Init(svc: Service): (r: Service)
    ensures r.currentTheme == GetTheme(svc)
    ensures r.store == svc.store && r.head == svc.head
  {
    svc.(currentTheme := GetTheme(svc))
  }

  /** iconColor: whether icons take their dark variant, decided by the
      stored value alone. */
  function IconColor(svc: Service): (dark: bool)
    ensures dark <==> ThemeSetting in svc.store && svc.store[ThemeSetting] == DarkTheme
  {
    GetTheme(svc) == DarkTheme
  }

  /** The stylesheet loadTheme picks for a theme name: the dark sheet for
      the dark theme and the light sheet for every other name. */
  function StylesheetFor(themeName: string): (file: string)
    ensures file == DarkCss <==> themeName == DarkTheme
    ensures file == LightCss <==> themeName != DarkTheme
  {
    if themeName == DarkTheme then DarkCss
    else if themeName == LightTheme then LightCss
    else LightCss
  }

  /** switchTheme: appends a new theme link to the head, then removes the
      element getElementById finds for the theme id. That element must
      exist: removing a missing one fails. The head keeps its length and its
      number of theme links; the new link is last; no other element moves
      or changes. */
  function SwitchTheme(head: Dom.Head, themeName: string): (r: Dom.Head)
    requires Dom.HasId(head, ThemeId)
    ensures |r| == |head|
    ensures r[|r| - 1] == Dom.Link(ThemeId, CssDir + themeName)
    ensures r[..|r| - 1] == Dom.RemoveChild(head, Dom.GetElementById(head, ThemeId).value)
    ensures Dom.Count(r, ThemeId) == Dom.Count(head, ThemeId)
    ensures Dom.Others(r, ThemeId) == Dom.Others(head, ThemeId)
  {
    var oldTheme := Dom.GetElementById(head, ThemeId).value;
    var link := Dom.Link(ThemeId, CssDir + themeName);
    var appended := Dom.AppendChild(head, link);
    Dom.AppendOne(head, link, ThemeId);
    Dom.RemoveCarrier(appended, oldTheme, ThemeId);
    Dom.RemoveChild(appended, oldTheme)
  }

  /** loadTheme: applies the stylesheet of the stored preference. Only the
      head changes, and its last link points at the dark sheet exactly when
      the preference is the dark theme. */
  function LoadTheme(svc: Service): (r: Service)
    requires Dom.HasId(svc.head, ThemeId)
    ensures r.store == svc.store && r.currentTheme == svc.currentTheme
    ensures |r.head| == |svc.head|
    ensures r.head[|r.head| - 1]
         == Dom.Link(ThemeId, CssDir + (if GetTheme(svc) == DarkTheme then DarkCss else LightCss))
    ensures r.head[..|r.head| - 1] == Dom.RemoveChild(svc.head, Dom.GetElementById(svc.head, ThemeId).value)
    ensures Dom.Count(r.head, ThemeId) == Dom.Count(svc.head, ThemeId)
    ensures Dom.Others(r.head, ThemeId) == Dom.Others(svc.head, ThemeId)
  {
    svc.(head := SwitchTheme(svc.head, StylesheetFor(GetTheme(svc))))
  }

  /** setTheme: stores the name under the theme key, then loads it. The
      store changes at that key only, and `currentTheme` is left alone. */
  function SetTheme(svc: Service, themeName: string): (r: Service)
    requires Dom.HasId(svc.head, ThemeId)
    ensures Settings.Retrieve(r.store, ThemeSetting) == Some(themeName)
    ensures forall k :: k != ThemeSetting ==> Settings.Retrieve(r.store, k) == Settings.Retrieve(svc.store, k)
    ensures r.currentTheme == svc.currentTheme
    ensures |r.head| == |svc.head|
    ensures r.head[|r.head| - 1] == Dom.Link(ThemeId, CssDir + StylesheetFor(themeName))
    ensures r.head[..|r.head| - 1] == Dom.RemoveChild(svc.head, Dom.GetElementById(svc.head, ThemeId).value)
    ensures Dom.Count(r.head, ThemeId) == Dom.Count(svc.head, ThemeId)
    ensures Dom.Others(r.head, ThemeId) == Dom.Others(svc.head, ThemeId)
  {
    var stored := svc.(store := Settings.Put(svc.store, ThemeSetting, themeName));
    LoadTheme(stored)
  }

  /** imageFilename: `None` for a missing name; otherwise the name with the
      dark suffix spliced in before its last four UTF-16 code units under the
      dark theme, and the name unchanged under any other theme. With fewer
      than four code units the clamped substring puts the suffix in front. */
  function ImageFilename(svc: Service, fn: Option<JsString.JsStr>): (r: Option<JsString.JsStr>)
    ensures r.None? <==> fn.None?
    ensures fn.Some? && GetTheme(svc) != DarkTheme ==> r == fn
    ensures fn.Some? && GetTheme(svc) == DarkTheme && |fn.value| >= 4 ==>
      r.value == fn.value[..|fn.value| - 4] + DarkSuffix + fn.value[|fn.value| - 4..]
    ensures fn.Some? && GetTheme(svc) == DarkTheme && |fn.value| < 4 ==>
      r.value == DarkSuffix + fn.value
  {
    if fn.None? then None
    else
      var ext := if IconColor(svc) then DarkSuffix else [];
      var fnl := |fn.value|;
      var name := JsString.Substring(fn.value, 0, fnl - 4) + ext + JsString.Substring(fn.value, fnl - 4, fnl);
      JsString.SplitAndJoin(fn.value, fnl - 4);
      assert ext == [] ==> name == fn.value;
      Some(name)
  }
}
