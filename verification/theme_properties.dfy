/** Properties relating the theme service's operations to one another. */
module ThemeProperties {
  import opened Nullable
  import Settings
  import JsString
  import Dom
  import opened ThemeService

  /** getTheme after setTheme returns the name just stored, or the light
      theme when that name is the (falsy) empty string. */
  lemma GetAfterSet(svc: Service, name: string)
    requires Dom.HasId(svc.head, ThemeId)
    ensures name != "" ==> GetTheme(SetTheme(svc, name)) == name
    ensures name == "" ==> GetTheme(SetTheme(svc, name)) == LightTheme
  {
  }

  /** A second init changes nothing. */
  lemma InitIdempotent(svc: Service)
    ensures Init(Init(svc)) == Init(svc)
  {
  }

  /** The cached field is not refreshed by setTheme: after init and a
      setTheme to a different non-empty name, `currentTheme` still holds the
      old preference while getTheme reports the new one. */
  lemma CachedThemeGoesStale(svc: Service, name: string)
    requires Dom.HasId(svc.head, ThemeId)
    requires name != "" && name != GetTheme(svc)
    ensures SetTheme(Init(svc), name).currentTheme == GetTheme(svc)
    ensures GetTheme(SetTheme(Init(svc), name)) == name
    ensures SetTheme(Init(svc), name).currentTheme != GetTheme(SetTheme(Init(svc), name))
  {
  }

  /** The stylesheet choice and the icon variant agree: the dark sheet is
      loaded exactly when icons take their dark variant. */
  lemma StylesheetAgreesWithIcons(svc: Service)
    ensures StylesheetFor(GetTheme(svc)) == DarkCss <==> IconColor(svc)
  {
  }

  /** With exactly one theme link before, switchTheme leaves exactly one,
      pointing at the new stylesheet, and every other element as it was. */
  lemma SwitchKeepsSingleSlot(head: Dom.Head, themeName: string)
    requires Dom.Count(head, ThemeId) == 1
    ensures Dom.HasId(head, ThemeId)
    ensures Dom.SoleLink(SwitchTheme(head, themeName), ThemeId, CssDir + themeName)
    ensures Dom.Others(SwitchTheme(head, themeName), ThemeId) == Dom.Others(head, ThemeId)
  {
    Dom.CountOneImpliesHasId(head, ThemeId);
    var r := SwitchTheme(head, themeName);
    forall j | 0 <= j < |r| && r[j].id == ThemeId
      ensures r[j].href == CssDir + themeName
    {
      Dom.CountOneUnique(r, ThemeId, j, |r| - 1);
    }
  }

  /** setTheme on a head with one theme link: afterwards there is exactly
      one, and it points at the sheet of the name just stored. */
  lemma SetThemeKeepsSingleSlot(svc: Service, name: string)
    requires Dom.Count(svc.head, ThemeId) == 1
    ensures Dom.HasId(svc.head, ThemeId)
    ensures Dom.SoleLink(SetTheme(svc, name).head, ThemeId,
                         CssDir + (if name == DarkTheme then DarkCss else LightCss))
  {
    Dom.CountOneImpliesHasId(svc.head, ThemeId);
    var r := SetTheme(svc, name);
    GetAfterSet(svc, name);
    forall j | 0 <= j < |r.head| && r.head[j].id == ThemeId
      ensures r.head[j].href == CssDir + (if name == DarkTheme then DarkCss else LightCss)
    {
      Dom.CountOneUnique(r.head, ThemeId, j, |r.head| - 1);
    }
  }

  /** Switching to the sheet the sole theme link, standing last, already
      points at gives the head back unchanged. */
  lemma SwitchToSameSheet(head: Dom.Head, themeName: string)
    requires Dom.Count(head, ThemeId) == 1
    requires |head| > 0 && head[|head| - 1] == Dom.Link(ThemeId, CssDir + themeName)
    ensures Dom.HasId(head, ThemeId)
    ensures SwitchTheme(head, themeName) == head
  {
    Dom.AppendThenRemoveSole(head, head[|head| - 1]);
  }

  /** With one theme link, loading the same stored theme twice gives the
      same service as loading it once: no links accumulate. */
  lemma LoadThemeTwice(svc: Service)
    requires Dom.Count(svc.head, ThemeId) == 1
    ensures Dom.HasId(svc.head, ThemeId)
    ensures Dom.HasId(LoadTheme(svc).head, ThemeId)
    ensures LoadTheme(LoadTheme(svc)) == LoadTheme(svc)
  {
    Dom.CountOneImpliesHasId(svc.head, ThemeId);
    var once := LoadTheme(svc);
    assert GetTheme(once) == GetTheme(svc);
    SwitchToSameSheet(once.head, StylesheetFor(GetTheme(svc)));
  }

  /** Under the dark theme the icon name grows by the five suffix
      code units, with the part before the cut and the part after it kept. */
  lemma DarkIconShape(svc: Service, name: JsString.JsStr)
    requires GetTheme(svc) == DarkTheme
    ensures |ImageFilename(svc, Some(name)).value| == |name| + 5
    ensures var cut := if |name| >= 4 then |name| - 4 else 0;
            var r := ImageFilename(svc, Some(name)).value;
            && r[..cut] == name[..cut]
            && r[cut..cut + 5] == DarkSuffix
            && r[cut + 5..] == name[cut..]
  {
  }

  /** Under the dark theme two different icon names never share a dark
      variant. */
  lemma DarkIconInjective(svc: Service, a: JsString.JsStr, b: JsString.JsStr)
    requires GetTheme(svc) == DarkTheme
    requires ImageFilename(svc, Some(a)) == ImageFilename(svc, Some(b))
    ensures a == b
  {
    var r := ImageFilename(svc, Some(a)).value;
    DarkIconShape(svc, a);
    DarkIconShape(svc, b);
    assert |a| == |b|;
    var cut := if |a| >= 4 then |a| - 4 else 0;
    assert a[..cut] == r[..cut] == b[..cut];
    assert a[cut..] == r[cut + 5..] == b[cut..];
    assert a == a[..cut] + a[cut..];
    assert b == b[..cut] + b[cut..];
  }

  /** The dark-theme example of an icon name: `icon.png` becomes
      `icon_dark.png`. */
  lemma DarkIconExample(svc: Service)
    requires ThemeSetting in svc.store && svc.store[ThemeSetting] == DarkTheme
    ensures ImageFilename(svc, Some(JsString.FromAscii("icon.png")))
         == Some(JsString.FromAscii("icon_dark.png"))
  {
    var name := JsString.FromAscii("icon.png");
    assert name[..4] == JsString.FromAscii("icon");
    assert name[4..] == JsString.FromAscii(".png");
    assert JsString.FromAscii("icon") + DarkSuffix + JsString.FromAscii(".png")
        == JsString.FromAscii("icon_dark.png");
  }

  /** Lengths count UTF-16 code units: under the dark theme the name
      U+1F600 followed by `abc` is five code units long, so the cut falls
      after the first one, between the two halves of the surrogate pair. */
  lemma DarkIconSplitsSurrogatePair(svc: Service)
    requires GetTheme(svc) == DarkTheme
    ensures ImageFilename(svc, Some([0xD83D, 0xDE00, 0x61, 0x62, 0x63]))
         == Some([0xD83D] + DarkSuffix + [0xDE00, 0x61, 0x62, 0x63])
  {
    var name: JsString.JsStr := [0xD83D, 0xDE00, 0x61, 0x62, 0x63];
    assert name[..1] == [0xD83D] && name[1..] == [0xDE00, 0x61, 0x62, 0x63];
  }

  /** The light-theme example of an icon name. */
  lemma LightIconExample(svc: Service)
    requires ThemeSetting !in svc.store
    ensures ImageFilename(svc, Some(JsString.FromAscii("icon.png")))
         == Some(JsString.FromAscii("icon.png"))
  {
  }
}
