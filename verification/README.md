# Threema Web theme service, modelled in Dafny

This project models `ThemeService` from Threema Web's web client
(`src/services/theme.ts`). The service keeps the user's theme preference
(`"Light (White)"` or `"Dark (Black)"`) in the settings store under the key
`ThemeService.THEME_SETTING`. It swaps the theme stylesheet `<link>`
(element id `themeID`, href `/css/app-light.css` or `/css/app-dark.css`) in
the document head. It also derives the dark variant of icon file names
(`icon.png` becomes `icon_dark.png`).

The model is functional. A service is the immutable record
`Service(store, head, currentTheme)`, and every operation returns the service
as it is after the call. The parts are:

- `Nullable`: `Option`, which stands for JavaScript's `null`/`undefined`.
- `Settings`: the settings store as a `map<string, string>`, with
  `Retrieve` (lookup that may be absent) and `Put` (update).
- `JsString`: JavaScript strings as sequences of UTF-16 code units, the
  unit `length` and `substring` count, and `String.prototype.substring` with
  its clamping of out-of-range indices and its swapping of reversed ones.
  Icon names are such sequences. Theme names and settings values are only
  stored and compared for equality, so they stay plain Dafny strings.
- `Dom`: the document head as a sequence of `Link(id, href)` records, with
  `GetElementById` (first match in document order), `AppendChild` and
  `RemoveChild`.
- `ThemeService`: the service's operations.
- `ThemeProperties`: lemmas relating those operations.

## Model

| member | source | states |
|---|---|---|
| Settings.Retrieve | src/services/theme.ts:113-115 | a lookup is present exactly when the key is stored, and then yields the stored value |
| Settings.Put | src/services/theme.ts:106-108 | after storing, the key reads back the value, every other key reads as before, and the key set only gains the key |
| ThemeService.Create | src/services/theme.ts:26-34 | a new service holds the given store and head, with `currentTheme` empty |
| ThemeService.GetTheme | src/services/theme.ts:51-54 | the result is never empty; it is the stored preference when one is stored and non-empty, and `"Light (White)"` when the key is absent or holds the empty string |
| ThemeService.Init | src/services/theme.ts:36-38 | `currentTheme` becomes exactly the resolved preference; store and head are unchanged |
| ThemeService.IconColor | src/services/theme.ts:60-62 | icons are dark exactly when the store holds `"Dark (Black)"` at the theme key |
| ThemeService.StylesheetFor | src/services/theme.ts:79-85 | the sheet is `app-dark.css` exactly when the name is `"Dark (Black)"`, and `app-light.css` for every other name, unknown ones included |
| ThemeService.SwitchTheme | src/services/theme.ts:89-101 | given an element with id `themeID`, the head keeps its length and its number of `themeID` links, its last link is the new `themeID` link to `/css/<file>`; what precedes it is the old head with the first `themeID` element in document order removed, so the other elements are unchanged and in order |
| ThemeService.LoadTheme | src/services/theme.ts:76-87 | only the head changes; its last link points at `/css/app-dark.css` when the resolved preference is dark and at `/css/app-light.css` otherwise, and the rest is the old head without its first `themeID` element |
| ThemeService.SetTheme | src/services/theme.ts:43-46 | the store holds the new name at the theme key and is unchanged at every other key; `currentTheme` is untouched; the head keeps its length, its new last link points at the sheet of the new name, and the rest is the old head without its first `themeID` element |
| ThemeService.ImageFilename | src/services/theme.ts:64-71 | a missing name gives a missing result; under a non-dark theme the name is returned unchanged; under the dark theme `_dark` is spliced in before the last four UTF-16 code units, or in front when the name is shorter than four |
| JsString.Substring | src/services/theme.ts:69-70 | `substring` returns the code units between the two indices after each is clamped into `[0, length]`, taken from the smaller to the larger; with in-range ordered indices this is the plain slice |
| JsString.SubstringSwap | src/services/theme.ts:70 | swapping the two indices of `substring` does not change the result |
| JsString.SubstringClamps | src/services/theme.ts:69-70 | a negative index reads as 0 and an index past the end reads as the length, for either argument |
| JsString.SplitAndJoin | src/services/theme.ts:70 | cutting a string with two `substring` calls at any integer position, in range or not, and joining the halves gives the string back |
| JsString.SubstringNegativeIndex | src/services/theme.ts:69-70 | a negative index clamps to 0: `substring(k, len)` is the whole string and `substring(0, k)` is empty |
| Dom.GetElementById | src/services/theme.ts:92 | the lookup finds an element exactly when one carries the id, and then the first such element in document order |
| Dom.AppendChild | src/services/theme.ts:99 | the new element becomes the last child, after all old children |
| Dom.RemoveChild | src/services/theme.ts:100 | the removed element is gone and all other children keep their order |
| Dom.RemoveCarrier | src/services/theme.ts:100 | removing an element with the id lowers that id's count by one and leaves the elements without the id unchanged |
| ThemeProperties.GetAfterSet | src/services/theme.ts:43-54 | after `setTheme(n)`, `getTheme()` returns `n` when `n` is non-empty and `"Light (White)"` when `n` is empty |
| ThemeProperties.InitIdempotent | src/services/theme.ts:36-38 | running init twice is the same as running it once |
| ThemeProperties.CachedThemeGoesStale | src/services/theme.ts:36-46 | after init then `setTheme` to a different name, `currentTheme` keeps the old preference while `getTheme()` reports the new one |
| ThemeProperties.StylesheetAgreesWithIcons | src/services/theme.ts:60-87 | the dark stylesheet is chosen exactly when icons take their dark variant |
| ThemeProperties.SwitchKeepsSingleSlot | src/services/theme.ts:89-101 | with exactly one `themeID` link before, there is exactly one after, it points at the new sheet, and the other elements are unchanged |
| ThemeProperties.SetThemeKeepsSingleSlot | src/services/theme.ts:43-101 | with exactly one `themeID` link, after `setTheme(n)` exactly one remains, pointing at `app-dark.css` when `n` is `"Dark (Black)"` and at `app-light.css` otherwise |
| ThemeProperties.SwitchToSameSheet | src/services/theme.ts:89-101 | when the sole `themeID` link stands last and already points at the sheet, switching to that sheet leaves the head as it was |
| ThemeProperties.LoadThemeTwice | src/services/theme.ts:76-101 | with exactly one `themeID` link, loading twice gives the same service as loading once, so links do not accumulate |
| ThemeProperties.DarkIconShape | src/services/theme.ts:68-70 | under the dark theme the icon name grows by five; the text before the cut and the last four characters are kept, with `_dark` between them |
| ThemeProperties.DarkIconInjective | src/services/theme.ts:64-71 | under the dark theme two different icon names never get the same result |
| ThemeProperties.DarkIconExample | src/services/theme.ts:64-71 | with `"Dark (Black)"` stored, `icon.png` becomes `icon_dark.png` |
| ThemeProperties.DarkIconSplitsSurrogatePair | src/services/theme.ts:68-70 | under the dark theme an emoji followed by `abc` is cut after its first code unit, between the two halves of the surrogate pair |
| ThemeProperties.LightIconExample | src/services/theme.ts:64-71 | with no theme stored, `icon.png` is returned unchanged |

## Behaviour as written

Three behaviours of the code worth noting:

- `getTheme` returns any non-empty stored value as it is. Only the
  stylesheet choice falls back to the light sheet for an unknown name.
- A name shorter than four code units still gets the suffix. The clamped
  `substring` gives `"_dark" + name` under the dark theme.
- The stylesheet switch always removes the element found by id, so one
  must exist. That is a precondition of `SwitchTheme`, `LoadTheme` and
  `SetTheme`.

## Left out

- ThemeService.SwitchTheme: removing a missing element throws after the new link has been appended. The model states the element's existence as a precondition instead of modelling the thrown error and the half-updated head.
- ThemeService.SwitchTheme: `getElementById` searches the whole document, and `removeChild` throws when the element found is not a child of the head. The model assumes that every `themeID` element sits in the head.
- The `rel`, `type` and `media` attributes of the link are constants and are not kept.
- The settings storage backend is not part of this model. The store is a pure map, and values are strings, although an untrusted store could hand back other JavaScript values.
- Logging (`$log`, `logTag`), dependency-injection wiring (`$inject`, the constructor's collaborators) and the unused `themeOptions` list are not modelled.
- Element identity in the DOM is modelled by position in the head, so two links with equal id and href are indistinguishable.
