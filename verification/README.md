# Portfolio page: section pager and language preference

This project models the only parts of the bilingual portfolio page that have behaviour. The rest of the page is static content and markup.

- **Section tracker and pager** (module `SectionPager`, `pager.dfy`). The page has a fixed ordered list of 16 distinct section ids and an `active` index that starts at 0. A visibility observer delivers batches of `(id, isIntersecting)` entries. For every entry that intersects and names a section, the observer sets `active` to that section's position, so the last such entry in the batch wins. `goNext` / `goPrev` target the clamped index `min(active+1, N-1)` / `max(active-1, 0)` and hand that section's id to `scrollToId`. `scrollToId` does nothing when no rendered region has the id. Otherwise it scrolls to the region and replaces the location fragment with `#id`. Navigation never writes `active`. ArrowRight and ArrowLeft map to next and previous. The header link's `aria-current` and the pager's lit dot are both derived from `active`.
- **Language preference** (module `Language`, `language.dfy`). At start-up the page resolves its language as follows. With no window it is Arabic. Otherwise a non-empty stored `lang` value wins, and it is not validated. Otherwise the browser locale decides: "ar" when it starts with "ar" in any case, "en" for anything else. The header button toggles "ar" to "en" and every other value to "ar". The language is written back to local storage at mount and after every change, when a window exists. A stored value other than "ar" or "en" is resolved as it is; the page has text tables only for those two, so the render with such a value fails, and that failure is not modelled.

The page is modelled as a class `SectionPager.Pager`. Its `active` and `fragment` fields are updated in place. The rendered regions and the presence of `history` are constants of the object. The observer callback is a method with a loop, proved against the function `BatchActive`. The lemmas are about `BatchActive` and the pure index functions. Local storage is a `map<string, string>`. `navigator.language` is an optional string.

## Model

| member | source | states |
|---|---|---|
| `SectionPager.SectionsShape` | Scr/App.jsx:303 | the section list has 16 entries, all distinct, and every header link id is one of them |
| `SectionPager.IndexOf` | Scr/App.jsx:318 | `indexOf` returns -1 exactly when the id is absent; otherwise it returns a position holding the id with no earlier occurrence |
| `SectionPager.IndexOfDistinct` | Scr/App.jsx:303 | in a list of distinct ids, `indexOf` of the element at position i is i |
| `SectionPager.NextIndex` | Scr/App.jsx:352 | the next target stays in [0, N-1], is `active` or `active+1`, and equals `active` exactly at the last section (no wrap-around) |
| `SectionPager.PrevIndex` | Scr/App.jsx:353 | the previous target stays in [0, N-1], is `active` or `active-1`, and equals `active` exactly at section 0 (no wrap-around) |
| `SectionPager.NextTimesClamps` | Scr/App.jsx:352 | k next-steps from i (each target then becoming active) reach `min(i+k, N-1)`, so repeated steps at the last section stay there |
| `SectionPager.PrevTimesClamps` | Scr/App.jsx:353 | k previous-steps from i reach `max(i-k, 0)`, so repeated steps at section 0 stay there |
| `SectionPager.NextPrevInverse` | Scr/App.jsx:352-353 | away from the ends, a previous-step undoes a next-step and the other way round |
| `SectionPager.Step` | Scr/App.jsx:316-320 | an entry that intersects and names a section sets the index to that section's position; any other entry leaves it unchanged |
| `SectionPager.BatchActive` | Scr/App.jsx:304-321 | starting from an index in [0, N-1], the index after a batch stays in [0, N-1] |
| `SectionPager.BatchNoQualifying` | Scr/App.jsx:315-321 | a batch with no intersecting entry that names a section leaves the active index unchanged |
| `SectionPager.BatchLastWins` | Scr/App.jsx:315-321 | after a batch, the active index is the position of the last entry that intersects and names a section |
| `SectionPager.BatchChangedHasWitness` | Scr/App.jsx:315-321 | a changed active index always comes from a qualifying entry of the batch with no qualifying entry after it |
| `SectionPager.BatchConcat` | Scr/App.jsx:315-321 | two successive batches have the same effect as one batch holding both |
| `SectionPager.HomeThenValue` | Scr/App.jsx:303-321 | "home" then "value" intersecting in one batch makes "value" (index 1) active |
| `SectionPager.AriaCurrent` | Scr/App.jsx:428 | with distinct section ids, a header link is `aria-current` exactly when its id's position in the section list is the active index |
| `SectionPager.DotLit` | Scr/App.jsx:1002 | only a rendered pager dot can be lit, and the active section's dot is always lit |
| `SectionPager.HighlightsAgree` | Scr/App.jsx:1002 | a section's header link is `aria-current` exactly when its pager dot is lit; the active dot is lit and no other dot is, so exactly one dot is lit |
| `SectionPager.AtMostOneNavCurrent` | Scr/App.jsx:404-428 | at most one of the six header links is current at a time |
| `SectionPager.ActionOfKey` | Scr/App.jsx:357-360 | "ArrowRight" gives exactly the next action, "ArrowLeft" exactly the previous action, and every other key no action |
| `SectionPager.Pager.constructor` | Scr/App.jsx:303-304 | the pager starts with the fixed section list and section 0 active |
| `SectionPager.Pager.OnIntersect` | Scr/App.jsx:315-321 | the observer callback's loop leaves `active` equal to `BatchActive` of the old index and the batch, and in range |
| `SectionPager.Pager.ScrollToId` | Scr/App.jsx:342-350 | with no region for the id the fragment is unchanged; with a region (and `history`) it becomes `"#" + id`; `active` never changes |
| `SectionPager.Pager.GoNext` | Scr/App.jsx:352 | navigates to the section at `NextIndex(active)` and leaves `active` unchanged |
| `SectionPager.Pager.GoPrev` | Scr/App.jsx:353 | navigates to the section at `PrevIndex(active)` and leaves `active` unchanged |
| `SectionPager.Pager.OnKey` | Scr/App.jsx:356-360 | ArrowRight performs the next navigation, ArrowLeft the previous one, any other key changes nothing |
| `SectionPager.NextAtLastStays` | Scr/App.jsx:352-360 | pressing ArrowRight twice at the last section keeps `active` there and targets the last section each time |
| `Language.GetItem` | Scr/App.jsx:278 | `getItem` returns the stored value when the key is present and null otherwise |
| `Language.Lower` | Scr/App.jsx:280 | lower-casing keeps the length and lower-cases each character |
| `Language.LowerStartsWithAr` | Scr/App.jsx:280-281 | the lower-cased locale starts with "ar" exactly when its first two characters are a/A and r/R |
| `Language.LocaleOf` | Scr/App.jsx:280 | the inspected locale is `navigator.language`, or "" when it is missing |
| `Language.GetInitialLang` | Scr/App.jsx:276-282 | the result is never empty; no window gives "ar"; a non-empty stored value is returned as is; otherwise an Arabic locale gives "ar" and anything else "en" |
| `Language.Toggle` | Scr/App.jsx:437 | the toggle always yields "ar" or "en", and yields "en" exactly when the current language is "ar" |
| `Language.Persist` | Scr/App.jsx:285-289 | with a window, the language is stored under the key `lang`; without one, storage is unchanged |
| `Language.ToggleInvolutive` | Scr/App.jsx:437 | toggling twice restores "ar" and "en" |
| `Language.ToggleTwiceOther` | Scr/App.jsx:437 | any other stored value becomes "ar" after one toggle and "en" after two |
| `Language.ReloadRestoresLang` | Scr/App.jsx:276-289 | a persisted non-empty language is what the next start-up resolves, whatever the locale |
| `Language.ToggleTimes` | Scr/App.jsx:437 | after at least one press the language is "ar" or "en" |
| `Language.ToggleTimesParity` | Scr/App.jsx:437 | from "ar" or "en", an even number of presses returns to the start and an odd number gives the other language |
| `Language.UnsupportedStoredLangKept` | Scr/App.jsx:276-289 | a non-empty stored value other than "ar" or "en" is what start-up resolves, and writing it back at mount keeps it, so each reload resolves it again |
| `Language.SessionReload` | Scr/App.jsx:276-289 | after start-up (whose language is written at mount) and any number of persisted presses, including none, a reload yields the language last shown |

## Left out

- Rendering, styling, animation and the static content tables (texts, projects, certificates, experience lists): these are presentation data with no behaviour.
- The observer's geometry (root margin and thresholds): this is a browser layout computation. The model takes the entry batch the callback receives as its input.
- `scrollIntoView`: this is a foreign DOM call. Only the fragment effect of `scrollToId` is modelled, so the model does not say that a scroll happens.
- `history.replaceState`: it is modelled only as the assignment of the fragment. The difference between replacing and pushing a history entry is not modelled.
- Effect lifecycle and listener teardown (installing and disconnecting the observer, adding and removing the key listener, the effect re-running on every render): this is React scheduling, not sequential logic.
- React state batching: the callback's `setActive` calls are modelled as direct assignments in order. React applies queued updates in order, so the final value is the same.
- The DOM's set of rendered regions is a constant of the `Pager` object. The model does not say when regions appear.
- `Language.Lower`: it lower-cases only the ASCII letters A-Z, while JavaScript's `toLowerCase` covers all of Unicode. For the "starts with ar" decision the two agree, because no other character lower-cases to a string starting with "a" or "r".
- Local-storage and navigator I/O: both are inputs and outputs of the functions here. Storage exceptions (for example, when storage is disabled) are not modelled.
- The chart with its value formatter (floating-point formatting around a library not shown), the QR code, the contact form and the forced dark mode.
