/** The page's language preference: how the initial language is chosen at
    start-up (stored preference, then the browser locale, then Arabic), how the
    header button toggles it, and how it is written back to the browser's
    local storage at mount and after each change so that a reload restores it. */
module Language {

  datatype Option<T> = None | Some(value: T)

  /** The local-storage key under which the preference is kept. */
  const LangKey: string := "lang"

  /** The browser's local storage, as a dictionary from keys to strings. */
  type Storage = map<string, string>

  /** `localStorage.getItem(key)`: the stored string, or null (None). */
  function GetItem(store: Storage, key: string): (r: Option<string>)
    ensures r.Some? <==> key in store
    ensures r.Some? ==> r.value == store[key]
  {
    if key in store then Some(store[key]) else None
  }

  /** JavaScript truthiness of a value that is a string or null. */
  predicate Truthy(v: Option<string>) {
    v.Some? && v.value != ""
  }

  /** Lower-casing of one character (the ASCII letters A-Z; every other
      character is left as it is). */
  function LowerChar(c: char): char {
    if 'A' <= c <= 'Z' then (c as int + 32) as char else c
  }

  /** `s.toLowerCase()` on the ASCII letters. */
  function Lower(s: string): (r: string)
    ensures |r| == |s|
    ensures forall i :: 0 <= i < |s| ==> r[i] == LowerChar(s[i])
  {
    if s == [] then [] else [LowerChar(s[0])] + Lower(s[1..])
  }

  /** `s.startsWith(p)`. */
  predicate StartsWith(s: string, p: string) {
    |p| <= |s| && s[..|p|] == p
  }

  /** A locale is Arabic when its first two characters are "ar" in any mix
      of upper and lower case. This is an independent statement of what
      `locale.toLowerCase().startsWith("ar")` decides. */
  predicate IsArabicLocale(locale: string) {
    |locale| >= 2 && (locale[0] == 'a' || locale[0] == 'A') && (locale[1] == 'r' || locale[1] == 'R')
  }

  lemma LowerStartsWithAr(locale: string)
    ensures StartsWith(Lower(locale), "ar") <==> IsArabicLocale(locale)
  {
    var low := Lower(locale);
    if |locale| >= 2 {
      assert low[..2] == [low[0], low[1]];
      assert low[0] == LowerChar(locale[0]) && low[1] == LowerChar(locale[1]);
    }
  }

  /** The locale string the resolver inspects: `(navigator.language || "")`. */
  function LocaleOf(navLanguage: Option<string>): (r: string)
    ensures navLanguage.Some? ==> r == navLanguage.value
    ensures navLanguage.None? ==> r == ""
  {
    if Truthy(navLanguage) then navLanguage.value else ""
  }

  /** `getInitialLang`: with no window the page is Arabic; otherwise a
      non-empty stored preference wins, unvalidated; otherwise the browser
      locale decides between "ar" and "en". */
  function GetInitialLang(hasWindow: bool, store: Storage, navLanguage: Option<string>): (r: string)
    ensures r != ""
    ensures !hasWindow ==> r == "ar"
    ensures hasWindow && LangKey in store && store[LangKey] != "" ==> r == store[LangKey]
    ensures hasWindow && (LangKey !in store || store[LangKey] == "") ==>
              r == (if navLanguage.Some? && IsArabicLocale(navLanguage.value) then "ar" else "en")
  {
    if !hasWindow then "ar"
    else
      var saved := GetItem(store, LangKey);
      if Truthy(saved) then saved.value
      else
        var nav := Lower(LocaleOf(navLanguage));
        LowerStartsWithAr(LocaleOf(navLanguage));
        if StartsWith(nav, "ar") then "ar" else "en"
  }

  /** The languages the page has text tables for. */
  predicate Supported(lang: string) {
    lang == "ar" || lang == "en"
  }

  /** The language button's state updater: Arabic becomes English, and every
      other value becomes Arabic. In the page the button only ever sees a
      supported language: with any other stored value the text-table lookup
      is undefined and the page fails to render before the button exists. */
  function Toggle(p: string): (r: string)
    ensures r == "ar" || r == "en"
    ensures r == "en" <==> p == "ar"
  {
    if p == "ar" then "en" else "ar"
  }

  /** The effect that runs at mount and after every language change:
      `localStorage.setItem("lang", lang)` when a window exists. */
  function Persist(hasWindow: bool, store: Storage, lang: string): (r: Storage)
    ensures hasWindow ==> r == store[LangKey := lang]
    ensures !hasWindow ==> r == store
  {
    if hasWindow then store[LangKey := lang] else store
  }

  /** Toggling twice restores either of the two supported languages. */
  lemma ToggleInvolutive(p: string)
    requires p == "ar" || p == "en"
    ensures Toggle(Toggle(p)) == p
  {
  }

  /** The updater taken on its own: any other value is not restored by two
      toggles but replaced by English after the second one. This case cannot
      be reached through the page's button (see `Toggle`). */
  lemma ToggleTwiceOther(p: string)
    requires p != "ar" && p != "en"
    ensures Toggle(p) == "ar" && Toggle(Toggle(p)) == "en"
  {
  }

  /** Language round trip: once a language has been persisted, the next
      start-up reads it back whatever the browser locale says. */
  lemma ReloadRestoresLang(store: Storage, lang: string, navLanguage: Option<string>)
    requires lang != ""
    ensures GetInitialLang(true, Persist(true, store, lang), navLanguage) == lang
  {
  }

  /** The language after `k` presses of the toggle button, starting from `p`. */
  function ToggleTimes(p: string, k: nat): (r: string)
    ensures k > 0 ==> r == "ar" || r == "en"
  {
    if k == 0 then p else Toggle(ToggleTimes(p, k - 1))
  }

  /** From either supported language, `k` presses land on the same language
      when `k` is even and on the other one when `k` is odd. */
  lemma {:induction false} ToggleTimesParity(p: string, k: nat)
    requires p == "ar" || p == "en"
    ensures ToggleTimes(p, k) == if k % 2 == 0 then p else Toggle(p)
  {
    if k > 0 {
      ToggleTimesParity(p, k - 1);
    }
  }

  /** A stored preference is not validated: an unsupported non-empty value
      is what start-up resolves, and writing it back at mount leaves it in
      storage, so every reload resolves it again. */
  lemma UnsupportedStoredLangKept(store: Storage, navLanguage: Option<string>)
    requires LangKey in store && store[LangKey] != "" && !Supported(store[LangKey])
    ensures !Supported(GetInitialLang(true, store, navLanguage))
    ensures GetInitialLang(true, Persist(true, store, GetInitialLang(true, store, navLanguage)), navLanguage)
              == store[LangKey]
  {
  }

  /** A session: start-up resolution persisted at mount, then `k` presses
      each persisted, then a reload (with the window present) yields the
      language last shown. */
  lemma {:induction false} SessionReload(store: Storage, navLanguage: Option<string>, k: nat)
    ensures
      var lang := ToggleTimes(GetInitialLang(true, store, navLanguage), k);
      GetInitialLang(true, Persist(true, store, lang), navLanguage) == lang
  {
    var lang := ToggleTimes(GetInitialLang(true, store, navLanguage), k);
    assert lang != "";
    ReloadRestoresLang(store, lang, navLanguage);
  }
}
