/**
 * The dark-mode script (public/assets/theme.js): `updateTheme` reads the
 * stored theme, decides whether the page is dark, and writes the `dark` class
 * and the `data-theme` attribute of the document's root element.
 *
 * Reading `localStorage` may throw; the outcome of that read and the
 * `prefers-color-scheme: dark` media query are parameters. The root element is
 * a class whose class list and attribute the script updates in place.
 */
module Theme {
  import opened Wrappers

  /** The outcome of reading the `theme` key from local storage: it threw, or it gave the stored item (`None` when absent). */
  datatype StorageRead = Threw | Stored(item: Option<string>)

  /** The theme in force: a missing or empty stored item (both falsy in JavaScript) becomes `"system"`. */
  function ResolveTheme(item: Option<string>): (theme: string)
    ensures theme == "system" <==> item.None? || item.value == "" || item.value == "system"
    ensures item.Some? && item.value != "" ==> theme == item.value
    ensures theme != ""
  {
    if item.None? || item.value == "" then "system" else item.value
  }

  /** The `isDark` expression: an explicit dark theme, or the system theme on a system that prefers dark. */
  function IsDark(theme: string, systemDark: bool): (dark: bool)
    ensures theme == "dark" ==> dark
    ensures theme == "system" ==> dark == systemDark
    ensures dark ==> theme == "dark" || theme == "system"
  {
    theme == "dark" || (theme == "system" && systemDark)
  }

  /** A forced class toggle: afterwards `name` is present iff `force`; no other class changes. */
  function Toggle(classes: set<string>, name: string, force: bool): (r: set<string>)
    ensures name in r <==> force
    ensures forall c :: c in r && c != name ==> c in classes
    ensures forall c :: c in classes && c != name ==> c in r
  {
    if force then classes + {name} else classes - {name}
  }

  /** What the script can see and change on the root element. */
  datatype Root = Root(classes: set<string>, dataTheme: Option<string>)

  /**
   * The root element after `updateTheme`. When the storage read throws, the
   * `dark` class follows the system preference and `data-theme` is left as it
   * was; otherwise the `dark` class follows `isDark` and `data-theme` is the
   * resolved theme.
   */
  function Updated(root: Root, storage: StorageRead, systemDark: bool): (r: Root)
    ensures storage.Threw? ==> ("dark" in r.classes <==> systemDark) && r.dataTheme == root.dataTheme
    ensures storage.Stored? ==> ("dark" in r.classes <==> IsDark(ResolveTheme(storage.item), systemDark))
    ensures storage.Stored? ==> r.dataTheme == Some(ResolveTheme(storage.item))
    ensures forall c :: c != "dark" ==> (c in r.classes <==> c in root.classes)
  {
    match storage
    case Threw => Root(Toggle(root.classes, "dark", systemDark), root.dataTheme)
    case Stored(item) =>
      var theme := ResolveTheme(item);
      Root(Toggle(root.classes, "dark", IsDark(theme, systemDark)), Some(theme))
  }

  /** In terms of the raw stored item: dark iff it is `"dark"`, or it means "system" and the system prefers dark. */
  lemma DarkIffStored(item: Option<string>, systemDark: bool)
    ensures IsDark(ResolveTheme(item), systemDark) <==>
            item == Some("dark") || ((item.None? || item == Some("") || item == Some("system")) && systemDark)
  {
  }

  /** The per-case reading of `ResolveTheme` for the two falsy stored items: a missing or empty stored theme is the system theme. */
  lemma MissingThemeIsSystem()
    ensures ResolveTheme(None) == "system" && ResolveTheme(Some("")) == "system"
  {
  }

  /** `"light"`, or any unknown non-empty value, is never dark, whatever the system prefers. */
  lemma OtherThemesLight(stored: string, systemDark: bool)
    requires stored != "" && stored != "dark" && stored != "system"
    ensures !IsDark(ResolveTheme(Some(stored)), systemDark)
    ensures ResolveTheme(Some(stored)) == stored
  {
  }

  /** Running `updateTheme` twice with the same inputs gives what running it once gives. */
  lemma UpdateIdempotent(root: Root, storage: StorageRead, systemDark: bool)
    ensures Updated(Updated(root, storage, systemDark), storage, systemDark) == Updated(root, storage, systemDark)
  {
    var once := Updated(root, storage, systemDark);
    var twice := Updated(once, storage, systemDark);
    assert twice.classes == once.classes;
  }

  /** The class list after two calls depends only on the last call (on a system-theme change, the new preference wins). */
  lemma LastCallDecidesClasses(root: Root, first: StorageRead, firstDark: bool, storage: StorageRead, systemDark: bool)
    ensures Updated(Updated(root, first, firstDark), storage, systemDark).classes == Updated(root, storage, systemDark).classes
  {
    var a := Updated(Updated(root, first, firstDark), storage, systemDark);
    var b := Updated(root, storage, systemDark);
    assert a.classes == b.classes;
  }

  /** When storage throws, the page is dark exactly as when no theme is stored. */
  lemma FallbackMatchesMissingTheme(root: Root, systemDark: bool)
    ensures Updated(root, Threw, systemDark).classes == Updated(root, Stored(None), systemDark).classes
  {
    var a := Updated(root, Threw, systemDark);
    var b := Updated(root, Stored(None), systemDark);
    assert a.classes == b.classes;
  }

  /** `document.documentElement`: its class list and its `data-theme` attribute (`None` when absent). */
  class DocumentElement {
    var classList: set<string>
    var dataTheme: Option<string>

    constructor (classes: set<string>, dataTheme: Option<string>)
      ensures classList == classes && this.dataTheme == dataTheme
    {
      classList := classes;
      this.dataTheme := dataTheme;
    }

    /** The element as a value. */
    function State(): (r: Root)
      reads this
      ensures r.classes == classList && r.dataTheme == dataTheme
    {
      Root(classList, dataTheme)
    }

    /** Forced toggle of one class on the element. */
    method ToggleClass(name: string, force: bool)
      modifies this
      ensures classList == Toggle(old(classList), name, force)
      ensures dataTheme == old(dataTheme)
    {
      classList := Toggle(classList, name, force);
    }

    /** Sets the `data-theme` attribute. */
    method SetDataTheme(value: string)
      modifies this
      ensures dataTheme == Some(value)
      ensures classList == old(classList)
    {
      dataTheme := Some(value);
    }

    /**
     * `updateTheme`, with the outcome of the storage read and the media query
     * as parameters: the `try` block when the read succeeds, the `catch` block
     * when it throws.
     */
    method UpdateTheme(storage: StorageRead, systemDark: bool)
      modifies this
      ensures State() == Updated(old(State()), storage, systemDark)
    {
      match storage {
        case Threw =>
          ToggleClass("dark", systemDark);
        case Stored(item) =>
          var theme := ResolveTheme(item);
          var isDark := IsDark(theme, systemDark);
          ToggleClass("dark", isDark);
          SetDataTheme(theme);
      }
    }
  }
}
