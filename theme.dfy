/**
 * The light/dark theme preference. The page reads it once from the browser's
 * key-value storage when it mounts, flips it with the theme button, and after
 * every change writes it back to storage and to the `data-theme` attribute of
 * the root element.
 *
 * The theme is a string, as the page has it: the stored value is only cast to
 * the `'light' | 'dark'` type, never checked, so any non-empty stored string
 * becomes the theme.
 */
module Theme {

  datatype Option<T> = None | Some(value: T)

  /** The storage key the preference lives under. */
  const Key: string := "theme"
  const Light: string := "light"
  const Dark: string := "dark"

  /** `getItem`: the stored string, or nothing (`null`) for a missing key. */
  function GetItem(storage: map<string, string>, key: string): (r: Option<string>)
    ensures r.Some? <==> key in storage
    ensures r.Some? ==> r.value == storage[key]
  {
    if key in storage then Some(storage[key]) else None
  }

  /** The theme the page starts with: the stored string unless it is missing or empty. */
  function InitialTheme(stored: Option<string>): (t: string)
    ensures t != ""
    ensures stored.Some? && stored.value != "" ==> t == stored.value
    ensures stored.None? || stored.value == "" ==> t == Light
  {
    match stored
    case Some(s) => if s != "" then s else Light
    case None => Light
  }

  /** The theme button: light becomes dark, anything else becomes light. */
  function Toggled(prev: string): (t: string)
    ensures t == Light || t == Dark
    ensures t != prev
    ensures t == Dark <==> prev == Light
  {
    if prev == Light then Dark else Light
  }

  /** On the two themes the page means to store, toggling twice is the identity. */
  lemma ToggleTwiceRestores(t: string)
    requires t == Light || t == Dark
    ensures Toggled(Toggled(t)) == t
  {
  }

  /** A stored value that is neither theme is not restored by two toggles: it ends up dark. */
  lemma ToggleTwiceOfOtherValue(t: string)
    requires t != Light && t != Dark
    ensures Toggled(t) == Light
    ensures Toggled(Toggled(t)) == Dark
  {
  }

  /**
   * A reload reads back what was persisted: once storage holds a non-empty
   * theme, the next mount starts with it.
   */
  lemma ReloadRestoresTheme(storage: map<string, string>, t: string)
    requires Key in storage && storage[Key] == t && t != ""
    ensures InitialTheme(GetItem(storage, Key)) == t
  {
  }

  /** A stored dark preference survives a reload; an absent one gives light. */
  lemma ReloadExamples(storage: map<string, string>)
    ensures InitialTheme(GetItem(storage[Key := Dark], Key)) == Dark
    ensures InitialTheme(GetItem(storage - {Key}, Key)) == Light
  {
  }

  /**
   * The page's theme state together with what it writes to the host: the
   * storage map and the root element's `data-theme` attribute.
   */
  class ThemeState {
    var theme: string
    var storage: map<string, string>
    var dataTheme: Option<string>

    /** After every change, storage and the document attribute both hold the current theme. */
    ghost predicate Persisted()
      reads this
    {
      GetItem(storage, Key) == Some(theme) && dataTheme == Some(theme)
    }

    /**
     * Mounting the page: the initial theme is read from `stored`, and the
     * persistence effect then runs once for it.
     */
    constructor Mount(stored: map<string, string>, attribute: Option<string>)
      ensures theme == InitialTheme(GetItem(stored, Key))
      ensures storage == stored[Key := theme]
      ensures dataTheme == Some(theme)
      ensures Persisted()
    {
      theme := InitialTheme(GetItem(stored, Key));
      storage := stored;
      dataTheme := attribute;
      new;
      PersistEffect();
    }

    /** The effect that runs after the theme changes: write it to the document and to storage. */
    method PersistEffect()
      modifies this
      ensures theme == old(theme)
      ensures dataTheme == Some(theme)
      ensures storage == old(storage)[Key := theme]
      ensures Persisted()
    {
      dataTheme := Some(theme);
      storage := storage[Key := theme];
    }

    /**
     * The theme button: flip the theme, then the effect persists it. The
     * third postcondition spells out the frame the second implies: every
     * other storage key keeps its value.
     */
    method Toggle()
      modifies this
      ensures theme == Toggled(old(theme))
      ensures storage == old(storage)[Key := theme]
      ensures forall k :: k in old(storage) && k != Key ==> k in storage && storage[k] == old(storage)[k]
      ensures Persisted()
    {
      theme := Toggled(theme);
      PersistEffect();
    }
  }
}
