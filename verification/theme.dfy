/** The theme provider src/contexts/ThemeContext.tsx: the chosen theme, the system's
    light/dark preference, the automatic mode, and how they are kept in
    `localStorage`. Storage is a map from keys to strings passed in and returned;
    `matchMedia` is a boolean passed in. */
module Theme {
  import opened Common

  /** The `ThemeName`s in toggle order. */
  const Names: seq<string> := ["default", "dark", "bookish", "forest", "ocean", "sunset", "lavender"]

  /** The `themes` record: each name with its display label. */
  const Labels: map<string, string> := map[
    "default" := "Default", "dark" := "Dark", "bookish" := "Bookish", "forest" := "Forest",
    "ocean" := "Ocean", "sunset" := "Sunset", "lavender" := "Lavender"]

  /** `systemTheme`. */
  datatype SystemTheme = Light | Dark

  /** The provider's state. The theme is a string: a name read back from storage is
      used as it is, whether or not it is one of the seven. */
  datatype ThemeState = ThemeState(theme: string, systemTheme: SystemTheme, autoTheme: bool)

  /** `localStorage`. */
  type Storage = map<string, string>

  const ThemeKey := "theme"
  const AutoKey := "autoTheme"

  /** The theme the automatic mode picks for a system preference. */
  function AutoTheme(system: SystemTheme): (t: string)
    ensures t in Names
    ensures t == "dark" <==> system == Dark
  {
    if system == Dark then "dark" else "default"
  }

  /** Every theme name has a label, and every label belongs to a theme name. */
  lemma LabelsCoverNames()
    ensures forall t :: t in Labels <==> t in Names
  {
    assert Labels.Keys == {"default", "dark", "bookish", "forest", "ocean", "sunset", "lavender"};
  }

  /** There are seven themes: seven names and seven labels. */
  lemma SevenThemes()
    ensures |Names| == 7 && |Labels| == 7
  {
    assert Labels.Keys == {"default", "dark", "bookish", "forest", "ocean", "sunset", "lavender"};
  }

  /** `themeNames.indexOf(theme)`: the position of a theme name, or -1. */
  function IndexOfTheme(t: string): (i: int)
    ensures -1 <= i < |Names|
    ensures i >= 0 ==> Names[i] == t
    ensures i == -1 <==> t !in Names
  {
    if t == "default" then 0 else if t == "dark" then 1 else if t == "bookish" then 2
    else if t == "forest" then 3 else if t == "ocean" then 4 else if t == "sunset" then 5
    else if t == "lavender" then 6 else -1
  }

  /** No theme name occurs twice, so the toggle order visits each theme once. */
  lemma NamesDistinct()
    ensures forall i, j :: 0 <= i < j < |Names| ==> Names[i] != Names[j]
  {
    forall i, j | 0 <= i < j < |Names|
      ensures Names[i] != Names[j]
    {
      assert IndexOfTheme(Names[i]) == i;
      assert IndexOfTheme(Names[j]) == j;
    }
  }

  /** handleSetTheme: the given theme, and the automatic mode switched off. */
  function SetTheme(st: ThemeState, t: string): (r: ThemeState)
    ensures r.theme == t && !r.autoTheme && r.systemTheme == st.systemTheme
  {
    st.(theme := t, autoTheme := false)
  }

  /** toggleTheme: the next of the seven themes in order, the last wrapping round to
      the first and an unknown theme going to the first; automatic mode goes off. */
  function Toggle(st: ThemeState): (r: ThemeState)
    ensures r.theme in Names && !r.autoTheme && r.systemTheme == st.systemTheme
    ensures st.theme !in Names ==> r.theme == "default"
    ensures st.theme in Names ==> r.theme == Names[(IndexOfTheme(st.theme) + 1) % |Names|]
  {
    var i := IndexOfTheme(st.theme);
    NextIndexIsModulo(i, |Names|);
    SetTheme(st, Names[NextIndex(i, |Names|)])
  }

  /** k presses of the toggle. */
  function ToggleTimes(st: ThemeState, k: nat): ThemeState
    decreases k
  {
    if k == 0 then st else Toggle(ToggleTimes(st, k - 1))
  }

  /** From the theme at position i, k toggles (k at least one) reach the theme k
      steps further round the list. */
  lemma {:induction false} ToggleTimesPosition(st: ThemeState, i: nat, k: nat)
    requires i < |Names| && st.theme == Names[i] && k >= 1
    ensures ToggleTimes(st, k).theme == Names[PositionAfter(i, |Names|, k)]
    ensures !ToggleTimes(st, k).autoTheme
    decreases k
  {
    if k > 1 {
      ToggleTimesPosition(st, i, k - 1);
    }
    var p := PositionAfter(i, |Names|, k - 1);
    assert ToggleTimes(st, k - 1).theme == Names[p];
    assert IndexOfTheme(Names[p]) == p;
  }

  /** Seven toggles come back to the theme one started from, with the automatic
      mode off. */
  lemma SevenTogglesReturn(st: ThemeState)
    requires st.theme in Names
    ensures ToggleTimes(st, 7).theme == st.theme && !ToggleTimes(st, 7).autoTheme
  {
    var i := IndexOfTheme(st.theme);
    ToggleTimesPosition(st, i, 7);
    PositionFullCircle(i, |Names|);
  }

  /** What handleSetAutoTheme leaves: the state and the storage. */
  datatype ThemeStep = ThemeStep(state: ThemeState, storage: Storage)

  /** handleSetAutoTheme: turning the automatic mode on picks the system's theme and
      forgets the stored manual theme; turning it off keeps the current theme. */
  function SetAutoTheme(st: ThemeState, storage: Storage, auto: bool): (r: ThemeStep)
    ensures r.state.autoTheme == auto && r.state.systemTheme == st.systemTheme
    ensures auto ==> r.state.theme == AutoTheme(st.systemTheme) && r.storage == storage - {ThemeKey}
    ensures !auto ==> r.state.theme == st.theme && r.storage == storage
  {
    if auto then ThemeStep(st.(autoTheme := true, theme := AutoTheme(st.systemTheme)), storage - {ThemeKey})
    else ThemeStep(st.(autoTheme := false), storage)
  }

  /** The `change` listener on the colour-scheme query: the system theme follows the
      query, and so does the theme while the automatic mode is on. */
  function SystemChange(st: ThemeState, prefersDark: bool): (r: ThemeState)
    ensures r.systemTheme == (if prefersDark then Dark else Light) && r.autoTheme == st.autoTheme
    ensures st.autoTheme ==> r.theme == AutoTheme(r.systemTheme)
    ensures !st.autoTheme ==> r.theme == st.theme
  {
    var system := if prefersDark then Dark else Light;
    if st.autoTheme then st.(systemTheme := system, theme := AutoTheme(system))
    else st.(systemTheme := system)
  }

  /** The effect that runs whenever the theme or the mode changes: a manual theme is
      stored, the mode is always stored, and nothing else in storage changes. */
  function Persist(st: ThemeState, storage: Storage): (r: Storage)
    ensures AutoKey in r && (r[AutoKey] == "true" <==> st.autoTheme)
    ensures !st.autoTheme ==> ThemeKey in r && r[ThemeKey] == st.theme
    ensures st.autoTheme ==> (ThemeKey in r <==> ThemeKey in storage)
    ensures st.autoTheme && ThemeKey in r ==> r[ThemeKey] == storage[ThemeKey]
    ensures forall k :: k != ThemeKey && k != AutoKey ==> (k in r <==> k in storage)
    ensures forall k :: k != ThemeKey && k != AutoKey && k in r ==> r[k] == storage[k]
  {
    var s1 := if !st.autoTheme then storage[ThemeKey := st.theme] else storage;
    s1[AutoKey := if st.autoTheme then "true" else "false"]
  }

  /** The provider as it stands after its first render and its effects: the mode as
      stored, the theme from the system while automatic and otherwise the stored
      theme or `default`, and the system theme from the colour-scheme query. */
  function Mount(storage: Storage, prefersDark: bool): (st: ThemeState)
    ensures st.autoTheme <==> AutoKey in storage && storage[AutoKey] == "true"
    ensures st.systemTheme == if prefersDark then Dark else Light
    ensures st.autoTheme ==> st.theme == AutoTheme(st.systemTheme)
    ensures !st.autoTheme && ThemeKey in storage && storage[ThemeKey] != "" ==> st.theme == storage[ThemeKey]
    ensures !st.autoTheme && (ThemeKey !in storage || storage[ThemeKey] == "") ==> st.theme == "default"
  {
    var auto := AutoKey in storage && storage[AutoKey] == "true";
    var system := if prefersDark then Dark else Light;
    var theme :=
      if auto then AutoTheme(system)
      else if ThemeKey in storage && storage[ThemeKey] != "" then storage[ThemeKey]
      else "default";
    ThemeState(theme, system, auto)
  }

  /** While the automatic mode is on, the theme is the one the system preference
      picks. */
  predicate FollowsSystem(st: ThemeState) {
    st.autoTheme ==> st.theme == AutoTheme(st.systemTheme)
  }

  /** The automatic mode really is automatic: after mounting and after every
      handler, whatever state it started from, the theme follows the system
      preference while the mode is on. */
  lemma AutoFollowsSystem(st: ThemeState, storage: Storage, prefersDark: bool, t: string, auto: bool)
    ensures FollowsSystem(Mount(storage, prefersDark))
    ensures FollowsSystem(SystemChange(st, prefersDark))
    ensures FollowsSystem(SetTheme(st, t)) && FollowsSystem(Toggle(st))
    ensures FollowsSystem(SetAutoTheme(st, storage, auto).state)
  {
  }

  /** A manually chosen theme survives a reload: persisting it and mounting again
      gives the same theme, still manual, whatever the system prefers then. */
  lemma ManualThemeSurvivesReload(st: ThemeState, storage: Storage, prefersDark: bool)
    requires !st.autoTheme && st.theme != ""
    ensures Mount(Persist(st, storage), prefersDark).theme == st.theme
    ensures !Mount(Persist(st, storage), prefersDark).autoTheme
  {
  }

  /** The automatic mode survives a reload, and the theme then follows the system
      preference at reload time, whatever manual theme was stored before. */
  lemma AutoModeSurvivesReload(st: ThemeState, storage: Storage, prefersDark: bool)
    requires st.autoTheme
    ensures Mount(Persist(st, storage), prefersDark).autoTheme
    ensures Mount(Persist(st, storage), prefersDark).theme == (if prefersDark then "dark" else "default")
  {
  }

  /** Choosing a theme and reloading shows that theme. */
  lemma ChosenThemeSurvivesReload(st: ThemeState, storage: Storage, t: string, prefersDark: bool)
    requires t in Names
    ensures Mount(Persist(SetTheme(st, t), storage), prefersDark).theme == t
  {
    ManualThemeSurvivesReload(SetTheme(st, t), storage, prefersDark);
  }

  /** Switching the automatic mode on and reloading never brings back the manual
      theme stored before. */
  lemma AutoModeForgetsManualTheme(st: ThemeState, storage: Storage, prefersDark: bool)
    ensures var r := SetAutoTheme(st, storage, true);
      var stored := Persist(r.state, r.storage);
      ThemeKey !in stored && Mount(stored, prefersDark).theme == AutoTheme(Mount(stored, prefersDark).systemTheme)
  {
  }
}
