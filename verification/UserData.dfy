/**
 * A user's data in one session: fields that know whether they changed, and a language object that is decoded
 * late, changed by others, and written only when something changed.
 */
module UserData {
  import opened Wrappers

  type LanguageId = nat

  const DEFAULT_LANGUAGE: LanguageId := 0

  /** What there is to know about languages: which keep a state, and the state of a new one. */
  datatype Languages = Languages(isMutable: LanguageId -> bool, initial: LanguageId -> int)

  /** A language object; `modified` is what it reports since it was last cleared. */
  datatype Language = Language(state: int, modified: bool)

  /** A language state in its serialised form; decoding gives the state back. */
  datatype Serialized = Serialized(state: int)

  datatype BeatmapWithMods = BeatmapWithMods(beatmap: int, mods: int)

  datatype Settings = Settings(
    allowedToDebug: bool, lastSongInfo: Option<BeatmapWithMods>, defaultRecommendationOptions: Option<string>,
    showWelcomeMessage: bool, osuTrackWelcomeEnabled: bool, showMapMetaDataOnRecommendation: bool, v2: bool)

  const DEFAULTS: Settings := Settings(false, None, None, true, false, true, false)

  /** The stored row: every field that is not transient. */
  datatype Row = Row(settings: Settings, languageId: LanguageId, serialized: Option<Serialized>)

  /** The object in memory. */
  datatype Memory = Memory(changed: bool, settings: Settings, languageId: LanguageId,
                           language: Option<Language>, serialized: Option<Serialized>)

  /** What a user's data means, however it is held. */
  datatype Meaning = Meaning(settings: Settings, languageId: LanguageId, languageState: int)

  function StateOf(w: Languages, id: LanguageId, serialized: Option<Serialized>): int {
    if serialized.Some? then serialized.value.state else w.initial(id)
  }

  function RowMeaning(w: Languages, row: Option<Row>): Meaning {
    if row.None? then Meaning(DEFAULTS, DEFAULT_LANGUAGE, w.initial(DEFAULT_LANGUAGE))
    else Meaning(row.value.settings, row.value.languageId, StateOf(w, row.value.languageId, row.value.serialized))
  }

  function MemoryMeaning(w: Languages, m: Memory): Meaning {
    Meaning(m.settings, m.languageId,
            if m.language.Some? then m.language.value.state else StateOf(w, m.languageId, m.serialized))
  }

  // ---------------------------------------------------------------- operations

  datatype Change =
    | AllowedToDebug(b: bool)
    | LastSongInfo(info: Option<BeatmapWithMods>)
    | DefaultRecommendationOptions(options: Option<string>)
    | ShowWelcomeMessage(b: bool)
    | OsuTrackWelcomeEnabled(b: bool)
    | ShowMapMetaDataOnRecommendation(b: bool)
    | V2(b: bool)

  function With(s: Settings, c: Change): Settings {
    match c
    case AllowedToDebug(b) => s.(allowedToDebug := b)
    case LastSongInfo(i) => s.(lastSongInfo := i)
    case DefaultRecommendationOptions(o) => s.(defaultRecommendationOptions := o)
    case ShowWelcomeMessage(b) => s.(showWelcomeMessage := b)
    case OsuTrackWelcomeEnabled(b) => s.(osuTrackWelcomeEnabled := b)
    case ShowMapMetaDataOnRecommendation(b) => s.(showMapMetaDataOnRecommendation := b)
    case V2(b) => s.(v2 := b)
  }

  /** One thing done to the object: a setter, a language switch, or a use of the language that may change it. */
  datatype Op = Set(change: Change) | SetLanguage(id: LanguageId) | UseLanguage(newState: Option<int>)

  /** The language object, decoded or made new on first use. */
  function WithLanguage(w: Languages, m: Memory): (r: Memory)
    ensures r.language.Some?
  {
    if m.language.Some? then m
    else m.(language := Some(Language(StateOf(w, m.languageId, m.serialized), false)))
  }

  /** Only mutable languages change, and they report it. */
  function Apply(w: Languages, m: Memory, op: Op): Memory {
    match op
    case Set(c) => m.(changed := m.changed || With(m.settings, c) != m.settings, settings := With(m.settings, c))
    case SetLanguage(id) =>
      if id == m.languageId then m
      else m.(changed := true, languageId := id, language := None, serialized := None)
    case UseLanguage(newState) =>
      var r := WithLanguage(w, m);
      if newState.Some? && w.isMutable(m.languageId) then r.(language := Some(Language(newState.value, true))) else r
  }

  predicate IsChanged(m: Memory) {
    m.changed || (m.language.Some? && m.language.value.modified)
  }

  function Load(row: Option<Row>): Memory {
    if row.None? then Memory(false, DEFAULTS, DEFAULT_LANGUAGE, None, None)
    else Memory(false, row.value.settings, row.value.languageId, None, row.value.serialized)
  }

  /** Nothing is written unless something changed; the language is serialised only if it was modified. */
  function Save(w: Languages, m: Memory, row: Option<Row>): (Memory, Option<Row>) {
    if !IsChanged(m) then (m, row)
    else
      var r := WithLanguage(w, m);
      var serialized := if r.language.value.modified then Some(Serialized(r.language.value.state)) else r.serialized;
      (r.(changed := false, serialized := serialized, language := Some(r.language.value.(modified := false))),
       Some(Row(r.settings, r.languageId, serialized)))
  }

  class Session {
    const languages: Languages
    var changed: bool
    var settings: Settings
    var languageId: LanguageId
    var language: Option<Language>
    var serializedLanguage: Option<Serialized>

    ghost function Value(): Memory
      reads this
    {
      Memory(changed, settings, languageId, language, serializedLanguage)
    }

    /** Loads the object from the stored row. */
    constructor (languages: Languages, row: Option<Row>)
      ensures Value() == Load(row) && this.languages == languages
    {
      this.languages := languages;
      changed, language := false, None;
      if row.None? {
        settings, languageId, serializedLanguage := DEFAULTS, DEFAULT_LANGUAGE, None;
      } else {
        settings, languageId, serializedLanguage := row.value.settings, row.value.languageId, row.value.serialized;
      }
    }

    method Change(c: Change)
      modifies this
      ensures Value() == Apply(languages, old(Value()), Set(c))
    {
      var after := With(settings, c);
      changed := changed || after != settings;
      settings := after;
    }

    method SwitchLanguage(id: LanguageId)
      modifies this
      ensures Value() == Apply(languages, old(Value()), SetLanguage(id))
    {
      if languageId != id {
        changed := true;
        languageId := id;
        language := None;
        serializedLanguage := None;
      }
    }

    method NeedLanguage()
      modifies this`language
      ensures Value() == WithLanguage(languages, old(Value()))
    {
      if language.None? {
        if serializedLanguage.Some? {
          language := Some(Language(serializedLanguage.value.state, false));
        } else {
          language := Some(Language(languages.initial(languageId), false));
        }
      }
    }

    /** Uses the language, which sets a new state or none. */
    method UsingLanguage(newState: Option<int>)
      modifies this`language
      ensures Value() == Apply(languages, old(Value()), UseLanguage(newState))
    {
      NeedLanguage();
      if newState.Some? && languages.isMutable(languageId) {
        language := Some(Language(newState.value, true));
      }
    }

    method SaveUserData(row: Option<Row>) returns (row': Option<Row>)
      modifies this
      ensures (Value(), row') == Save(languages, old(Value()), row)
    {
      row' := row;
      if !(changed || (language.Some? && language.value.modified)) {
        return;
      }
      NeedLanguage();
      if language.value.modified {
        serializedLanguage := Some(Serialized(language.value.state));
      }
      row' := Some(Row(settings, languageId, serializedLanguage));
      changed := false;
      language := Some(language.value.(modified := false));
    }
  }

  // ---------------------------------------------------------------- dirty tracking

  /**
   * What every operation keeps: while nothing counts as changed the stored row means what memory means, and a
   * language that reports no change is what its serialised form decodes to.
   */
  ghost predicate Clean(w: Languages, m: Memory, row: Option<Row>) {
    && (!IsChanged(m) ==> MemoryMeaning(w, m) == RowMeaning(w, row))
    && (m.language.Some? && !m.language.value.modified ==>
          m.language.value.state == StateOf(w, m.languageId, m.serialized))
  }

  function ApplyAll(w: Languages, m: Memory, ops: seq<Op>): Memory
    decreases |ops|
  {
    if |ops| == 0 then m else ApplyAll(w, Apply(w, m, ops[0]), ops[1..])
  }

  /** The same operations on the meaning: what always writing everything would store. */
  function Intend(w: Languages, a: Meaning, op: Op): Meaning {
    match op
    case Set(c) => a.(settings := With(a.settings, c))
    case SetLanguage(id) =>
      if id == a.languageId then a else a.(languageId := id, languageState := w.initial(id))
    case UseLanguage(newState) =>
      if newState.Some? && w.isMutable(a.languageId) then a.(languageState := newState.value) else a
  }

  function IntendAll(w: Languages, a: Meaning, ops: seq<Op>): Meaning
    decreases |ops|
  {
    if |ops| == 0 then a else IntendAll(w, Intend(w, a, ops[0]), ops[1..])
  }

  lemma ApplyKeepsClean(w: Languages, m: Memory, row: Option<Row>, op: Op)
    requires Clean(w, m, row)
    ensures Clean(w, Apply(w, m, op), row)
    ensures MemoryMeaning(w, Apply(w, m, op)) == Intend(w, MemoryMeaning(w, m), op)
  {
  }

  lemma {:induction false} ApplyAllKeepsClean(w: Languages, m: Memory, row: Option<Row>, ops: seq<Op>)
    requires Clean(w, m, row)
    ensures Clean(w, ApplyAll(w, m, ops), row)
    ensures MemoryMeaning(w, ApplyAll(w, m, ops)) == IntendAll(w, MemoryMeaning(w, m), ops)
    decreases |ops|
  {
    if |ops| > 0 {
      ApplyKeepsClean(w, m, row, ops[0]);
      ApplyAllKeepsClean(w, Apply(w, m, ops[0]), row, ops[1..]);
    }
  }

  /**
   * Loading after a session gives what the session meant to store: writing only when something changed is as
   * good as always writing everything.
   */
  lemma SessionStoresEverything(w: Languages, row: Option<Row>, ops: seq<Op>)
    ensures var (m, row') := Save(w, ApplyAll(w, Load(row), ops), row);
      && RowMeaning(w, row') == MemoryMeaning(w, Load(row')) == IntendAll(w, RowMeaning(w, row), ops)
      && MemoryMeaning(w, m) == RowMeaning(w, row')
      && !IsChanged(m) && Clean(w, m, row')
  {
    ApplyAllKeepsClean(w, Load(row), row, ops);
  }
}
