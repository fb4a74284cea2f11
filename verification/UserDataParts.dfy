/** The parts of a user's data, which operations set them, and what is read back. */
module UserDataParts {
  import opened Wrappers
  import opened UserData

  // ---------------------------------------------------------------- what an operation sets

  /** The parts of a user's data that are set on their own. */
  datatype Part = DebugPart | SongPart | OptionsPart | WelcomePart | TrackPart | MetaDataPart | V2Part | LanguagePart

  predicate SameAt(a: Meaning, b: Meaning, p: Part) {
    match p
    case DebugPart => a.settings.allowedToDebug == b.settings.allowedToDebug
    case SongPart => a.settings.lastSongInfo == b.settings.lastSongInfo
    case OptionsPart => a.settings.defaultRecommendationOptions == b.settings.defaultRecommendationOptions
    case WelcomePart => a.settings.showWelcomeMessage == b.settings.showWelcomeMessage
    case TrackPart => a.settings.osuTrackWelcomeEnabled == b.settings.osuTrackWelcomeEnabled
    case MetaDataPart => a.settings.showMapMetaDataOnRecommendation == b.settings.showMapMetaDataOnRecommendation
    case V2Part => a.settings.v2 == b.settings.v2
    case LanguagePart => a.languageId == b.languageId && a.languageState == b.languageState
  }

  function PartOf(c: Change): Part {
    match c
    case AllowedToDebug(_) => DebugPart
    case LastSongInfo(_) => SongPart
    case DefaultRecommendationOptions(_) => OptionsPart
    case ShowWelcomeMessage(_) => WelcomePart
    case OsuTrackWelcomeEnabled(_) => TrackPart
    case ShowMapMetaDataOnRecommendation(_) => MetaDataPart
    case V2(_) => V2Part
  }

  /** A setter sets its part; the language is set by a switch to another one and by a change of a mutable one. */
  predicate SetsPart(w: Languages, a: Meaning, op: Op, p: Part) {
    match op
    case Set(c) => p == PartOf(c)
    case SetLanguage(id) => p == LanguagePart && id != a.languageId
    case UseLanguage(newState) => p == LanguagePart && newState.Some? && w.isMutable(a.languageId)
  }

  /** One of the operations sets the part. */
  predicate Sets(w: Languages, a: Meaning, ops: seq<Op>, p: Part)
    decreases |ops|
  {
    |ops| > 0 && (SetsPart(w, a, ops[0], p) || Sets(w, Intend(w, a, ops[0]), ops[1..], p))
  }

  /** A session of these operations on the row counts as changed when it closes. */
  predicate Changes(w: Languages, row: Option<Row>, ops: seq<Op>) {
    IsChanged(ApplyAll(w, Load(row), ops))
  }

  lemma SameVia(a: Meaning, b: Meaning, c: Meaning, p: Part)
    requires SameAt(a, b, p)
    ensures SameAt(a, c, p) <==> SameAt(b, c, p)
    ensures SameAt(c, a, p) <==> SameAt(c, b, p)
  {
  }

  lemma UnsetByOne(w: Languages, a: Meaning, op: Op, p: Part)
    requires !SetsPart(w, a, op, p)
    ensures SameAt(Intend(w, a, op), a, p)
  {
  }

  /** A part that is not set stays as it was. */
  lemma {:induction false} UnsetStays(w: Languages, a: Meaning, ops: seq<Op>, p: Part)
    requires !Sets(w, a, ops, p)
    ensures SameAt(IntendAll(w, a, ops), a, p)
    decreases |ops|
  {
    hide SetsPart, Intend;
    if |ops| > 0 {
      var a1 := Intend(w, a, ops[0]);
      UnsetByOne(w, a, ops[0], p);
      UnsetStays(w, a1, ops[1..], p);
      SameVia(a1, a, IntendAll(w, a, ops), p);
    }
  }

  lemma SameEverywhere(a: Meaning, b: Meaning)
    ensures (forall p :: SameAt(a, b, p)) <==> a == b
  {
    if forall p :: SameAt(a, b, p) {
      assert SameAt(a, b, DebugPart) && SameAt(a, b, SongPart) && SameAt(a, b, OptionsPart);
      assert SameAt(a, b, WelcomePart) && SameAt(a, b, TrackPart) && SameAt(a, b, MetaDataPart);
      assert SameAt(a, b, V2Part) && SameAt(a, b, LanguagePart);
    }
  }

  // ---------------------------------------------------------------- what is read back

  /** What a user has who was never stored. */
  lemma NewUser(w: Languages)
    ensures var m := RowMeaning(w, None);
      && !m.settings.allowedToDebug && !m.settings.v2 && !m.settings.osuTrackWelcomeEnabled
      && m.settings.showWelcomeMessage && m.settings.showMapMetaDataOnRecommendation
      && m.settings.lastSongInfo == None && m.settings.defaultRecommendationOptions == None
      && m.languageId == DEFAULT_LANGUAGE && m.languageState == w.initial(DEFAULT_LANGUAGE)
  {
  }

  /** The part has the value that the operation gives it. */
  predicate Has(w: Languages, a: Meaning, op: Op) {
    match op
    case Set(AllowedToDebug(b)) => a.settings.allowedToDebug == b
    case Set(LastSongInfo(i)) => a.settings.lastSongInfo == i
    case Set(DefaultRecommendationOptions(o)) => a.settings.defaultRecommendationOptions == o
    case Set(ShowWelcomeMessage(b)) => a.settings.showWelcomeMessage == b
    case Set(OsuTrackWelcomeEnabled(b)) => a.settings.osuTrackWelcomeEnabled == b
    case Set(ShowMapMetaDataOnRecommendation(b)) => a.settings.showMapMetaDataOnRecommendation == b
    case Set(V2(b)) => a.settings.v2 == b
    case SetLanguage(id) => a.languageId == id && a.languageState == w.initial(id)
    case UseLanguage(newState) => newState.Some? ==> a.languageState == newState.value
  }

  lemma HasAfter(w: Languages, a: Meaning, op: Op, p: Part, b: Meaning)
    requires SetsPart(w, a, op, p) && SameAt(b, Intend(w, a, op), p)
    ensures Has(w, b, op)
  {
  }

  lemma {:induction false} IntendConcat(w: Languages, a: Meaning, x: seq<Op>, y: seq<Op>)
    ensures IntendAll(w, a, x + y) == IntendAll(w, IntendAll(w, a, x), y)
    decreases |x|
  {
    if |x| == 0 {
      assert x + y == y;
    } else {
      assert (x + y)[1..] == x[1..] + y;
      IntendConcat(w, Intend(w, a, x[0]), x[1..], y);
    }
  }

  /**
   * What is read back after a session: for every part that it sets, the value of the last operation that does, and
   * for every other part what was stored before.
   */
  lemma LastSetIsReadBack(w: Languages, row: Option<Row>, before: seq<Op>, op: Op, after: seq<Op>, p: Part)
    requires SetsPart(w, IntendAll(w, RowMeaning(w, row), before), op, p)
    requires !Sets(w, Intend(w, IntendAll(w, RowMeaning(w, row), before), op), after, p)
    ensures Has(w, RowMeaning(w, Save(w, ApplyAll(w, Load(row), before + [op] + after), row).1), op)
  {
    var a := IntendAll(w, RowMeaning(w, row), before);
    var b := Intend(w, a, op);
    SessionStoresEverything(w, row, before + [op] + after);
    IntendConcat(w, RowMeaning(w, row), before + [op], after);
    IntendConcat(w, RowMeaning(w, row), before, [op]);
    assert IntendAll(w, a, [op]) == IntendAll(w, b, [op][1..]) == b;
    UnsetStays(w, b, after, p);
    HasAfter(w, a, op, p, IntendAll(w, b, after));
  }

  lemma UnsetIsReadBack(w: Languages, row: Option<Row>, ops: seq<Op>, p: Part)
    requires !Sets(w, RowMeaning(w, row), ops, p)
    ensures SameAt(RowMeaning(w, Save(w, ApplyAll(w, Load(row), ops), row).1), RowMeaning(w, row), p)
  {
    SessionStoresEverything(w, row, ops);
    UnsetStays(w, RowMeaning(w, row), ops, p);
  }

  /** A session that changes nothing writes nothing, and a language that reports no change is not written anew. */
  lemma WritesLittle(w: Languages, m: Memory, row: Option<Row>)
    ensures !m.changed && (m.language.None? || !m.language.value.modified) ==> Save(w, m, row) == (m, row)
    ensures m.language.None? || !m.language.value.modified ==>
      Save(w, m, row).1 == row || (Save(w, m, row).1.Some? && Save(w, m, row).1.value.serialized == m.serialized)
  {
  }
}
