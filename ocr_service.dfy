/**
 * `parseSimData` and `validateOcrResult` of `src/services/ocrService.js`:
 * the recognised text of a Simology panel is turned into a name, an age,
 * up to three traits, an aspiration, a career and skill levels, each with a
 * confidence and translated to Swedish, and the result is judged usable or
 * not.
 */
module OcrService {
  import opened Wrappers
  import opened Text
  import opened Matching
  import opened MatchAll
  import opened Extractors
  import opened Sims4Data

  /** The confidence given to a name found by `extractPotentialName`. */
  const NAME_CONFIDENCE: int := 80
  /** The thresholds handed to the matchers, field by field. */
  const AGE_THRESHOLD: int := 80
  const TRAIT_THRESHOLD: int := 75
  const ASPIRATION_THRESHOLD: int := 70
  const CAREER_THRESHOLD: int := 70
  const SKILL_THRESHOLD: int := 70
  /** A Sim has at most three traits. */
  const MAX_TRAITS: int := 3
  /** `validateOcrResult` wants at least this many characters of trimmed text. */
  const MIN_TEXT_LENGTH: int := 10
  /** A field counts as found by `validateOcrResult` above this confidence. */
  const FOUND_CONFIDENCE: int := 50

  /** A recognised value with its confidence (the `source` tag is always `'ocr'`). */
  datatype Field = Field(value: string, confidence: int)

  /** The value of a field nothing was found for. */
  const Unset: Field := Field("", 0)

  /** A recognised skill: its Swedish name, its level and the confidence of the name. */
  datatype SkillField = SkillField(name: string, level: int, confidence: int)

  /** The `ParsedSimData` record; `rawText` is `None` when no text was given. */
  datatype ParsedSimData = ParsedSimData(
    name: Field, age: Field, traits: seq<Field>, aspiration: Field, career: Field,
    skills: seq<SkillField>, rawText: Option<string>)

  /** The record `parseSimData` starts from. */
  function Blank(rawText: Option<string>): ParsedSimData
  {
    ParsedSimData(Unset, Unset, [], Unset, Unset, [], rawText)
  }

  /** `!rawText || rawText.trim().length === 0`. */
  predicate IsBlank(rawText: Option<string>)
  {
    rawText.None? || Trim(rawText.value) == []
  }

  /** A match translated with a table, or the unset field when there is none. */
  function TranslatedField(table: seq<Entry>, m: Option<Match>): Field
  {
    match m
    case None => Unset
    case Some(found) => Field(Translate(table, found.value), found.confidence)
  }

  // ---------------------------------------------------------------------
  // Traits

  /** The lower-cased values of the traits kept so far (`seenTraits`). */
  function Keys(kept: seq<Field>): set<string>
  {
    set i | 0 <= i < |kept| :: Lower(kept[i].value)
  }

  /** Keeping one more trait adds its lower-cased value to the keys. */
  lemma KeysSnoc(kept: seq<Field>, f: Field)
    ensures Keys(kept + [f]) == Keys(kept) + {Lower(f.value)}
  {
    var r := kept + [f];
    assert forall i :: 0 <= i < |kept| ==> r[i] == kept[i];
    assert r[|kept|] == f;
  }

  /** One trait match considered: kept, translated, unless three are kept or its translation is already seen. */
  function KeepTrait(traits: seq<Entry>, kept: seq<Field>, m: Match): seq<Field>
  {
    var swedishTrait := Translate(traits, m.value);
    if |kept| >= MAX_TRAITS || Lower(swedishTrait) in Keys(kept) then kept
    else kept + [Field(swedishTrait, m.confidence)]
  }

  /** The traits kept from a list of trait matches, considered in order. */
  function UniqueTraits(traits: seq<Entry>, ms: seq<Match>): seq<Field>
    decreases |ms|
  {
    if ms == [] then [] else KeepTrait(traits, UniqueTraits(traits, ms[..|ms| - 1]), ms[|ms| - 1])
  }

  /** Once three traits are kept, later matches change nothing (the loop's `break`). */
  lemma {:induction false} UniqueTraitsCapped(traits: seq<Entry>, ms: seq<Match>, i: nat)
    requires i <= |ms| && |UniqueTraits(traits, ms[..i])| >= MAX_TRAITS
    ensures UniqueTraits(traits, ms) == UniqueTraits(traits, ms[..i])
    decreases |ms| - i
  {
    if i < |ms| {
      assert ms[..i + 1][..i] == ms[..i];
      UniqueTraitsCapped(traits, ms, i + 1);
    } else {
      assert ms[..i] == ms;
    }
  }

  /** At most three traits are kept, pairwise different ignoring case. */
  lemma {:induction false} UniqueTraitsDistinct(traits: seq<Entry>, ms: seq<Match>)
    ensures |UniqueTraits(traits, ms)| <= MAX_TRAITS
    ensures var r := UniqueTraits(traits, ms);
      forall i, j :: 0 <= i < j < |r| ==> Lower(r[i].value) != Lower(r[j].value)
    decreases |ms|
  {
    if ms != [] {
      var init := ms[..|ms| - 1];
      var last := ms[|ms| - 1];
      UniqueTraitsDistinct(traits, init);
      var kept := UniqueTraits(traits, init);
      var r := UniqueTraits(traits, ms);
      if r != kept {
        forall i, j | 0 <= i < j < |r|
          ensures Lower(r[i].value) != Lower(r[j].value)
        {
          if j == |kept| {
            assert Lower(r[i].value) in Keys(kept);
          } else {
            assert r[i] == kept[i] && r[j] == kept[j];
          }
        }
      }
    }
  }

  /** Each trait kept is the translation of one of the matches, with that match's confidence. */
  lemma {:induction false} UniqueTraitsFromMatches(traits: seq<Entry>, ms: seq<Match>)
    ensures forall f :: f in UniqueTraits(traits, ms) ==>
      exists m :: m in ms && f == Field(Translate(traits, m.value), m.confidence)
    decreases |ms|
  {
    if ms != [] {
      var init := ms[..|ms| - 1];
      UniqueTraitsFromMatches(traits, init);
      assert forall m :: m in init ==> m in ms;
    }
  }

  /** While fewer than three traits are kept, every match's translation is among them, ignoring case. */
  lemma {:induction false} UniqueTraitsComplete(traits: seq<Entry>, ms: seq<Match>)
    ensures |UniqueTraits(traits, ms)| < MAX_TRAITS ==>
      forall m :: m in ms ==> Lower(Translate(traits, m.value)) in Keys(UniqueTraits(traits, ms))
    decreases |ms|
  {
    if ms != [] {
      var init := ms[..|ms| - 1];
      var last := ms[|ms| - 1];
      UniqueTraitsComplete(traits, init);
      var kept := UniqueTraits(traits, init);
      assert forall m :: m in ms ==> m in init || m == last;
      if UniqueTraits(traits, ms) != kept {
        KeysSnoc(kept, Field(Translate(traits, last.value), last.confidence));
      }
    }
  }

  /** Earlier matches' traits come first: the traits kept from a prefix of the matches are a prefix of the traits kept. */
  lemma {:induction false} UniqueTraitsInOrder(traits: seq<Entry>, ms: seq<Match>, i: nat)
    requires i <= |ms|
    ensures UniqueTraits(traits, ms[..i]) <= UniqueTraits(traits, ms)
    decreases |ms| - i
  {
    if i < |ms| {
      var prefix := ms[..i + 1];
      assert prefix[..|prefix| - 1] == ms[..i];
      KeepTraitExtends(traits, UniqueTraits(traits, ms[..i]), ms[i]);
      assert UniqueTraits(traits, ms[..i]) <= UniqueTraits(traits, prefix);
      UniqueTraitsInOrder(traits, ms, i + 1);
    } else {
      assert ms[..i] == ms;
    }
  }

  /** Keeping a trait only ever appends to the kept list. */
  lemma KeepTraitExtends(traits: seq<Entry>, kept: seq<Field>, m: Match)
    ensures kept <= KeepTrait(traits, kept, m)
  {
  }

  // ---------------------------------------------------------------------
  // Skills

  /** The skill one line gives: its level pattern, then its name matched against the skill pool and translated. */
  function SkillOf(skills: seq<Entry>, line: string): Option<SkillField>
  {
    match ExtractSkillLevel(line)
    case None => None
    case Some(skillLevel) =>
      match BestMatch(skillLevel.name, AllNames(skills), SKILL_THRESHOLD)
      case None => None
      case Some(skillMatch) =>
        Some(SkillField(Translate(skills, skillMatch.value), skillLevel.level, skillMatch.confidence))
  }

  /** The skills of the lines, in line order, one per line that gives one. */
  function SkillsOf(skills: seq<Entry>, lines: seq<string>): seq<SkillField>
    decreases |lines|
  {
    if lines == [] then []
    else
      var last := SkillOf(skills, lines[|lines| - 1]);
      SkillsOf(skills, lines[..|lines| - 1]) + (if last.Some? then [last.value] else [])
  }

  /** One more line adds the skill it gives, if any. */
  lemma SkillsOfSnoc(skills: seq<Entry>, lines: seq<string>, i: nat)
    requires i < |lines|
    ensures SkillsOf(skills, lines[..i + 1]) ==
      SkillsOf(skills, lines[..i]) + (if SkillOf(skills, lines[i]).Some? then [SkillOf(skills, lines[i]).value] else [])
  {
    assert lines[..i + 1][..i] == lines[..i];
  }

  /** Every skill is at a level from 1 to 15, matched at confidence 70 or more, under the Swedish name of a skill. */
  lemma SkillOfFacts(skills: seq<Entry>, line: string)
    ensures match SkillOf(skills, line)
      case None => true
      case Some(skill) =>
        && 1 <= skill.level <= 15
        && SKILL_THRESHOLD <= skill.confidence <= 100
        && skill.name in SvLabels(skills)
  {
    var skillLevel := ExtractSkillLevel(line);
    if skillLevel.Some? {
      NamesMatchTranslates(skills, skillLevel.value.name, SKILL_THRESHOLD);
    }
  }

  /** The skills of two blocks of lines are those of the first block followed by those of the second: one entry per line, no merging, no cap. */
  lemma {:induction false} SkillsOfAppend(skills: seq<Entry>, a: seq<string>, b: seq<string>)
    ensures SkillsOf(skills, a + b) == SkillsOf(skills, a) + SkillsOf(skills, b)
    decreases |b|
  {
    if b == [] {
      assert a + b == a;
    } else {
      var b' := b[..|b| - 1];
      assert (a + b)[..|a + b| - 1] == a + b';
      assert (a + b)[|a + b| - 1] == b[|b| - 1];
      SkillsOfAppend(skills, a, b');
    }
  }

  /** Every skill found comes from a line, at most one per line. */
  lemma {:induction false} SkillsOfFacts(skills: seq<Entry>, lines: seq<string>)
    ensures |SkillsOf(skills, lines)| <= |lines|
    ensures forall s :: s in SkillsOf(skills, lines) ==> exists i :: 0 <= i < |lines| && SkillOf(skills, lines[i]) == Some(s)
    decreases |lines|
  {
    if lines != [] {
      var init := lines[..|lines| - 1];
      SkillsOfFacts(skills, init);
      assert forall i :: 0 <= i < |init| ==> init[i] == lines[i];
    }
  }

  // ---------------------------------------------------------------------
  // parseSimData

  /** What `parseSimData` returns, field by field, for the tables of `vocabulary`. */
  function ParseSim(vocabulary: Vocabulary, rawText: Option<string>): ParsedSimData
  {
    if IsBlank(rawText) then Blank(rawText)
    else
      var text := rawText.value;
      ParsedSimData(
        match PotentialName(text) case Some(n) => Field(n, NAME_CONFIDENCE) case None => Unset,
        TranslatedField(vocabulary.ages, BestMatch(text, AllNames(vocabulary.ages), AGE_THRESHOLD)),
        UniqueTraits(vocabulary.traits, AllMatches(text, AllNames(vocabulary.traits), TRAIT_THRESHOLD)),
        TranslatedField(Flatten(vocabulary.aspirations),
          BestMatch(text, Interleaved(Flatten(vocabulary.aspirations)), ASPIRATION_THRESHOLD)),
        TranslatedField(vocabulary.careers, BestMatch(text, AllNames(vocabulary.careers), CAREER_THRESHOLD)),
        SkillsOf(vocabulary.skills, SplitLines(text)),
        rawText)
  }

  /**
   * `parseSimData`: starts from the blank record, returns it for blank text,
   * and otherwise fills the fields one after another. The source reads the
   * tables of `src/data/sims4Data.js`; here they come in as `vocabulary`
   * (`Sims4Data.Sims4` holds them).
   */
  method ParseSimData(vocabulary: Vocabulary, rawText: Option<string>) returns (result: ParsedSimData)
    ensures result == ParseSim(vocabulary, rawText)
  {
    result := Blank(rawText);
    if rawText.None? || Trim(rawText.value) == [] {
      return;
    }
    var text := rawText.value;

    var potentialName := ExtractPotentialName(text);
    if potentialName.Some? {
      result := result.(name := Field(potentialName.value, NAME_CONFIDENCE));
    }

    var allAges := AllNames(vocabulary.ages);
    var ageMatch := FindBestMatch(text, allAges, AGE_THRESHOLD);
    if ageMatch.Some? {
      var swedishAge := Translate(vocabulary.ages, ageMatch.value.value);
      result := result.(age := Field(swedishAge, ageMatch.value.confidence));
    }

    var allTraits := AllNames(vocabulary.traits);
    var traitMatches := FindAllMatches(text, allTraits, TRAIT_THRESHOLD);
    var uniqueTraits := KeepUniqueTraits(vocabulary.traits, traitMatches);
    result := result.(traits := uniqueTraits);

    var allAspirations := GetAllAspirationNames(vocabulary.aspirations);
    var aspirationMatch := FindBestMatch(text, allAspirations, ASPIRATION_THRESHOLD);
    if aspirationMatch.Some? {
      var swedishAspiration := AspirationToSwedish(vocabulary.aspirations, aspirationMatch.value.value);
      result := result.(aspiration := Field(swedishAspiration, aspirationMatch.value.confidence));
    }

    var allCareers := AllNames(vocabulary.careers);
    var careerMatch := FindBestMatch(text, allCareers, CAREER_THRESHOLD);
    if careerMatch.Some? {
      var swedishCareer := Translate(vocabulary.careers, careerMatch.value.value);
      result := result.(career := Field(swedishCareer, careerMatch.value.confidence));
    }

    var lines := SplitLines(text);
    var skills := CollectSkills(vocabulary.skills, lines);
    result := result.(skills := skills);
  }

  /**
   * The trait loop of `parseSimData`: the trait matches translated, each
   * Swedish trait kept once ignoring case, stopping at three.
   */
  method KeepUniqueTraits(traits: seq<Entry>, traitMatches: seq<Match>) returns (uniqueTraits: seq<Field>)
    ensures uniqueTraits == UniqueTraits(traits, traitMatches)
  {
    uniqueTraits := [];
    var seenTraits: set<string> := {};
    for i := 0 to |traitMatches|
      invariant uniqueTraits == UniqueTraits(traits, traitMatches[..i])
      invariant seenTraits == Keys(uniqueTraits)
    {
      if |uniqueTraits| >= MAX_TRAITS {
        UniqueTraitsCapped(traits, traitMatches, i);
        break;
      }
      var m := traitMatches[i];
      var swedishTrait := Translate(traits, m.value);
      var traitKey := Lower(swedishTrait);
      assert traitMatches[..i + 1][..i] == traitMatches[..i];
      if traitKey !in seenTraits {
        KeysSnoc(uniqueTraits, Field(swedishTrait, m.confidence));
        seenTraits := seenTraits + {traitKey};
        uniqueTraits := uniqueTraits + [Field(swedishTrait, m.confidence)];
      }
    }
    assert traitMatches[..|traitMatches|] == traitMatches;
  }

  /**
   * The skill loop of `parseSimData`: for each line in turn, its level
   * pattern, then its name matched against the skill pool at threshold 70,
   * translated, and appended.
   */
  method CollectSkills(skills: seq<Entry>, lines: seq<string>) returns (found: seq<SkillField>)
    ensures found == SkillsOf(skills, lines)
  {
    found := [];
    var allSkills := AllNames(skills);
    for i := 0 to |lines|
      invariant found == SkillsOf(skills, lines[..i])
    {
      var line := lines[i];
      SkillsOfSnoc(skills, lines, i);
      var skillLevel := ExtractSkillLevel(line);
      if skillLevel.Some? {
        var skillMatch := FindBestMatch(skillLevel.value.name, allSkills, SKILL_THRESHOLD);
        if skillMatch.Some? {
          var swedishSkill := Translate(skills, skillMatch.value.value);
          found := found + [SkillField(swedishSkill, skillLevel.value.level, skillMatch.value.confidence)];
        }
      }
    }
    assert lines[..|lines|] == lines;
  }

  // ---------------------------------------------------------------------
  // Properties of parseSimData

  /** A match against all labels of a table translates to a Swedish label of the table, at or above the threshold. */
  lemma NamesMatchTranslates(table: seq<Entry>, input: string, threshold: int)
    requires threshold <= 100
    ensures match BestMatch(input, AllNames(table), threshold)
      case None => true
      case Some(m) => Translate(table, m.value) in SvLabels(table) && threshold <= m.confidence <= 100
  {
    BestMatchSound(input, AllNames(table), threshold);
    match BestMatch(input, AllNames(table), threshold)
    case None =>
    case Some(m) =>
      AllNamesMembers(table, m.value);
      TranslateIntoSwedish(table, m.value);
  }

  /** The same for the interleaved aspiration pool. */
  lemma InterleavedMatchTranslates(entries: seq<Entry>, input: string, threshold: int)
    requires threshold <= 100
    ensures match BestMatch(input, Interleaved(entries), threshold)
      case None => true
      case Some(m) => Translate(entries, m.value) in SvLabels(entries) && threshold <= m.confidence <= 100
  {
    BestMatchSound(input, Interleaved(entries), threshold);
    match BestMatch(input, Interleaved(entries), threshold)
    case None =>
    case Some(m) =>
      InterleavedMembers(entries, m.value);
      TranslateIntoSwedish(entries, m.value);
  }

  /** Blank or absent text gives the blank record: empty values at confidence 0, no traits, no skills, the text carried through. */
  lemma ParseSimBlank(vocabulary: Vocabulary, rawText: Option<string>)
    requires IsBlank(rawText)
    ensures var data := ParseSim(vocabulary, rawText);
      && data.name == data.age == data.aspiration == data.career == Field("", 0)
      && data.traits == [] && data.skills == [] && data.rawText == rawText
  {
  }

  /** A name found is a trimmed line of the text accepted as a name, at confidence 80; blank text or no such line leaves the name unset. */
  lemma ParseSimName(vocabulary: Vocabulary, rawText: Option<string>)
    ensures IsBlank(rawText) || PotentialName(rawText.value).None? ==> ParseSim(vocabulary, rawText).name == Unset
    ensures !IsBlank(rawText) && PotentialName(rawText.value).Some? ==>
      var name := ParseSim(vocabulary, rawText).name;
      && name.confidence == NAME_CONFIDENCE
      && IsNameLine(name.value) && IsTrimmed(name.value)
      && exists i :: 0 <= i < |SplitLines(rawText.value)| && Trim(SplitLines(rawText.value)[i]) == name.value
  {
    if !IsBlank(rawText) {
      PotentialNameFacts(rawText.value);
    }
  }

  /**
   * The age, the aspiration and the career are each unset, or a Swedish
   * label of their table recognised at or above the field's threshold.
   */
  lemma ParseSimMatchedFields(vocabulary: Vocabulary, rawText: Option<string>)
    ensures var age := ParseSim(vocabulary, rawText).age;
      age == Unset || (age.value in SvLabels(vocabulary.ages) && AGE_THRESHOLD <= age.confidence <= 100)
    ensures var aspiration := ParseSim(vocabulary, rawText).aspiration;
      aspiration == Unset ||
      (aspiration.value in SvLabels(Flatten(vocabulary.aspirations)) && ASPIRATION_THRESHOLD <= aspiration.confidence <= 100)
    ensures var career := ParseSim(vocabulary, rawText).career;
      career == Unset || (career.value in SvLabels(vocabulary.careers) && CAREER_THRESHOLD <= career.confidence <= 100)
  {
    if !IsBlank(rawText) {
      var text := rawText.value;
      NamesMatchTranslates(vocabulary.ages, text, AGE_THRESHOLD);
      InterleavedMatchTranslates(Flatten(vocabulary.aspirations), text, ASPIRATION_THRESHOLD);
      NamesMatchTranslates(vocabulary.careers, text, CAREER_THRESHOLD);
    }
  }

  /**
   * The traits kept from a text's trait matches: at most three, pairwise
   * different ignoring case, each a Swedish trait recognised at confidence
   * 75 or more; with fewer than three, every trait match is among them.
   */
  lemma TextTraitsFacts(traits: seq<Entry>, text: string)
    ensures var ms := AllMatches(text, AllNames(traits), TRAIT_THRESHOLD);
      var kept := UniqueTraits(traits, ms);
      && |kept| <= MAX_TRAITS
      && (forall i, j :: 0 <= i < j < |kept| ==> Lower(kept[i].value) != Lower(kept[j].value))
      && (forall f :: f in kept ==> f.value in SvLabels(traits) && TRAIT_THRESHOLD <= f.confidence <= 100)
      && (|kept| < MAX_TRAITS ==> forall m :: m in ms ==> Lower(Translate(traits, m.value)) in Keys(kept))
  {
    var pool := AllNames(traits);
    var ms := AllMatches(text, pool, TRAIT_THRESHOLD);
    UniqueTraitsDistinct(traits, ms);
    UniqueTraitsFromMatches(traits, ms);
    UniqueTraitsComplete(traits, ms);
    AllMatchesSound(text, pool, TRAIT_THRESHOLD);
    forall f | f in UniqueTraits(traits, ms)
      ensures f.value in SvLabels(traits) && TRAIT_THRESHOLD <= f.confidence <= 100
    {
      var m :| m in ms && f == Field(Translate(traits, m.value), m.confidence);
      AllNamesMembers(traits, m.value);
      TranslateIntoSwedish(traits, m.value);
    }
  }

  /** The traits of `parseSimData` have the properties above; blank text has none. */
  lemma ParseSimTraits(vocabulary: Vocabulary, rawText: Option<string>)
    ensures var traits := ParseSim(vocabulary, rawText).traits;
      && |traits| <= MAX_TRAITS
      && (forall i, j :: 0 <= i < j < |traits| ==> Lower(traits[i].value) != Lower(traits[j].value))
      && forall f :: f in traits ==> f.value in SvLabels(vocabulary.traits) && TRAIT_THRESHOLD <= f.confidence <= 100
    ensures IsBlank(rawText) ==> ParseSim(vocabulary, rawText).traits == []
    ensures !IsBlank(rawText) ==>
      var traits := ParseSim(vocabulary, rawText).traits;
      |traits| < MAX_TRAITS ==>
        forall m :: m in AllMatches(rawText.value, AllNames(vocabulary.traits), TRAIT_THRESHOLD) ==>
          Lower(Translate(vocabulary.traits, m.value)) in Keys(traits)
  {
    if !IsBlank(rawText) {
      TextTraitsFacts(vocabulary.traits, rawText.value);
    }
  }

  /** Every skill is at a level from 1 to 15, a Swedish skill name matched at 70 or more, at most one per line of the text. */
  lemma ParseSimSkills(vocabulary: Vocabulary, rawText: Option<string>)
    ensures forall s :: s in ParseSim(vocabulary, rawText).skills ==>
      1 <= s.level <= 15 && SKILL_THRESHOLD <= s.confidence <= 100 && s.name in SvLabels(vocabulary.skills)
    ensures !IsBlank(rawText) ==> |ParseSim(vocabulary, rawText).skills| <= |SplitLines(rawText.value)|
  {
    if !IsBlank(rawText) {
      var lines := SplitLines(rawText.value);
      SkillsOfFacts(vocabulary.skills, lines);
      forall s | s in SkillsOf(vocabulary.skills, lines)
        ensures 1 <= s.level <= 15 && SKILL_THRESHOLD <= s.confidence <= 100 && s.name in SvLabels(vocabulary.skills)
      {
        var i :| 0 <= i < |lines| && SkillOf(vocabulary.skills, lines[i]) == Some(s);
        SkillOfFacts(vocabulary.skills, lines[i]);
      }
    }
  }

  // ---------------------------------------------------------------------
  // validateOcrResult

  /** The verdict of `validateOcrResult`. */
  datatype Verdict = Verdict(valid: bool, reason: string)

  const UNREADABLE: string := "Kunde inte läsa text från bilden"
  const NO_SIM_DATA: string := "Kunde inte hitta Sim-data i bilden. Prova en screenshot av Simology-panelen."

  /** A field `validateOcrResult` counts as found: a non-empty value above confidence 50. */
  predicate Found(f: Field)
  {
    f.value != [] && f.confidence > FOUND_CONFIDENCE
  }

  /** The text is long enough to have been read at all. */
  predicate Readable(rawText: Option<string>)
  {
    rawText.Some? && |Trim(rawText.value)| >= MIN_TEXT_LENGTH
  }

  /**
   * `validateOcrResult`: too little text is unreadable; readable text with
   * no name, trait, age or aspiration found holds no Sim data; career and
   * skills are not looked at.
   */
  function ValidateOcrResult(data: ParsedSimData): (r: Verdict)
    ensures r.valid <==> r.reason == []
    ensures !r.valid ==> r.reason == UNREADABLE || r.reason == NO_SIM_DATA
    ensures !Readable(data.rawText) ==> r == Verdict(false, UNREADABLE)
    ensures Readable(data.rawText) && data.traits != [] ==> r.valid
    ensures Readable(data.rawText) ==>
      (r.valid <==> Found(data.name) || data.traits != [] || Found(data.age) || Found(data.aspiration))
  {
    if data.rawText.None? || |Trim(data.rawText.value)| < MIN_TEXT_LENGTH then Verdict(false, UNREADABLE)
    else if !Found(data.name) && |data.traits| == 0 && !Found(data.age) && !Found(data.aspiration) then
      Verdict(false, NO_SIM_DATA)
    else Verdict(true, "")
  }

  /**
   * Parsing then validating: blank text is unreadable, and readable text is
   * valid exactly when a name line, a trait, a confident age or a confident
   * aspiration was found; a name line alone always suffices.
   */
  lemma ParseThenValidate(vocabulary: Vocabulary, rawText: Option<string>)
    ensures IsBlank(rawText) ==> ValidateOcrResult(ParseSim(vocabulary, rawText)) == Verdict(false, UNREADABLE)
    ensures Readable(rawText) ==>
      var data := ParseSim(vocabulary, rawText);
      (ValidateOcrResult(data).valid <==>
        PotentialName(rawText.value).Some? || data.traits != [] || Found(data.age) || Found(data.aspiration))
    ensures Readable(rawText) && PotentialName(rawText.value).Some? ==> ValidateOcrResult(ParseSim(vocabulary, rawText)).valid
  {
    if Readable(rawText) {
      ParseSimName(vocabulary, rawText);
    }
  }
}
