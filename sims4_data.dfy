/**
 * The bilingual vocabulary of `src/data/sims4Data.js`: the five constant
 * tables of English game labels with their Swedish names, the candidate
 * pools handed to the matchers, translation from English to Swedish and the
 * option lists of the entry forms.
 */
module Sims4Data {
  import opened Wrappers
  import opened Text

  /** One table row: the English label, the Swedish label and, for a skill, its highest level. */
  datatype Entry = Entry(en: string, sv: string) | Leveled(en: string, sv: string, maxLevel: nat)

  /** One aspiration category with its entries, in declaration order. */
  datatype Category = Category(name: string, entries: seq<Entry>)

  // ---------------------------------------------------------------------
  // The tables

  /** `TRAITS`. */
  const Traits: seq<Entry> := [
      Entry("Active", "Aktiv"),
      Entry("Cheerful", "Glad"),
      Entry("Creative", "Kreativ"),
      Entry("Genius", "Geni"),
      Entry("Gloomy", "Dystert"),
      Entry("Goofball", "Tok"),
      Entry("Hot-Headed", "Hetsig"),
      Entry("Romantic", "Romantisk"),
      Entry("Self-Assured", "Självsäker"),
      Entry("Art Lover", "Konstälskare"),
      Entry("Bookworm", "Bokmal"),
      Entry("Foodie", "Matnörd"),
      Entry("Geek", "Nörd"),
      Entry("Loves Outdoors", "Älskar utomhus"),
      Entry("Music Lover", "Musikälskare"),
      Entry("Perfectionist", "Perfektionist"),
      Entry("Ambitious", "Ambitiös"),
      Entry("Childish", "Barnslig"),
      Entry("Clumsy", "Klumpig"),
      Entry("Commitment Issues", "Rädd för åtaganden"),
      Entry("Dance Machine", "Dansmaskin"),
      Entry("Family-Oriented", "Familjeorienterad"),
      Entry("Glutton", "Frossare"),
      Entry("Lazy", "Lat"),
      Entry("Loner", "Ensamvarg"),
      Entry("Loves the Cold", "Älskar kyla"),
      Entry("Loves the Heat", "Älskar värme"),
      Entry("Materialistic", "Materialistisk"),
      Entry("Neat", "Städnisse"),
      Entry("Noncommittal", "Oengagerad"),
      Entry("Slob", "Slarver"),
      Entry("Snob", "Snobb"),
      Entry("Squeamish", "Kräsen"),
      Entry("Vegetarian", "Vegetarian"),
      Entry("Bro", "Brorsa"),
      Entry("Evil", "Ond"),
      Entry("Good", "God"),
      Entry("Hates Children", "Hatar barn"),
      Entry("Insider", "Insider"),
      Entry("Jealous", "Svartsjuk"),
      Entry("Mean", "Elak"),
      Entry("Outgoing", "Utåtriktad"),
      Entry("Self-Absorbed", "Självupptagen"),
      Entry("Unflirty", "Oflirtig"),
      Entry("Erratic", "Oberäknelig"),
      Entry("Kleptomaniac", "Kleptoman"),
      Entry("Paranoid", "Paranoid"),
      Entry("Angelic", "Änglalik"),
      Entry("Charmer", "Charmör"),
      Entry("Clingy", "Kletigt"),
      Entry("Fussy", "Kinkig"),
      Entry("Independent", "Självständig"),
      Entry("Inquisitive", "Nyfiken"),
      Entry("Silly", "Fnissig"),
      Entry("Wild", "Vild"),
      Entry("Whiz Kid", "Snillrik"),
      Entry("Rambunctious Scamp", "Busfransen"),
      Entry("Social Butterfly", "Social fjäril"),
      Entry("Cat Lover", "Kattälskare"),
      Entry("Dog Lover", "Hundälskare"),
      Entry("High Maintenance", "Kräver mycket"),
      Entry("Jealous", "Svartsjuk"),
      Entry("Maker", "Skapare"),
      Entry("Recycle Disciple", "Återvinningsfanatiker"),
      Entry("Freegan", "Gratisätare"),
      Entry("Green Fiend", "Miljökämpe"),
      Entry("Proper", "Korrekt"),
      Entry("Adventurous", "Äventyrlig"),
      Entry("Overachiever", "Överpresterare"),
      Entry("Party Animal", "Festpransen"),
      Entry("Socially Awkward", "Socialt klumpig"),
      Entry("Loyal", "Lojal"),
      Entry("Lactose Intolerant", "Laktosintolerant")
    ]

  /** `ASPIRATIONS`, its categories in declaration order (the order `Object.values` and `Object.entries` give). */
  const Aspirations: seq<Category> := [
      Category("Kreativitet", [
        Entry("Master Chef", "Mästerkock"),
        Entry("Master Mixologist", "Mästerbartender"),
        Entry("Musical Genius", "Musikaliskt geni"),
        Entry("Painter Extraordinaire", "Extraordinär målare"),
        Entry("Bestselling Author", "Bästsäljarförfattare")
      ]),
      Category("Förmögenhet", [
        Entry("Fabulously Wealthy", "Sagolikt rik"),
        Entry("Mansion Baron", "Herrgårdsbaron"),
        Entry("Freelance Botanist", "Frilansande botaniker")
      ]),
      Category("Familj", [
        Entry("Big Happy Family", "Stor lycklig familj"),
        Entry("Successful Lineage", "Framgångsrik släkt"),
        Entry("Super Parent", "Superförälder")
      ]),
      Category("Kärlek", [
        Entry("Serial Romantic", "Seriell romantiker"),
        Entry("Soulmate", "Själsfrände")
      ]),
      Category("Kunskap", [
        Entry("Computer Whiz", "Datorunderbarn"),
        Entry("Nerd Brain", "Nördhjärna"),
        Entry("Renaissance Sim", "Renässanssim"),
        Entry("Academic", "Akademiker"),
        Entry("Archaeology Scholar", "Arkeologiforskare")
      ]),
      Category("Popularitet", [
        Entry("Friend of the World", "Världens vän"),
        Entry("Party Animal", "Festdjur"),
        Entry("Joke Star", "Skämtstjärna"),
        Entry("World-Famous Celebrity", "Världsberömd kändis"),
        Entry("Leader of the Pack", "Ledare för flocken")
      ]),
      Category("Atletisk", [
        Entry("Bodybuilder", "Kroppsbyggare"),
        Entry("Extreme Sports Enthusiast", "Extremsportentusiast")
      ]),
      Category("Natur", [
        Entry("Angler Extraordinaire", "Extraordinär fiskare"),
        Entry("Curator", "Kurator"),
        Entry("Jungle Explorer", "Djungelutforskare"),
        Entry("Beach Life", "Strandliv")
      ]),
      Category("Mat & Dryck", [
        Entry("Grilled Cheese", "Grillad ost")
      ]),
      Category("Deviancy", [
        Entry("Chief of Mischief", "Busens mästare"),
        Entry("Public Enemy", "Allmänhetens fiende")
      ])
    ]

  /** `CAREERS`. */
  const Careers: seq<Entry> := [
      Entry("Unemployed", "Arbetslös"),
      Entry("Astronaut", "Astronaut"),
      Entry("Athlete", "Idrottare"),
      Entry("Business", "Affärsman"),
      Entry("Criminal", "Kriminell"),
      Entry("Critic", "Kritiker"),
      Entry("Culinary", "Kulinarisk"),
      Entry("Detective", "Detektiv"),
      Entry("Doctor", "Läkare"),
      Entry("Entertainer", "Underhållare"),
      Entry("Gardener", "Trädgårdsmästare"),
      Entry("Journalist", "Journalist"),
      Entry("Military", "Militär"),
      Entry("Painter", "Målare"),
      Entry("Politician", "Politiker"),
      Entry("Scientist", "Vetenskapsman"),
      Entry("Secret Agent", "Hemlig agent"),
      Entry("Social Media", "Sociala medier"),
      Entry("Style Influencer", "Stilinfluencer"),
      Entry("Tech Guru", "Teknikguru"),
      Entry("Writer", "Författare"),
      Entry("Actor", "Skådespelare"),
      Entry("Conservationist", "Naturvårdare"),
      Entry("Civil Designer", "Stadsplanerare"),
      Entry("Education", "Lärare"),
      Entry("Engineer", "Ingenjör"),
      Entry("Law", "Jurist"),
      Entry("Freelancer", "Frilansare"),
      Entry("Salaryperson", "Kontorsarbetare")
    ]

  /** `SKILLS`. */
  const Skills: seq<Entry> := [
      Leveled("Acting", "Skådespeleri", 10),
      Leveled("Archaeology", "Arkeologi", 10),
      Leveled("Baking", "Bakning", 10),
      Leveled("Charisma", "Karisma", 10),
      Leveled("Comedy", "Komedi", 10),
      Leveled("Cooking", "Matlagning", 10),
      Leveled("Dancing", "Dans", 10),
      Leveled("DJ Mixing", "DJ-mixning", 10),
      Leveled("Fabrication", "Tillverkning", 10),
      Leveled("Fishing", "Fiske", 10),
      Leveled("Fitness", "Fitness", 10),
      Leveled("Flower Arranging", "Blomsterarrangemang", 10),
      Leveled("Gardening", "Trädgårdsarbete", 10),
      Leveled("Gourmet Cooking", "Gourmetmatlagning", 10),
      Leveled("Guitar", "Gitarr", 10),
      Leveled("Handiness", "Händighet", 10),
      Leveled("Herbalism", "Örtlära", 10),
      Leveled("Juice Fizzing", "Juiceblandning", 10),
      Leveled("Knitting", "Stickning", 10),
      Leveled("Logic", "Logik", 10),
      Leveled("Media Production", "Medieproduktion", 10),
      Leveled("Mischief", "Rackartyg", 10),
      Leveled("Mixology", "Mixologi", 10),
      Leveled("Painting", "Målning", 10),
      Leveled("Parenting", "Föräldraskap", 10),
      Leveled("Photography", "Fotografering", 10),
      Leveled("Piano", "Piano", 10),
      Leveled("Pipe Organ", "Piporgel", 10),
      Leveled("Programming", "Programmering", 10),
      Leveled("Research and Debate", "Forskning och debatt", 10),
      Leveled("Robotics", "Robotik", 10),
      Leveled("Rock Climbing", "Klättring", 10),
      Leveled("Rocket Science", "Raketvetenskap", 10),
      Leveled("Selvadoradian Culture", "Selvadoradisk kultur", 5),
      Leveled("Singing", "Sång", 10),
      Leveled("Skiing", "Skidåkning", 10),
      Leveled("Snowboarding", "Snowboard", 10),
      Leveled("Vampire Lore", "Vampyrlära", 15),
      Leveled("Veterinarian", "Veterinär", 10),
      Leveled("Video Gaming", "Videospel", 10),
      Leveled("Violin", "Violin", 10),
      Leveled("Wellness", "Välmående", 10),
      Leveled("Writing", "Skrivande", 10)
    ]

  /** `AGES`. */
  const Ages: seq<Entry> := [
      Entry("Baby", "Baby"),
      Entry("Infant", "Spädbarn"),
      Entry("Toddler", "Toddler"),
      Entry("Child", "Barn"),
      Entry("Teen", "Tonåring"),
      Entry("Young Adult", "Ung vuxen"),
      Entry("Adult", "Vuxen"),
      Entry("Elder", "Äldre")
    ]

  /** The five tables together, as the parser uses them. */
  datatype Vocabulary = Vocabulary(
    traits: seq<Entry>, aspirations: seq<Category>, careers: seq<Entry>, skills: seq<Entry>, ages: seq<Entry>)

  /** The tables of this module. */
  const Sims4: Vocabulary := Vocabulary(Traits, Aspirations, Careers, Skills, Ages)

  // ---------------------------------------------------------------------
  // Candidate pools

  /** The English column of a table, in table order (`map(t => t.en)`). */
  function EnLabels(table: seq<Entry>): (r: seq<string>)
    ensures |r| == |table| && forall i :: 0 <= i < |table| ==> r[i] == table[i].en
  {
    seq(|table|, i requires 0 <= i < |table| => table[i].en)
  }

  /** The Swedish column of a table, in table order (`map(t => t.sv)`). */
  function SvLabels(table: seq<Entry>): (r: seq<string>)
    ensures |r| == |table| && forall i :: 0 <= i < |table| ==> r[i] == table[i].sv
  {
    seq(|table|, i requires 0 <= i < |table| => table[i].sv)
  }

  /**
   * `getAllTraitNames`, `getAllCareerNames`, `getAllSkillNames` and
   * `getAllAgeNames`: every English label in table order, then every Swedish
   * label in table order.
   */
  function AllNames(table: seq<Entry>): (r: seq<string>)
    ensures |r| == 2 * |table|
    ensures forall i :: 0 <= i < |table| ==> r[i] == table[i].en && r[|table| + i] == table[i].sv
  {
    EnLabels(table) + SvLabels(table)
  }

  /** A pool holds exactly the labels of its table, in either language. */
  lemma AllNamesMembers(table: seq<Entry>, x: string)
    ensures x in AllNames(table) <==> exists i :: 0 <= i < |table| && (table[i].en == x || table[i].sv == x)
  {
    var r := AllNames(table);
    if x in r {
      var k :| 0 <= k < |r| && r[k] == x;
      if k >= |table| {
        assert r[|table| + (k - |table|)] == table[k - |table|].sv;
      }
    }
  }

  /** The aspiration entries of all categories, category after category. */
  function Flatten(categories: seq<Category>): (r: seq<Entry>)
    decreases |categories|
  {
    if categories == [] then []
    else Flatten(categories[..|categories| - 1]) + categories[|categories| - 1].entries
  }

  /** Flattening distributes over concatenation of category lists. */
  lemma {:induction false} FlattenAppend(a: seq<Category>, b: seq<Category>)
    ensures Flatten(a + b) == Flatten(a) + Flatten(b)
    decreases |b|
  {
    if b == [] {
      assert a + b == a;
    } else {
      var b' := b[..|b| - 1];
      assert (a + b)[..|a + b| - 1] == a + b';
      FlattenAppend(a, b');
    }
  }

  /** An entry is flattened exactly when some category holds it. */
  lemma {:induction false} FlattenMembers(categories: seq<Category>, e: Entry)
    ensures e in Flatten(categories) <==> exists i :: 0 <= i < |categories| && e in categories[i].entries
    decreases |categories|
  {
    if categories != [] {
      var init := categories[..|categories| - 1];
      FlattenMembers(init, e);
      assert forall i :: 0 <= i < |init| ==> init[i] == categories[i];
    }
  }

  /** The English and Swedish label of every entry in turn (`names.push(asp.en, asp.sv)`). */
  function Interleaved(entries: seq<Entry>): (r: seq<string>)
    ensures |r| == 2 * |entries|
    ensures forall i :: 0 <= i < |entries| ==> r[2 * i] == entries[i].en && r[2 * i + 1] == entries[i].sv
    decreases |entries|
  {
    if entries == [] then []
    else
      var init := entries[..|entries| - 1];
      var rest := Interleaved(init);
      assert forall i :: 0 <= i < |init| ==> rest[2 * i] == entries[i].en && rest[2 * i + 1] == entries[i].sv;
      rest + [entries[|entries| - 1].en, entries[|entries| - 1].sv]
  }

  /** One more entry of the current category adds its two labels. */
  lemma InterleavedSnoc(done: seq<Entry>, entries: seq<Entry>, j: nat)
    requires j < |entries|
    ensures Interleaved(done + entries[..j + 1]) == Interleaved(done + entries[..j]) + [entries[j].en, entries[j].sv]
  {
    var a := done + entries[..j];
    assert done + entries[..j + 1] == a + [entries[j]];
    assert (a + [entries[j]])[..|a|] == a;
  }

  /**
   * `getAllAspirationNames`: the pool of aspiration labels, English and
   * Swedish label entry by entry across the categories in order, so that
   * the two languages alternate rather than following each other as in the
   * other pools.
   */
  method GetAllAspirationNames(categories: seq<Category>) returns (names: seq<string>)
    ensures names == Interleaved(Flatten(categories))
  {
    names := [];
    for i := 0 to |categories|
      invariant names == Interleaved(Flatten(categories[..i]))
    {
      var category := categories[i];
      assert categories[..i + 1][..i] == categories[..i];
      assert Flatten(categories[..i]) + category.entries[..0] == Flatten(categories[..i]);
      for j := 0 to |category.entries|
        invariant names == Interleaved(Flatten(categories[..i]) + category.entries[..j])
      {
        var asp := category.entries[j];
        InterleavedSnoc(Flatten(categories[..i]), category.entries, j);
        names := names + [asp.en, asp.sv];
      }
      assert category.entries[..|category.entries|] == category.entries;
    }
    assert categories[..|categories|] == categories;
  }

  /** The aspiration pool holds exactly the labels of the aspiration entries. */
  lemma {:induction false} InterleavedMembers(entries: seq<Entry>, x: string)
    ensures x in Interleaved(entries) <==> exists i :: 0 <= i < |entries| && (entries[i].en == x || entries[i].sv == x)
    decreases |entries|
  {
    if entries != [] {
      var init := entries[..|entries| - 1];
      var last := entries[|entries| - 1];
      InterleavedMembers(init, x);
      assert Interleaved(entries) == Interleaved(init) + [last.en, last.sv];
      if x in Interleaved(init) {
        var i :| 0 <= i < |init| && (init[i].en == x || init[i].sv == x);
        assert entries[i] == init[i];
      }
      if exists i :: 0 <= i < |entries| && (entries[i].en == x || entries[i].sv == x) {
        var i :| 0 <= i < |entries| && (entries[i].en == x || entries[i].sv == x);
        if i < |init| {
          assert entries[i] == init[i];
        }
      }
    }
  }

  // ---------------------------------------------------------------------
  // Translation

  /** `en.toLowerCase() === input.toLowerCase()`. */
  predicate SameLabel(en: string, input: string)
  {
    Lower(en) == Lower(input)
  }

  /** `k` is the first entry whose English label is the input, ignoring case. */
  predicate IsFirstHit(table: seq<Entry>, input: string, k: int)
  {
    0 <= k < |table| && SameLabel(table[k].en, input)
    && forall j :: 0 <= j < k ==> !SameLabel(table[j].en, input)
  }

  /** `findIndex` of the first entry whose English label is the input, ignoring case. */
  function FindEntry(table: seq<Entry>, input: string): (r: Option<nat>)
    ensures r.Some? ==> IsFirstHit(table, input, r.value)
    ensures r.None? ==> forall j :: 0 <= j < |table| ==> !SameLabel(table[j].en, input)
    decreases |table|
  {
    if table == [] then None
    else if SameLabel(table[0].en, input) then Some(0)
    else match FindEntry(table[1..], input)
      case Some(k) => Some(k + 1)
      case None => None
  }

  /** There is only one first hit. */
  lemma FirstHitUnique(table: seq<Entry>, input: string, k: int, k': int)
    requires IsFirstHit(table, input, k) && IsFirstHit(table, input, k')
    ensures k == k'
  {
  }

  /**
   * `traitToSwedish`, `careerToSwedish`, `skillToSwedish` and
   * `ageToSwedish`: the Swedish label of the first entry whose English label
   * is the input ignoring case, or the input itself when there is none.
   */
  function Translate(table: seq<Entry>, input: string): (r: string)
    ensures forall k :: IsFirstHit(table, input, k) ==> r == table[k].sv
    ensures (forall j :: 0 <= j < |table| ==> !SameLabel(table[j].en, input)) ==> r == input
  {
    match FindEntry(table, input)
    case Some(k) =>
      assert forall k' :: IsFirstHit(table, input, k') ==> k' == k;
      table[k].sv
    case None => input
  }

  /** Translating a label of the table, in either language, gives a Swedish label of the table. */
  lemma TranslateIntoSwedish(table: seq<Entry>, x: string)
    requires exists i :: 0 <= i < |table| && (table[i].en == x || table[i].sv == x)
    ensures Translate(table, x) in SvLabels(table)
  {
    match FindEntry(table, x)
    case Some(k) =>
      assert SvLabels(table)[k] == table[k].sv;
    case None =>
      var i :| 0 <= i < |table| && (table[i].en == x || table[i].sv == x);
      assert !SameLabel(table[i].en, x);
      assert SvLabels(table)[i] == x;
  }

  /** An input differing only in case from a known label translates like it. */
  lemma TranslateIgnoresCase(table: seq<Entry>, a: string, b: string)
    requires Lower(a) == Lower(b)
    requires exists j :: 0 <= j < |table| && SameLabel(table[j].en, a)
    ensures Translate(table, a) == Translate(table, b)
    ensures Translate(table, a) in SvLabels(table)
  {
    var k := FindEntry(table, a).value;
    assert IsFirstHit(table, b, k);
    assert SvLabels(table)[k] == table[k].sv;
  }

  /**
   * A label listed twice resolves to its first listing: translating the
   * later entry's English label finds an entry no later than the earlier one.
   */
  lemma DuplicateResolvesToFirst(table: seq<Entry>, i: nat, k: nat)
    requires i < k < |table| && table[i].en == table[k].en
    ensures FindEntry(table, table[k].en).Some? && FindEntry(table, table[k].en).value <= i
  {
    assert SameLabel(table[i].en, table[k].en);
  }

  /** `'Jealous'` is listed twice among the traits (lines 55 and 85); the second listing is never consulted. */
  lemma JealousListedTwice()
    ensures Traits[39] == Traits[61] == Entry("Jealous", "Svartsjuk")
    ensures FindEntry(Traits, "Jealous").Some? && FindEntry(Traits, "Jealous").value <= 39
  {
    DuplicateResolvesToFirst(Traits, 39, 61);
  }

  /** `FindEntry` on a concatenation: a hit in the first part wins, otherwise a hit in the second part, moved along. */
  lemma {:induction false} FindEntryAppend(a: seq<Entry>, b: seq<Entry>, input: string)
    ensures FindEntry(a + b, input) ==
      match FindEntry(a, input)
      case Some(k) => Some(k)
      case None => match FindEntry(b, input) case Some(k) => Some(|a| + k) case None => None
  {
    var r := FindEntry(a + b, input);
    match FindEntry(a, input)
    case Some(k) =>
      assert IsFirstHit(a + b, input, k);
    case None =>
      match FindEntry(b, input)
      case Some(k) =>
        assert IsFirstHit(a + b, input, |a| + k) by {
          forall j | 0 <= j < |a| + k
            ensures !SameLabel((a + b)[j].en, input)
          {
            if j >= |a| {
              assert (a + b)[j] == b[j - |a|];
            }
          }
        }
      case None =>
        forall j | 0 <= j < |a + b|
          ensures !SameLabel((a + b)[j].en, input)
        {
          if j >= |a| {
            assert (a + b)[j] == b[j - |a|];
          }
        }
  }

  /**
   * `aspirationToSwedish`: categories are searched in declaration order, each
   * for its first case-insensitive hit, and the first category with a hit
   * decides; the result is that of translating over all aspiration entries.
   */
  method AspirationToSwedish(categories: seq<Category>, englishAspiration: string) returns (r: string)
    ensures r == Translate(Flatten(categories), englishAspiration)
  {
    for i := 0 to |categories|
      invariant FindEntry(Flatten(categories[..i]), englishAspiration).None?
    {
      var category := categories[i];
      AspirationStep(categories, i, englishAspiration);
      var asp := FindEntry(category.entries, englishAspiration);
      if asp.Some? {
        AspirationHit(categories, i, asp.value, englishAspiration);
        return category.entries[asp.value].sv;
      }
    }
    assert categories[..|categories|] == categories;
    return englishAspiration;
  }

  /** The search over the first `i + 1` categories is the search over the first `i` followed by category `i`. */
  lemma AspirationStep(categories: seq<Category>, i: nat, input: string)
    requires i < |categories| && FindEntry(Flatten(categories[..i]), input).None?
    ensures FindEntry(Flatten(categories[..i + 1]), input) ==
      match FindEntry(categories[i].entries, input)
      case Some(k) => Some(|Flatten(categories[..i])| + k)
      case None => None
  {
    assert categories[..i + 1][..i] == categories[..i];
    FindEntryAppend(Flatten(categories[..i]), categories[i].entries, input);
  }

  /** A first hit in category `i`, after none in the categories before, is the first hit over all entries. */
  lemma AspirationHit(categories: seq<Category>, i: nat, k: nat, input: string)
    requires i < |categories| && FindEntry(Flatten(categories[..i]), input).None?
    requires FindEntry(categories[i].entries, input) == Some(k)
    ensures Translate(Flatten(categories), input) == categories[i].entries[k].sv
  {
    AspirationStep(categories, i, input);
    assert categories == categories[..i + 1] + categories[i + 1..];
    FlattenAppend(categories[..i + 1], categories[i + 1..]);
    FindEntryAppend(Flatten(categories[..i + 1]), Flatten(categories[i + 1..]), input);
    assert categories[..i + 1][..i] == categories[..i];
    assert Flatten(categories)[|Flatten(categories[..i])| + k] == categories[i].entries[k];
  }

  // ---------------------------------------------------------------------
  // Option lists

  /** The order of `Array.prototype.sort` without a comparator: by character code, a prefix first. */
  predicate LexLeq(a: string, b: string)
    decreases |a|
  {
    a == [] || (b != [] && (a[0] < b[0] || (a[0] == b[0] && LexLeq(a[1..], b[1..]))))
  }

  /** Every string is in order with itself. */
  lemma {:induction false} LexLeqReflexive(a: string)
    ensures LexLeq(a, a)
    decreases |a|
  {
    if a != [] {
      LexLeqReflexive(a[1..]);
    }
  }

  /** Any two strings are ordered one way or the other. */
  lemma {:induction false} LexLeqTotal(a: string, b: string)
    ensures LexLeq(a, b) || LexLeq(b, a)
    decreases |a|
  {
    if a != [] && b != [] && a[0] == b[0] {
      LexLeqTotal(a[1..], b[1..]);
    }
  }

  /** The order is transitive. */
  lemma {:induction false} LexLeqTrans(a: string, b: string, c: string)
    requires LexLeq(a, b) && LexLeq(b, c)
    ensures LexLeq(a, c)
    decreases |a|
  {
    if a != [] && a[0] == b[0] && b[0] == c[0] {
      LexLeqTrans(a[1..], b[1..], c[1..]);
    }
  }

  /** The order is antisymmetric. */
  lemma {:induction false} LexLeqAntisymmetric(a: string, b: string)
    requires LexLeq(a, b) && LexLeq(b, a)
    ensures a == b
    decreases |a|
  {
    if a != [] {
      LexLeqAntisymmetric(a[1..], b[1..]);
      assert a == [a[0]] + a[1..] && b == [b[0]] + b[1..];
    }
  }

  /** Every string is in order with the next one. */
  predicate SortedStrings(s: seq<string>)
    decreases |s|
  {
    |s| <= 1 || (LexLeq(s[0], s[1]) && SortedStrings(s[1..]))
  }

  /** `x` put before the first element that does not come before it. */
  function InsertString(x: string, s: seq<string>): seq<string>
    decreases |s|
  {
    if s == [] then [x]
    else if LexLeq(x, s[0]) then [x] + s
    else [s[0]] + InsertString(x, s[1..])
  }

  /** Inserting keeps a sorted list sorted; its first element is `x` or the old first one. */
  lemma {:induction false} InsertStringSorted(x: string, s: seq<string>)
    requires SortedStrings(s)
    ensures SortedStrings(InsertString(x, s))
    ensures InsertString(x, s)[0] == x || (s != [] && InsertString(x, s)[0] == s[0])
    decreases |s|
  {
    if s != [] && !LexLeq(x, s[0]) {
      LexLeqTotal(x, s[0]);
      InsertStringSorted(x, s[1..]);
    }
  }

  /** Inserting adds exactly `x`. */
  lemma {:induction false} InsertStringPermutes(x: string, s: seq<string>)
    ensures multiset(InsertString(x, s)) == multiset(s) + multiset{x}
    decreases |s|
  {
    if s != [] && !LexLeq(x, s[0]) {
      InsertStringPermutes(x, s[1..]);
      assert s == [s[0]] + s[1..];
    }
  }

  /** `sort()` on strings: insertion sort (the order is total, so every correct sort gives this result). */
  function SortStrings(s: seq<string>): seq<string>
    decreases |s|
  {
    if s == [] then [] else InsertString(s[0], SortStrings(s[1..]))
  }

  /** The sorted list is in order, pairwise, and is a permutation of the input. */
  lemma {:induction false} SortStringsCorrect(s: seq<string>)
    ensures SortedStrings(SortStrings(s))
    ensures multiset(SortStrings(s)) == multiset(s)
    ensures forall i, j :: 0 <= i < j < |SortStrings(s)| ==> LexLeq(SortStrings(s)[i], SortStrings(s)[j])
    decreases |s|
  {
    if s != [] {
      SortStringsCorrect(s[1..]);
      InsertStringSorted(s[0], SortStrings(s[1..]));
      InsertStringPermutes(s[0], SortStrings(s[1..]));
      assert s == [s[0]] + s[1..];
    }
    SortedPairwise(SortStrings(s));
  }

  /** Adjacent order gives order between every two positions. */
  lemma {:induction false} SortedPairwise(s: seq<string>)
    requires SortedStrings(s)
    ensures forall i, j :: 0 <= i < j < |s| ==> LexLeq(s[i], s[j])
    decreases |s|
  {
    if |s| > 1 {
      SortedPairwise(s[1..]);
      forall i, j | 0 <= i < j < |s|
        ensures LexLeq(s[i], s[j])
      {
        if i == 0 && j > 1 {
          assert s[j] == s[1..][j - 1];
          LexLeqTrans(s[0], s[1], s[j]);
        } else if i > 0 {
          assert s[i] == s[1..][i - 1] && s[j] == s[1..][j - 1];
        }
      }
    }
  }

  /** The first element of a sorted list comes before every element. */
  lemma SortedHeadLeast(s: seq<string>, x: string)
    requires SortedStrings(s) && x in s
    ensures LexLeq(s[0], x)
  {
    SortedPairwise(s);
    LexLeqReflexive(s[0]);
  }

  /** Two permutations with the same head have permutations for tails. */
  lemma MultisetTail(s: seq<string>, t: seq<string>)
    requires s != [] && t != [] && s[0] == t[0] && multiset(s) == multiset(t)
    ensures multiset(s[1..]) == multiset(t[1..])
  {
    assert s == [s[0]] + s[1..] && t == [t[0]] + t[1..];
    assert multiset(s) == multiset{s[0]} + multiset(s[1..]);
    assert multiset(t) == multiset{s[0]} + multiset(t[1..]);
    assert multiset(s[1..]) == multiset(s) - multiset{s[0]};
  }

  /** A sorted permutation is unique: any sorted rearrangement of the labels equals the sorted list. */
  lemma {:induction false} SortedPermutationUnique(s: seq<string>, t: seq<string>)
    requires SortedStrings(s) && SortedStrings(t) && multiset(s) == multiset(t)
    ensures s == t
    decreases |s|
  {
    assert |t| == |multiset(t)| == |multiset(s)| == |s|;
    if s != [] {
      assert s[0] in multiset(t) && t[0] in multiset(s);
      assert s[0] in t && t[0] in s;
      SortedHeadLeast(t, s[0]);
      SortedHeadLeast(s, t[0]);
      LexLeqAntisymmetric(s[0], t[0]);
      MultisetTail(s, t);
      SortedPermutationUnique(s[1..], t[1..]);
    }
  }

  /**
   * `getTraitOptions`, `getCareerOptions` and `getSkillOptions`: the Swedish
   * column, sorted.
   */
  function SortedOptions(table: seq<Entry>): seq<string>
  {
    SortStrings(SvLabels(table))
  }

  /** The option list is sorted and holds the Swedish column, each label as often as in the table. */
  lemma SortedOptionsCorrect(table: seq<Entry>)
    ensures SortedStrings(SortedOptions(table))
    ensures multiset(SortedOptions(table)) == multiset(SvLabels(table))
    ensures forall i, j :: 0 <= i < j < |SortedOptions(table)| ==> LexLeq(SortedOptions(table)[i], SortedOptions(table)[j])
  {
    SortStringsCorrect(SvLabels(table));
  }

  /** The categories with their Swedish labels, a later category of the same name replacing an earlier one. */
  function OptionsMap(categories: seq<Category>): (r: map<string, seq<string>>)
    ensures r.Keys == set c | c in categories :: c.name
    decreases |categories|
  {
    if categories == [] then map[]
    else
      var last := categories[|categories| - 1];
      var init := categories[..|categories| - 1];
      var rest := OptionsMap(init);
      assert forall c :: c in categories <==> c in init || c == last;
      rest[last.name := SvLabels(last.entries)]
  }

  /** Each category name maps to the Swedish labels of its last category of that name. */
  lemma {:induction false} OptionsMapValues(categories: seq<Category>, i: nat)
    requires i < |categories|
    requires forall j :: i < j < |categories| ==> categories[j].name != categories[i].name
    ensures OptionsMap(categories)[categories[i].name] == SvLabels(categories[i].entries)
    decreases |categories|
  {
    if i < |categories| - 1 {
      var init := categories[..|categories| - 1];
      assert init[i] == categories[i];
      OptionsMapValues(init, i);
    }
  }

  /** `getAspirationOptions`: each category name mapped to its entries' Swedish labels in entry order. */
  method GetAspirationOptions(categories: seq<Category>) returns (options: map<string, seq<string>>)
    ensures options == OptionsMap(categories)
  {
    options := map[];
    for i := 0 to |categories|
      invariant options == OptionsMap(categories[..i])
    {
      var category := categories[i];
      assert categories[..i + 1][..i] == categories[..i];
      options := options[category.name := SvLabels(category.entries)];
    }
    assert categories[..|categories|] == categories;
  }
}
