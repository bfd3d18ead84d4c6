/** `UnicodeEmojiCategory`: the ten groups of the emoji list and the presentation category
    each one feeds. */
module UnicodeCategories {
  import opened Wrappers
  import opened Emojis
  import opened OrderedDict
  import AppleCategories

  datatype Name = Flags | Activities | Components | Objects | TravelAndPlaces | Symbols
                | PeopleAndBody | AnimalsAndNature | FoodAndDrink | SmileysAndEmotions

  /** `allCases`, in declaration order. */
  const AllCases: seq<Name> :=
    [Flags, Activities, Components, Objects, TravelAndPlaces, Symbols, PeopleAndBody,
     AnimalsAndNature, FoodAndDrink, SmileysAndEmotions]

  lemma AllCasesComplete()
    ensures |AllCases| == 10
    ensures forall n: Name :: n in AllCases
    ensures forall i, j | 0 <= i < j < |AllCases| :: AllCases[i] != AllCases[j]
  {
    forall n: Name ensures n in AllCases {
      match n
      case Flags => assert AllCases[0] == n;
      case Activities => assert AllCases[1] == n;
      case Components => assert AllCases[2] == n;
      case Objects => assert AllCases[3] == n;
      case TravelAndPlaces => assert AllCases[4] == n;
      case Symbols => assert AllCases[5] == n;
      case PeopleAndBody => assert AllCases[6] == n;
      case AnimalsAndNature => assert AllCases[7] == n;
      case FoodAndDrink => assert AllCases[8] == n;
      case SmileysAndEmotions => assert AllCases[9] == n;
    }
  }

  /** The group name exactly as the `# group:` headers of the emoji list write it. */
  function RawValue(n: Name): string {
    match n
    case Flags => "Flags"
    case Activities => "Activities"
    case Components => "Component"
    case Objects => "Objects"
    case TravelAndPlaces => "Travel & Places"
    case Symbols => "Symbols"
    case PeopleAndBody => "People & Body"
    case AnimalsAndNature => "Animals & Nature"
    case FoodAndDrink => "Food & Drink"
    case SmileysAndEmotions => "Smileys & Emotion"
  }

  /** Header names are pairwise distinct. */
  lemma RawValueInjective(a: Name, b: Name)
    requires RawValue(a) == RawValue(b)
    ensures a == b
  {
  }

  function FindRaw(cases: seq<Name>, s: string): (r: Option<Name>)
    ensures r.Some? ==> r.value in cases && RawValue(r.value) == s
    ensures r.None? ==> forall n | n in cases :: RawValue(n) != s
  {
    if cases == [] then None
    else if RawValue(cases[0]) == s then Some(cases[0])
    else FindRaw(cases[1..], s)
  }

  /** `Name(rawValue:)`: the group a header names, if any. */
  function FromRaw(s: string): (r: Option<Name>)
    ensures r.Some? ==> RawValue(r.value) == s
    ensures r.None? ==> forall n: Name :: RawValue(n) != s
  {
    AllCasesComplete();
    FindRaw(AllCases, s)
  }

  /** `Name(rawValue:)` inverts `rawValue`. */
  lemma FromRawOfRaw(n: Name)
    ensures FromRaw(RawValue(n)) == Some(n)
  {
    RawValueInjective(FromRaw(RawValue(n)).value, n);
  }

  /** `appleName`: the presentation category of a group; Component has none, and the
      two groups of people and faces share one. */
  function AppleName(n: Name): (r: Option<AppleCategories.Name>)
    ensures r.None? <==> n == Components
    ensures r == Some(AppleCategories.SmileysAndPeople) <==> n == PeopleAndBody || n == SmileysAndEmotions
  {
    match n
    case Flags => Some(AppleCategories.Flags)
    case Activities => Some(AppleCategories.Activity)
    case Components => None
    case Objects => Some(AppleCategories.Objects)
    case TravelAndPlaces => Some(AppleCategories.TravelAndPlaces)
    case Symbols => Some(AppleCategories.Symbols)
    case PeopleAndBody => Some(AppleCategories.SmileysAndPeople)
    case AnimalsAndNature => Some(AppleCategories.AnimalsAndNature)
    case FoodAndDrink => Some(AppleCategories.FoodAndDrink)
    case SmileysAndEmotions => Some(AppleCategories.SmileysAndPeople)
  }

  /** Apart from the merged pair, distinct groups go to distinct categories. */
  lemma AppleNameInjectiveOutsideMerge(a: Name, b: Name)
    requires AppleName(a) == AppleName(b) && AppleName(a).Some?
    requires AppleName(a) != Some(AppleCategories.SmileysAndPeople)
    ensures a == b
  {
  }

  /** Every presentation category is fed by some group. */
  lemma AppleNameOnto(c: AppleCategories.Name)
    ensures exists n: Name :: AppleName(n) == Some(c)
  {
    match c
    case Flags => assert AppleName(Flags) == Some(c);
    case Activity => assert AppleName(Activities) == Some(c);
    case Objects => assert AppleName(Objects) == Some(c);
    case TravelAndPlaces => assert AppleName(TravelAndPlaces) == Some(c);
    case Symbols => assert AppleName(Symbols) == Some(c);
    case AnimalsAndNature => assert AppleName(AnimalsAndNature) == Some(c);
    case FoodAndDrink => assert AppleName(FoodAndDrink) == Some(c);
    case SmileysAndPeople => assert AppleName(SmileysAndEmotions) == Some(c);
  }

  /** A group of the emoji list with its emoji by value, in file order. */
  datatype Category = Category(name: Name, appleCategory: Option<AppleCategories.Name>,
                               emojis: OrderedMap<string, Emoji>)

  /** `init(name:emojis:)`: the presentation category is derived from the name, never taken
      from the caller. */
  function NewCategory(name: Name, emojis: OrderedMap<string, Emoji>): (c: Category)
    ensures c.name == name && c.emojis == emojis
    ensures c.appleCategory == AppleName(name)
    ensures c.appleCategory.None? <==> name == Components
    ensures c.appleCategory == Some(AppleCategories.SmileysAndPeople)
            <==> name == PeopleAndBody || name == SmileysAndEmotions
  {
    Category(name, AppleName(name), emojis)
  }
}
