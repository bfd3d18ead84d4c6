/** `AppleEmojiCategory`: the eight presentation categories, their rank, and the category
    record the final dataset is made of. */
module AppleCategories {
  import opened Emojis
  import opened OrderedDict
  import Sorting

  datatype Name = Flags | Activity | Objects | TravelAndPlaces | Symbols | AnimalsAndNature
                | FoodAndDrink | SmileysAndPeople

  /** `allCases`, in declaration order. */
  const AllCases: seq<Name> :=
    [Flags, Activity, Objects, TravelAndPlaces, Symbols, AnimalsAndNature, FoodAndDrink, SmileysAndPeople]

  /** The serialised name of a category. */
  function RawValue(n: Name): string {
    match n
    case Flags => "flags"
    case Activity => "activity"
    case Objects => "objects"
    case TravelAndPlaces => "travelAndPlaces"
    case Symbols => "symbols"
    case AnimalsAndNature => "animalsAndNature"
    case FoodAndDrink => "foodAndDrink"
    case SmileysAndPeople => "smileysAndPeople"
  }

  /** The rank a category is listed at. */
  function Order(n: Name): (r: int)
    ensures 1 <= r <= 8
    ensures r == 1 <==> n == SmileysAndPeople
    ensures r == 8 <==> n == Flags
  {
    match n
    case Flags => 8
    case Activity => 4
    case Objects => 6
    case TravelAndPlaces => 5
    case Symbols => 7
    case AnimalsAndNature => 2
    case FoodAndDrink => 3
    case SmileysAndPeople => 1
  }

  /** Every category is listed once in `allCases`, and the ranks of the eight cases are
      pairwise distinct, so `Order` is injective. */
  lemma AllCasesDistinctRanks()
    ensures |AllCases| == 8
    ensures forall n: Name :: n in AllCases
    ensures forall i, j | 0 <= i < j < |AllCases| :: Order(AllCases[i]) != Order(AllCases[j])
  {
    forall n: Name ensures n in AllCases {
      match n
      case Flags => assert AllCases[0] == n;
      case Activity => assert AllCases[1] == n;
      case Objects => assert AllCases[2] == n;
      case TravelAndPlaces => assert AllCases[3] == n;
      case Symbols => assert AllCases[4] == n;
      case AnimalsAndNature => assert AllCases[5] == n;
      case FoodAndDrink => assert AllCases[6] == n;
      case SmileysAndPeople => assert AllCases[7] == n;
    }
  }

  /** `Order` is injective. */
  lemma OrderInjective(a: Name, b: Name)
    requires Order(a) == Order(b)
    ensures a == b
  {
  }

  /** Raw names are pairwise distinct. */
  lemma RawValueInjective(a: Name, b: Name)
    requires RawValue(a) == RawValue(b)
    ensures a == b
  {
  }

  /** `orderedCases`: `allCases` sorted by `order`. */
  function OrderedCases(): seq<Name> {
    Sorting.SortBy(AllCases, Order)
  }

  /** The ordered cases are the eight categories ranked 1 to 8: a permutation of `allCases`
      whose ranks strictly increase. */
  lemma OrderedCasesRanks()
    ensures OrderedCases() == [SmileysAndPeople, AnimalsAndNature, FoodAndDrink, Activity,
                               TravelAndPlaces, Objects, Symbols, Flags]
    ensures forall i | 0 <= i < |OrderedCases()| :: Order(OrderedCases()[i]) == i + 1
    ensures multiset(OrderedCases()) == multiset(AllCases)
  {
    var expected := [SmileysAndPeople, AnimalsAndNature, FoodAndDrink, Activity,
                     TravelAndPlaces, Objects, Symbols, Flags];
    var oc := OrderedCases();
    ExpectedStrictlySorted(expected);
    SameCases(expected);
    Sorting.SortedPermutationOfStrict(oc, expected, Order);
  }

  /** Every category is listed in `orderedCases`. */
  lemma AllInOrderedCases()
    ensures forall n: Name :: n in OrderedCases()
  {
    OrderedCasesRanks();
    EveryNameListed(OrderedCases());
  }

  lemma EveryNameListed(oc: seq<Name>)
    requires oc == [SmileysAndPeople, AnimalsAndNature, FoodAndDrink, Activity,
                    TravelAndPlaces, Objects, Symbols, Flags]
    ensures forall n: Name :: n in oc
  {
    forall n: Name ensures n in oc {
      match n
      case SmileysAndPeople => assert oc[0] == n;
      case AnimalsAndNature => assert oc[1] == n;
      case FoodAndDrink => assert oc[2] == n;
      case Activity => assert oc[3] == n;
      case TravelAndPlaces => assert oc[4] == n;
      case Objects => assert oc[5] == n;
      case Symbols => assert oc[6] == n;
      case Flags => assert oc[7] == n;
    }
  }

  lemma ExpectedStrictlySorted(expected: seq<Name>)
    requires expected == [SmileysAndPeople, AnimalsAndNature, FoodAndDrink, Activity,
                          TravelAndPlaces, Objects, Symbols, Flags]
    ensures Sorting.StrictlySortedBy(expected, Order)
    ensures forall i | 0 <= i < |expected| :: Order(expected[i]) == i + 1
  {
    assert forall i | 0 <= i < |expected| :: Order(expected[i]) == i + 1;
  }

  lemma SameCases(expected: seq<Name>)
    requires expected == [SmileysAndPeople, AnimalsAndNature, FoodAndDrink, Activity,
                          TravelAndPlaces, Objects, Symbols, Flags]
    ensures multiset(expected) == multiset(AllCases)
  {
    AllCasesDistinctRanks();
    EveryNameListed(expected);
    assert Sorting.Distinct(AllCases);
    assert Sorting.Distinct(expected);
    Sorting.DistinctSameElements(expected, AllCases);
  }

  /** A presentation category: neutral emoji by value, in order, and the skin-tone variants
      of each neutral value. */
  datatype Category = Category(name: Name, emojis: OrderedMap<string, Emoji>,
                               variations: map<string, seq<Emoji>>)

  /** The `==` of the class: name and emojis only, variations are ignored. */
  predicate SameCategory(a: Category, b: Category) {
    a.name == b.name && a.emojis == b.emojis
  }

  /** `==` is an equivalence that cannot tell categories apart by their variations. */
  lemma SameCategoryIgnoresVariations(a: Category, v: map<string, seq<Emoji>>)
    ensures SameCategory(a, a.(variations := v))
    ensures v != a.variations ==> a != a.(variations := v)
  {
  }

  lemma SameCategoryIsEquivalence(a: Category, b: Category, c: Category)
    ensures SameCategory(a, a)
    ensures SameCategory(a, b) ==> SameCategory(b, a)
    ensures SameCategory(a, b) && SameCategory(b, c) ==> SameCategory(a, c)
  {
  }

  /** What `hash(into:)` feeds the hasher, as written: name, emojis and variations. */
  function HashedParts(c: Category): (Name, OrderedMap<string, Emoji>, map<string, seq<Emoji>>)
  {
    (c.name, c.emojis, c.variations)
  }

  /** `Hashable` asks equal values to feed the hasher alike; as written, two categories
      that `==` holds equal feed it different variations. */
  lemma HashedPartsSplitEqualCategories()
    ensures var a := Category(Flags, [], map[]);
            var b := Category(Flags, [], map["x" := []]);
            SameCategory(a, b) && HashedParts(a) != HashedParts(b)
  {
    var a := Category(Flags, [], map[]);
    var b := Category(Flags, [], map["x" := []]);
    assert "x" in HashedParts(b).2;
  }

  /** The hasher input that agrees with `==`: name and emojis. */
  function EqualityHashParts(c: Category): (Name, OrderedMap<string, Emoji>)
  {
    (c.name, c.emojis)
  }

  /** Categories that `==` holds equal feed the corrected hasher input alike, and only they do.
      This is the corrected `hash(into:)`: it combines exactly the parts `==` compares, so
      equal categories hash alike. */
  lemma EqualityHashPartsAgree(a: Category, b: Category)
    ensures SameCategory(a, b) <==> EqualityHashParts(a) == EqualityHashParts(b)
  {
  }
}
