/** `EmojiManager.getAvailableEmojis`: the decoded groups of the dataset become the sorted
    presentation categories, keeping neutral emoji as entries and folding the skin-tone
    variants under their neutral value. */
module EmojiManager {
  import opened Wrappers
  import opened Emojis
  import opened OrderedDict
  import opened SkinTone
  import Sorting
  import U = UnicodeCategories
  import A = AppleCategories

  type Variations = map<string, seq<Emoji>>

  // ---------------------------------------------------------------------------------------
  // Partitioning one group
  // ---------------------------------------------------------------------------------------

  /** The `forEach` over a group's emoji, as a fold over its entries in order: neutral
      entries are written into the supported map, the others are appended (only when all
      variations are requested) to the list of their unqualified neutral form. */
  function Partition(entries: OrderedMap<string, Emoji>, showAll: bool): (r: (OrderedMap<string, Emoji>, Variations))
    ensures UniqueKeys(r.0)
    ensures forall i | 0 <= i < |r.0| :: IsNeutralEmoji(r.0[i].0) && r.0[i] in entries
    ensures !showAll ==> r.1 == map[]
    ensures forall k | k in r.1 :: r.1[k] != [] && IsNeutralEmoji(k)
    decreases |entries|
  {
    if entries == [] then ([], map[])
    else
      var prev := Partition(entries[..|entries| - 1], showAll);
      var (supported, variations) := prev;
      var (key, emoji) := entries[|entries| - 1];
      if IsNeutralEmoji(key) then
        var s := Set(supported, key, emoji);
        assert forall i | 0 <= i < |supported| :: supported[i] in entries[..|entries| - 1];
        (s, variations)
      else if showAll then
        var k := UnqualifiedNeutralEmoji(key);
        (supported, variations[k := if k in variations then variations[k] + [emoji] else [emoji]])
      else prev
  }

  /** Reference definition: the neutral entries of a group, in order. */
  function NeutralEntries(entries: OrderedMap<string, Emoji>): OrderedMap<string, Emoji>
    decreases |entries|
  {
    if entries == [] then []
    else
      var last := entries[|entries| - 1];
      NeutralEntries(entries[..|entries| - 1]) + (if IsNeutralEmoji(last.0) then [last] else [])
  }

  /** Reference definition: the skin-toned entries of a group whose unqualified neutral
      form is `k`, in order. */
  function VariantsOf(entries: OrderedMap<string, Emoji>, k: string): seq<Emoji>
    decreases |entries|
  {
    if entries == [] then []
    else
      var last := entries[|entries| - 1];
      VariantsOf(entries[..|entries| - 1], k)
        + (if !IsNeutralEmoji(last.0) && UnqualifiedNeutralEmoji(last.0) == k then [last.1] else [])
  }

  lemma {:induction false} NeutralEntriesFrom(entries: OrderedMap<string, Emoji>)
    ensures forall i | 0 <= i < |NeutralEntries(entries)| :: NeutralEntries(entries)[i] in entries
    decreases |entries|
  {
    if entries != [] {
      var init := entries[..|entries| - 1];
      NeutralEntriesFrom(init);
      forall i | 0 <= i < |NeutralEntries(entries)| ensures NeutralEntries(entries)[i] in entries {
        if i < |NeutralEntries(init)| {
          assert NeutralEntries(entries)[i] == NeutralEntries(init)[i];
          assert NeutralEntries(init)[i] in init;
        }
      }
    }
  }

  /** For a group with unique keys the supported map is exactly its neutral entries in
      order, and, when all variations are requested, the variations map sends each
      unqualified neutral form to exactly the skin-toned entries that fold to it, in order. */
  lemma PartitionMatchesReference(entries: OrderedMap<string, Emoji>, showAll: bool)
    requires UniqueKeys(entries)
    ensures Partition(entries, showAll).0 == NeutralEntries(entries)
    ensures showAll ==> forall k :: (k in Partition(entries, showAll).1 <==> VariantsOf(entries, k) != [])
    ensures showAll ==> forall k | k in Partition(entries, showAll).1 ::
              Partition(entries, showAll).1[k] == VariantsOf(entries, k)
  {
    PartitionSupported(entries, showAll);
    if showAll {
      PartitionVariations(entries);
    }
  }

  lemma {:induction false} PartitionSupported(entries: OrderedMap<string, Emoji>, showAll: bool)
    requires UniqueKeys(entries)
    ensures Partition(entries, showAll).0 == NeutralEntries(entries)
    decreases |entries|
  {
    if entries != [] {
      var init := entries[..|entries| - 1];
      var last := entries[|entries| - 1];
      assert UniqueKeys(init);
      PartitionSupported(init, showAll);
      var supported := Partition(init, showAll).0;
      if IsNeutralEmoji(last.0) {
        forall i | 0 <= i < |supported| ensures Keys(supported)[i] != last.0 {
          var j :| 0 <= j < |init| && init[j] == supported[i];
          assert entries[j] == init[j];
        }
      }
    }
  }

  lemma {:induction false} PartitionVariations(entries: OrderedMap<string, Emoji>)
    ensures forall k :: (k in Partition(entries, true).1 <==> VariantsOf(entries, k) != [])
    ensures forall k | k in Partition(entries, true).1 :: Partition(entries, true).1[k] == VariantsOf(entries, k)
    decreases |entries|
  {
    if entries != [] {
      var init := entries[..|entries| - 1];
      var last := entries[|entries| - 1];
      PartitionVariations(init);
      var vars := Partition(init, true).1;
      var vars' := Partition(entries, true).1;
      forall k ensures (k in vars' <==> VariantsOf(entries, k) != [])
                       && (k in vars' ==> vars'[k] == VariantsOf(entries, k)) {
        assert VariantsOf(entries, k) == VariantsOf(init, k)
          + (if !IsNeutralEmoji(last.0) && UnqualifiedNeutralEmoji(last.0) == k then [last.1] else []);
      }
    }
  }

  // ---------------------------------------------------------------------------------------
  // Building the presentation categories
  // ---------------------------------------------------------------------------------------

  function Supported(g: U.Category, showAll: bool): OrderedMap<string, Emoji> {
    Partition(g.emojis, showAll).0
  }

  function VariationsOf(g: U.Category, showAll: bool): Variations {
    Partition(g.emojis, showAll).1
  }

  /** `shouldMergeCategory`: the two groups that share the smileys-and-people category. */
  predicate ShouldMerge(name: U.Name) {
    name == U.SmileysAndEmotions || name == U.PeopleAndBody
  }

  /** `firstIndex(where:)` on the category name. */
  function FirstIndexOf(cats: seq<A.Category>, n: A.Name): (r: Option<nat>)
    ensures r.Some? ==> r.value < |cats| && cats[r.value].name == n
                        && forall j | 0 <= j < r.value :: cats[j].name != n
    ensures r.None? ==> forall j | 0 <= j < |cats| :: cats[j].name != n
  {
    if cats == [] then None
    else if cats[0].name == n then Some(0)
    else match FirstIndexOf(cats[1..], n) {
      case None => None
      case Some(i) => Some(i + 1)
    }
  }

  /** One iteration of the loop over the groups. A merged group whose shared category
      already exists is merged into it: the smileys group's entries and variation lists
      take precedence over what is there, the people group's entries only fill in new keys.
      Otherwise the group is appended as a category of its own, unless it has none. */
  function AddGroup(acc: seq<A.Category>, g: U.Category, showAll: bool): seq<A.Category> {
    var supported := Supported(g, showAll);
    var variations := VariationsOf(g, showAll);
    var unicodeCategory := U.NewCategory(g.name, supported);
    var index := FirstIndexOf(acc, A.SmileysAndPeople);
    if ShouldMerge(g.name) && index.Some? then
      var i := index.value;
      if g.name == U.SmileysAndEmotions then
        acc[i := acc[i].(emojis := MergeKeepCurrent(supported, acc[i].emojis),
                         variations := acc[i].variations + variations)]
      else
        acc[i := acc[i].(emojis := MergeKeepCurrent(acc[i].emojis, supported),
                         variations := variations + acc[i].variations)]
    else if unicodeCategory.appleCategory.None? then acc
    else acc + [A.Category(unicodeCategory.appleCategory.value, supported, variations)]
  }

  /** The loop over the groups, in file order. */
  function BuildCategories(groups: seq<U.Category>, showAll: bool): seq<A.Category>
    decreases |groups|
  {
    if groups == [] then []
    else AddGroup(BuildCategories(groups[..|groups| - 1], showAll), groups[|groups| - 1], showAll)
  }

  function CategoryOrder(c: A.Category): int {
    A.Order(c.name)
  }

  /** `getAvailableEmojis`: `None` stands for a dataset that cannot be read or decoded,
      which yields no categories; otherwise the built categories sorted by rank. */
  function GetAvailableEmojis(groups: Option<seq<U.Category>>, showAll: bool): (r: seq<A.Category>)
    ensures groups.None? ==> r == []
    ensures Sorting.SortedBy(r, CategoryOrder)
    ensures groups.Some? ==> multiset(r) == multiset(BuildCategories(groups.value, showAll))
  {
    match groups
    case None => []
    case Some(gs) => Sorting.SortBy(BuildCategories(gs, showAll), CategoryOrder)
  }
}
