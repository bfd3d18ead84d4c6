/** What `getAvailableEmojis` produces, stated without the loop: for a dataset that lists
    every group at most once, each presentation category is determined by the groups that
    feed it, whatever order they come in, and the categories are listed by rank. */
module AvailableEmojis {
  import opened Wrappers
  import opened Emojis
  import opened OrderedDict
  import opened SkinTone
  import opened EmojiManager
  import Sorting
  import U = UnicodeCategories
  import A = AppleCategories

  predicate DistinctNames(groups: seq<U.Category>) {
    forall i, j | 0 <= i < j < |groups| :: groups[i].name != groups[j].name
  }

  /** The first group of the given name. */
  function Find(groups: seq<U.Category>, n: U.Name): (r: Option<U.Category>)
    ensures r.Some? ==> r.value in groups && r.value.name == n
    ensures r.None? ==> forall g | g in groups :: g.name != n
    decreases |groups|
  {
    if groups == [] then None
    else
      var init := groups[..|groups| - 1];
      var last := groups[|groups| - 1];
      assert groups == init + [last];
      var f := Find(init, n);
      if f.Some? then f
      else if last.name == n then Some(last)
      else None
  }

  /** The group that feeds a presentation category; the smileys group for the shared one. */
  function GroupFor(a: A.Name): (n: U.Name)
    ensures U.AppleName(n) == Some(a)
  {
    match a
    case Flags => U.Flags
    case Activity => U.Activities
    case Objects => U.Objects
    case TravelAndPlaces => U.TravelAndPlaces
    case Symbols => U.Symbols
    case AnimalsAndNature => U.AnimalsAndNature
    case FoodAndDrink => U.FoodAndDrink
    case SmileysAndPeople => U.SmileysAndEmotions
  }

  /** Outside the shared category, `GroupFor` is the only group feeding a category. */
  lemma GroupForUnique(n: U.Name, a: A.Name)
    requires U.AppleName(n) == Some(a) && a != A.SmileysAndPeople
    ensures n == GroupFor(a)
  {
    U.AppleNameInjectiveOutsideMerge(n, GroupFor(a));
  }

  function CategoryOf(a: A.Name, g: U.Category, showAll: bool): A.Category {
    A.Category(a, Supported(g, showAll), VariationsOf(g, showAll))
  }

  /** Reference definition of one presentation category. A category fed by one group holds
      that group's neutral entries and variations. The shared category, when both groups
      are present, holds the smileys entries followed by the people entries with new keys,
      and the variation lists of both, the smileys list winning on a shared key. */
  function Expected(groups: seq<U.Category>, showAll: bool, a: A.Name): (r: Option<A.Category>)
    ensures r.Some? ==> r.value.name == a
  {
    if a == A.SmileysAndPeople then
      match (Find(groups, U.SmileysAndEmotions), Find(groups, U.PeopleAndBody))
      case (None, None) => None
      case (Some(s), None) => Some(CategoryOf(a, s, showAll))
      case (None, Some(p)) => Some(CategoryOf(a, p, showAll))
      case (Some(s), Some(p)) =>
        Some(A.Category(a, MergeKeepCurrent(Supported(s, showAll), Supported(p, showAll)),
                        VariationsOf(p, showAll) + VariationsOf(s, showAll)))
    else
      match Find(groups, GroupFor(a))
      case None => None
      case Some(g) => Some(CategoryOf(a, g, showAll))
  }

  /** The expected categories for the given names, in that order. */
  function Present(names: seq<A.Name>, groups: seq<U.Category>, showAll: bool): seq<A.Category> {
    if names == [] then []
    else
      (match Expected(groups, showAll, names[0]) case None => [] case Some(c) => [c])
        + Present(names[1..], groups, showAll)
  }

  /** The invariant of the loop: the categories built so far have distinct names, each is
      the expected category for the groups seen so far, and every expected one is there. */
  predicate Reflects(acc: seq<A.Category>, groups: seq<U.Category>, showAll: bool) {
    && (forall i, j | 0 <= i < j < |acc| :: acc[i].name != acc[j].name)
    && (forall i | 0 <= i < |acc| :: Expected(groups, showAll, acc[i].name) == Some(acc[i]))
    && (forall a: A.Name :: Expected(groups, showAll, a).Some? ==> FirstIndexOf(acc, a).Some?)
  }

  lemma FindAppend(p: seq<U.Category>, g: U.Category, n: U.Name)
    ensures Find(p + [g], n) == if Find(p, n).Some? then Find(p, n) else if g.name == n then Some(g) else None
  {
    assert (p + [g])[..|p|] == p;
  }

  lemma NotYetSeen(p: seq<U.Category>, g: U.Category)
    requires DistinctNames(p + [g])
    ensures DistinctNames(p)
    ensures Find(p, g.name).None?
  {
    forall h | h in p ensures h.name != g.name {
      var i :| 0 <= i < |p| && p[i] == h;
      assert (p + [g])[i] == h && (p + [g])[|p|] == g;
    }
    assert forall i | 0 <= i < |p| :: p[i] == (p + [g])[i];
  }

  /** A group leaves the categories it does not feed as they were. */
  lemma ExpectedAppendOther(p: seq<U.Category>, g: U.Category, showAll: bool, a: A.Name)
    requires U.AppleName(g.name) != Some(a)
    ensures Expected(p + [g], showAll, a) == Expected(p, showAll, a)
  {
    FindAppend(p, g, U.SmileysAndEmotions);
    FindAppend(p, g, U.PeopleAndBody);
    FindAppend(p, g, GroupFor(a));
  }

  /** The component group is skipped. */
  lemma {:induction false} AddGroupSkips(acc: seq<A.Category>, p: seq<U.Category>, g: U.Category, showAll: bool)
    requires Reflects(acc, p, showAll) && g.name == U.Components
    ensures AddGroup(acc, g, showAll) == acc
    ensures Reflects(acc, p + [g], showAll)
  {
    forall a: A.Name {
      ExpectedAppendOther(p, g, showAll, a);
    }
  }

  /** The second group of the shared category is merged into the category the first one
      created. */
  lemma {:induction false} AddGroupMerges(acc: seq<A.Category>, p: seq<U.Category>, g: U.Category, showAll: bool)
    requires Reflects(acc, p, showAll) && DistinctNames(p + [g])
    requires ShouldMerge(g.name) && FirstIndexOf(acc, A.SmileysAndPeople).Some?
    ensures Reflects(AddGroup(acc, g, showAll), p + [g], showAll)
  {
    var i := FirstIndexOf(acc, A.SmileysAndPeople).value;
    var c := MergeStep(acc, p, g, showAll);
    forall a: A.Name | a != A.SmileysAndPeople {
      ExpectedAppendOther(p, g, showAll, a);
    }
    ReplaceKeepsReflects(acc, p, g, showAll, i, c);
  }

  /** The merge step computes the expected shared category. */
  lemma {:induction false} MergeStep(acc: seq<A.Category>, p: seq<U.Category>, g: U.Category, showAll: bool)
      returns (c: A.Category)
    requires Reflects(acc, p, showAll) && DistinctNames(p + [g])
    requires ShouldMerge(g.name) && FirstIndexOf(acc, A.SmileysAndPeople).Some?
    ensures Expected(p + [g], showAll, A.SmileysAndPeople) == Some(c)
    ensures AddGroup(acc, g, showAll) == acc[FirstIndexOf(acc, A.SmileysAndPeople).value := c]
  {
    NotYetSeen(p, g);
    var i := FirstIndexOf(acc, A.SmileysAndPeople).value;
    var other := if g.name == U.SmileysAndEmotions then U.PeopleAndBody else U.SmileysAndEmotions;
    FindAppend(p, g, g.name);
    FindAppend(p, g, other);
    assert Expected(p, showAll, A.SmileysAndPeople) == Some(acc[i]);
    c := AddGroup(acc, g, showAll)[i];
  }

  /** Replacing the shared category by its expected value keeps the invariant when the
      other categories are unaffected. */
  lemma {:induction false} ReplaceKeepsReflects(acc: seq<A.Category>, p: seq<U.Category>, g: U.Category,
                                               showAll: bool, i: nat, c: A.Category)
    requires Reflects(acc, p, showAll)
    requires i < |acc| && acc[i].name == A.SmileysAndPeople
    requires Expected(p + [g], showAll, A.SmileysAndPeople) == Some(c)
    requires forall a: A.Name | a != A.SmileysAndPeople :: Expected(p + [g], showAll, a) == Expected(p, showAll, a)
    ensures Reflects(acc[i := c], p + [g], showAll)
  {
    var r := acc[i := c];
    assert forall j | 0 <= j < |r| :: r[j].name == acc[j].name;
    forall j | 0 <= j < |r| ensures Expected(p + [g], showAll, r[j].name) == Some(r[j]) {
      if j != i {
        assert r[j] == acc[j];
      }
    }
    forall a: A.Name | Expected(p + [g], showAll, a).Some? ensures FirstIndexOf(r, a).Some? {
      if a == A.SmileysAndPeople {
        assert r[i].name == a;
      } else {
        var j := FirstIndexOf(acc, a).value;
        assert r[j].name == a;
      }
    }
  }

  /** Any other group that feeds a category creates it. */
  lemma {:induction false} AddGroupAppends(acc: seq<A.Category>, p: seq<U.Category>, g: U.Category, showAll: bool)
    requires Reflects(acc, p, showAll) && DistinctNames(p + [g])
    requires g.name != U.Components
    requires !(ShouldMerge(g.name) && FirstIndexOf(acc, A.SmileysAndPeople).Some?)
    ensures Reflects(AddGroup(acc, g, showAll), p + [g], showAll)
  {
    NotYetSeen(p, g);
    var a0 := U.AppleName(g.name).value;
    var c := CategoryOf(a0, g, showAll);
    var r := AddGroup(acc, g, showAll);
    assert r == acc + [c];
    FindAppend(p, g, g.name);
    if ShouldMerge(g.name) {
      var other := if g.name == U.SmileysAndEmotions then U.PeopleAndBody else U.SmileysAndEmotions;
      FindAppend(p, g, other);
      assert Expected(p, showAll, A.SmileysAndPeople).None?;
    } else {
      GroupForUnique(g.name, a0);
    }
    assert Expected(p, showAll, a0).None?;
    assert Expected(p + [g], showAll, a0) == Some(c);
    forall a: A.Name | a != a0 {
      ExpectedAppendOther(p, g, showAll, a);
    }
    forall a: A.Name | Expected(p + [g], showAll, a).Some? ensures FirstIndexOf(r, a).Some? {
      if a == a0 {
        assert r[|acc|].name == a;
      } else {
        var j := FirstIndexOf(acc, a).value;
        assert r[j].name == a;
      }
    }
  }

  /** The loop keeps the invariant. */
  lemma {:induction false} BuildReflects(groups: seq<U.Category>, showAll: bool)
    requires DistinctNames(groups)
    ensures Reflects(BuildCategories(groups, showAll), groups, showAll)
    decreases |groups|
  {
    if groups != [] {
      var p := groups[..|groups| - 1];
      var g := groups[|groups| - 1];
      assert groups == p + [g];
      NotYetSeen(p, g);
      BuildReflects(p, showAll);
      var acc := BuildCategories(p, showAll);
      if g.name == U.Components {
        AddGroupSkips(acc, p, g, showAll);
      } else if ShouldMerge(g.name) && FirstIndexOf(acc, A.SmileysAndPeople).Some? {
        AddGroupMerges(acc, p, g, showAll);
      } else {
        AddGroupAppends(acc, p, g, showAll);
      }
    }
  }

  /** The expected categories for names of strictly increasing rank are listed by strictly
      increasing rank, and each is the expected category of its name. */
  lemma PresentFacts(names: seq<A.Name>, groups: seq<U.Category>, showAll: bool)
    requires Sorting.StrictlySortedBy(names, A.Order)
    ensures Sorting.StrictlySortedBy(Present(names, groups, showAll), CategoryOrder)
    ensures forall c | c in Present(names, groups, showAll) ::
              c.name in names && Expected(groups, showAll, c.name) == Some(c)
    ensures forall a | a in names && Expected(groups, showAll, a).Some? ::
              Expected(groups, showAll, a).value in Present(names, groups, showAll)
  {
    PresentMembers(names, groups, showAll);
    PresentComplete(names, groups, showAll);
    PresentSorted(names, groups, showAll);
  }

  lemma {:induction false} PresentMembers(names: seq<A.Name>, groups: seq<U.Category>, showAll: bool)
    ensures forall c | c in Present(names, groups, showAll) ::
              c.name in names && Expected(groups, showAll, c.name) == Some(c)
  {
    if names != [] {
      PresentMembers(names[1..], groups, showAll);
      forall c | c in Present(names[1..], groups, showAll) ensures c.name in names {
        assert c.name in names[1..];
      }
    }
  }

  lemma {:induction false} PresentComplete(names: seq<A.Name>, groups: seq<U.Category>, showAll: bool)
    ensures forall a | a in names && Expected(groups, showAll, a).Some? ::
              Expected(groups, showAll, a).value in Present(names, groups, showAll)
  {
    if names != [] {
      PresentComplete(names[1..], groups, showAll);
      forall a | a in names && Expected(groups, showAll, a).Some?
        ensures Expected(groups, showAll, a).value in Present(names, groups, showAll) {
        if a != names[0] {
          assert a in names[1..];
        }
      }
    }
  }

  lemma {:induction false} PresentSorted(names: seq<A.Name>, groups: seq<U.Category>, showAll: bool)
    requires Sorting.StrictlySortedBy(names, A.Order)
    ensures Sorting.StrictlySortedBy(Present(names, groups, showAll), CategoryOrder)
  {
    if names != [] {
      Sorting.StrictlySortedTail(names, A.Order);
      PresentSorted(names[1..], groups, showAll);
      PresentMembers(names[1..], groups, showAll);
      var rest := Present(names[1..], groups, showAll);
      forall c | c in rest ensures A.Order(names[0]) < A.Order(c.name) {
        var k :| 0 <= k < |names[1..]| && names[1..][k] == c.name;
        assert names[k + 1] == c.name;
      }
      var head := match Expected(groups, showAll, names[0]) case None => [] case Some(c) => [c];
      StrictlySortedPrepend(head, rest, A.Order(names[0]));
    }
  }

  /** At most one category of rank `k` in front of categories of greater rank keeps the
      list strictly sorted. */
  lemma StrictlySortedPrepend(head: seq<A.Category>, rest: seq<A.Category>, k: int)
    requires |head| <= 1 && forall c | c in head :: CategoryOrder(c) == k
    requires Sorting.StrictlySortedBy(rest, CategoryOrder)
    requires forall c | c in rest :: k < CategoryOrder(c)
    ensures Sorting.StrictlySortedBy(head + rest, CategoryOrder)
  {
    var r := head + rest;
    forall i, j | 0 <= i < j < |r| ensures CategoryOrder(r[i]) < CategoryOrder(r[j]) {
      if i < |head| {
        assert r[i] in head && r[j] in rest;
      } else {
        assert r[i] == rest[i - |head|] && r[j] == rest[j - |head|];
      }
    }
  }

  /** `getAvailableEmojis`, for a dataset listing each group at most once, is the expected
      category of every presentation category that has a group, in rank order. */
  lemma GetAvailableEmojisCharacterized(groups: seq<U.Category>, showAll: bool)
    requires DistinctNames(groups)
    ensures GetAvailableEmojis(Some(groups), showAll) == Present(A.OrderedCases(), groups, showAll)
  {
    A.OrderedCasesRanks();
    A.AllInOrderedCases();
    SortedIsPresent(groups, showAll, A.OrderedCases());
  }

  lemma {:induction false} SortedIsPresent(groups: seq<U.Category>, showAll: bool, oc: seq<A.Name>)
    requires DistinctNames(groups)
    requires forall n: A.Name :: n in oc
    requires forall i | 0 <= i < |oc| :: A.Order(oc[i]) == i + 1
    ensures GetAvailableEmojis(Some(groups), showAll) == Present(oc, groups, showAll)
  {
    var built := BuildCategories(groups, showAll);
    BuildReflects(groups, showAll);
    assert Sorting.StrictlySortedBy(oc, A.Order);
    var e := Present(oc, groups, showAll);
    PresentFacts(oc, groups, showAll);
    BuiltMatchesPresent(built, e, groups, showAll, oc);
    PresentDistinct(e);
    Sorting.DistinctSameElements(built, e);
    Sorting.SortedPermutationOfStrict(GetAvailableEmojis(Some(groups), showAll), e, CategoryOrder);
  }

  lemma BuiltMatchesPresent(built: seq<A.Category>, e: seq<A.Category>, groups: seq<U.Category>,
                            showAll: bool, oc: seq<A.Name>)
    requires Reflects(built, groups, showAll)
    requires forall n: A.Name :: n in oc
    requires forall c | c in e :: Expected(groups, showAll, c.name) == Some(c)
    requires forall a | a in oc && Expected(groups, showAll, a).Some? ::
               Expected(groups, showAll, a).value in e
    ensures Sorting.Distinct(built)
    ensures forall x :: x in built <==> x in e
  {
    forall x ensures x in built <==> x in e {
      if x in built {
        var i :| 0 <= i < |built| && built[i] == x;
        assert Expected(groups, showAll, x.name) == Some(x);
      }
      if x in e {
        var i := FirstIndexOf(built, x.name).value;
        assert Expected(groups, showAll, built[i].name) == Some(built[i]);
      }
    }
  }

  lemma PresentDistinct(e: seq<A.Category>)
    requires Sorting.StrictlySortedBy(e, CategoryOrder)
    ensures Sorting.Distinct(e)
  {
    forall i, j | 0 <= i < j < |e| ensures e[i] != e[j] {
      assert CategoryOrder(e[i]) < CategoryOrder(e[j]);
    }
  }

  // ---------------------------------------------------------------------------------------
  // Consequences
  // ---------------------------------------------------------------------------------------

  /** In a dataset listing each group at most once, a group is found exactly when listed. */
  lemma FindDistinct(groups: seq<U.Category>, n: U.Name, x: U.Category)
    requires DistinctNames(groups)
    ensures Find(groups, n) == Some(x) <==> x in groups && x.name == n
  {
    if x in groups && x.name == n {
      var y := Find(groups, n).value;
      var i :| 0 <= i < |groups| && groups[i] == x;
      var j :| 0 <= j < |groups| && groups[j] == y;
      assert i == j;
    }
  }

  lemma {:induction false} PresentCongruent(names: seq<A.Name>, g1: seq<U.Category>, g2: seq<U.Category>, showAll: bool)
    requires forall a: A.Name :: Expected(g1, showAll, a) == Expected(g2, showAll, a)
    ensures Present(names, g1, showAll) == Present(names, g2, showAll)
  {
    if names != [] {
      PresentCongruent(names[1..], g1, g2, showAll);
    }
  }

  /** The result does not depend on the order the groups are listed in: in particular it
      does not matter which of the two groups of the shared category comes first. */
  lemma OrderIndependent(g1: seq<U.Category>, g2: seq<U.Category>, showAll: bool)
    requires DistinctNames(g1) && DistinctNames(g2)
    requires multiset(g1) == multiset(g2)
    ensures GetAvailableEmojis(Some(g1), showAll) == GetAvailableEmojis(Some(g2), showAll)
  {
    ExpectedSame(g1, g2, showAll);
    GetAvailableEmojisCharacterized(g1, showAll);
    GetAvailableEmojisCharacterized(g2, showAll);
    PresentCongruent(A.OrderedCases(), g1, g2, showAll);
  }

  lemma ExpectedSame(g1: seq<U.Category>, g2: seq<U.Category>, showAll: bool)
    requires DistinctNames(g1) && DistinctNames(g2)
    requires multiset(g1) == multiset(g2)
    ensures forall a: A.Name :: Expected(g1, showAll, a) == Expected(g2, showAll, a)
  {
    forall a: A.Name ensures Expected(g1, showAll, a) == Expected(g2, showAll, a) {
      FindSame(g1, g2, U.SmileysAndEmotions);
      FindSame(g1, g2, U.PeopleAndBody);
      FindSame(g1, g2, GroupFor(a));
    }
  }

  lemma FindSame(g1: seq<U.Category>, g2: seq<U.Category>, n: U.Name)
    requires DistinctNames(g1) && DistinctNames(g2)
    requires multiset(g1) == multiset(g2)
    ensures Find(g1, n) == Find(g2, n)
  {
    forall x ensures Find(g1, n) == Some(x) <==> Find(g2, n) == Some(x) {
      FindDistinct(g1, n, x);
      FindDistinct(g2, n, x);
      assert x in g1 <==> x in multiset(g1);
      assert x in g2 <==> x in multiset(g2);
    }
  }

  /** With both the smileys group and the people group present, the first category listed
      is the shared one: the smileys entries in their order followed by the people entries
      whose value is new, in their order; a value with variation lists in both groups keeps
      the smileys list. */
  lemma SmileysAndPeopleMerged(groups: seq<U.Category>, showAll: bool, s: U.Category, p: U.Category)
    requires DistinctNames(groups)
    requires s in groups && s.name == U.SmileysAndEmotions
    requires p in groups && p.name == U.PeopleAndBody
    ensures var r := GetAvailableEmojis(Some(groups), showAll);
            && r != [] && r[0].name == A.SmileysAndPeople
            && r[0].emojis == Supported(s, showAll) + Absent(Keys(Supported(s, showAll)), Supported(p, showAll))
            && (forall k :: k in r[0].variations <==> k in VariationsOf(s, showAll) || k in VariationsOf(p, showAll))
            && (forall k | k in VariationsOf(s, showAll) :: r[0].variations[k] == VariationsOf(s, showAll)[k])
            && (forall k | k in VariationsOf(p, showAll) && k !in VariationsOf(s, showAll) ::
                  r[0].variations[k] == VariationsOf(p, showAll)[k])
  {
    FindDistinct(groups, U.SmileysAndEmotions, s);
    FindDistinct(groups, U.PeopleAndBody, p);
    MergeAppendsAbsent(Supported(s, showAll), Supported(p, showAll));
    var c := A.Category(A.SmileysAndPeople,
                        Supported(s, showAll) + Absent(Keys(Supported(s, showAll)), Supported(p, showAll)),
                        VariationsOf(p, showAll) + VariationsOf(s, showAll));
    assert Expected(groups, showAll, A.SmileysAndPeople) == Some(c);
    GetAvailableEmojisCharacterized(groups, showAll);
    A.OrderedCasesRanks();
    PresentHead(A.OrderedCases(), groups, showAll, c);
  }

  lemma PresentHead(oc: seq<A.Name>, groups: seq<U.Category>, showAll: bool, c: A.Category)
    requires oc != [] && A.Order(oc[0]) == 1
    requires Expected(groups, showAll, A.SmileysAndPeople) == Some(c)
    ensures Present(oc, groups, showAll) != [] && Present(oc, groups, showAll)[0] == c
  {
  }

  /** Every category listed holds only neutral emoji as entries, and variation lists only
      under neutral values; without the request for all variations there are none. This
      holds for any dataset, repeated groups included. */
  lemma NeutralEntriesOnly(groups: seq<U.Category>, showAll: bool)
    ensures forall c | c in GetAvailableEmojis(Some(groups), showAll) ::
              && (forall i | 0 <= i < |c.emojis| :: IsNeutralEmoji(c.emojis[i].0))
              && (forall k | k in c.variations :: IsNeutralEmoji(k))
              && (!showAll ==> c.variations == map[])
  {
    var built := BuildCategories(groups, showAll);
    BuildNeutral(groups, showAll);
    var r := GetAvailableEmojis(Some(groups), showAll);
    forall c | c in r ensures NeutralCategory(c, showAll) {
      assert c in multiset(built);
    }
  }

  predicate NeutralCategory(c: A.Category, showAll: bool) {
    && (forall i | 0 <= i < |c.emojis| :: IsNeutralEmoji(c.emojis[i].0))
    && (forall k | k in c.variations :: IsNeutralEmoji(k))
    && (!showAll ==> c.variations == map[])
  }

  lemma {:induction false} BuildNeutral(groups: seq<U.Category>, showAll: bool)
    ensures forall c | c in BuildCategories(groups, showAll) :: NeutralCategory(c, showAll)
    decreases |groups|
  {
    if groups != [] {
      BuildNeutral(groups[..|groups| - 1], showAll);
      AddGroupNeutral(BuildCategories(groups[..|groups| - 1], showAll), groups[|groups| - 1], showAll);
    }
  }

  lemma AddGroupNeutral(acc: seq<A.Category>, g: U.Category, showAll: bool)
    requires forall c | c in acc :: NeutralCategory(c, showAll)
    ensures forall c | c in AddGroup(acc, g, showAll) :: NeutralCategory(c, showAll)
  {
    var index := FirstIndexOf(acc, A.SmileysAndPeople);
    if ShouldMerge(g.name) && index.Some? {
      var i := index.value;
      MergedNeutral(acc[i], g, showAll);
      var r := AddGroup(acc, g, showAll);
      forall c | c in r ensures NeutralCategory(c, showAll) {
        var j :| 0 <= j < |r| && r[j] == c;
        if j != i {
          assert c == acc[j];
        }
      }
    }
  }

  lemma MergedNeutral(c: A.Category, g: U.Category, showAll: bool)
    requires NeutralCategory(c, showAll)
    ensures NeutralCategory(c.(emojis := MergeKeepCurrent(Supported(g, showAll), c.emojis),
                               variations := c.variations + VariationsOf(g, showAll)), showAll)
    ensures NeutralCategory(c.(emojis := MergeKeepCurrent(c.emojis, Supported(g, showAll)),
                               variations := VariationsOf(g, showAll) + c.variations), showAll)
  {
    var sup := Supported(g, showAll);
    var vars := VariationsOf(g, showAll);
    MergedKeysNeutral(sup, c.emojis);
    MergedKeysNeutral(c.emojis, sup);
    assert forall k | k in c.variations + vars :: IsNeutralEmoji(k);
    assert forall k | k in vars + c.variations :: IsNeutralEmoji(k);
  }

  lemma MergedKeysNeutral(m: OrderedMap<string, Emoji>, other: OrderedMap<string, Emoji>)
    requires forall i | 0 <= i < |m| :: IsNeutralEmoji(m[i].0)
    requires forall i | 0 <= i < |other| :: IsNeutralEmoji(other[i].0)
    ensures forall i | 0 <= i < |MergeKeepCurrent(m, other)| :: IsNeutralEmoji(MergeKeepCurrent(m, other)[i].0)
  {
    var r := MergeKeepCurrent(m, other);
    MergeKeepCurrentFrom(m, other);
    forall i | 0 <= i < |r| ensures IsNeutralEmoji(r[i].0) {
      assert r[i] in r;
    }
  }
}
