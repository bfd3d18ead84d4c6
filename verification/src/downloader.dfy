/** The part of the `download` command that combines its inputs: the annotation maps of
    the two CLDR documents, merged with the base document winning, and the check of each
    parsed group against the published count table. Downloading, file handles and saving
    the result are not part of this model. */
module Downloader {
  import opened Wrappers
  import opened Emojis
  import opened Annotations
  import EmojiList
  import U = UnicodeCategories

  /** `emojisMap(data:)`. A document that the XML parser accepts is given as the events it
      reports; `None` is a document it rejects. */
  function AnnotationsOf(document: Option<seq<Event>>): (r: Option<map<string, Emoji>>)
    ensures r.Some? <==> document.Some?
    ensures r.Some? ==> forall k | k in r.value :: r.value[k].value == k
  {
    match document
    case None => None
    case Some(events) => Some(EmojisMap(Run(Initial, events).emojis))
  }

  /** `emojisMap(data:) ?? [:]`: a rejected document contributes no annotations. */
  function LoadedAnnotations(document: Option<seq<Event>>): (r: map<string, Emoji>)
    ensures document.None? ==> r == map[]
    ensures forall k | k in r :: r[k].value == k
  {
    AnnotationsOf(document).GetOr(map[])
  }

  /** `base.merging(derived) { current, _ in current }`: every key of either map, with the
      base entry kept on a shared key. */
  function CombineAnnotations(base: map<string, Emoji>, derived: map<string, Emoji>): (r: map<string, Emoji>)
    ensures r.Keys == base.Keys + derived.Keys
    ensures forall k | k in base :: r[k] == base[k]
    ensures forall k | k in derived && k !in base :: r[k] == derived[k]
  {
    derived + base
  }

  /** The two documents of a run, each an annotation document. */
  function AllAnnotations(base: Option<seq<Event>>, derived: Option<seq<Event>>): (r: map<string, Emoji>)
    ensures forall k | k in r :: r[k].value == k
  {
    CombineAnnotations(LoadedAnnotations(base), LoadedAnnotations(derived))
  }

  /** A well-formed annotation document yields, for every `cp` it annotates, the entry of
      its last annotation, however the other document fares. */
  lemma {:induction false} BaseDocumentWins(nodes: seq<Node>, derived: Option<seq<Event>>, i: nat)
    requires forall j | 0 <= j < |nodes| :: WellFormed(nodes[j])
    requires i < |Entries(nodes)|
    requires forall j | i < j < |Entries(nodes)| :: Entries(nodes)[j].value != Entries(nodes)[i].value
    ensures Entries(nodes)[i].value in AllAnnotations(Some(Events(nodes)), derived)
    ensures AllAnnotations(Some(Events(nodes)), derived)[Entries(nodes)[i].value] == Entries(nodes)[i]
  {
    DocumentFromStart(nodes);
    EmojisMapLastWins(Entries(nodes), i);
  }

  /** A rejected base document leaves the derived document's annotations in force. */
  lemma DerivedWhenBaseRejected(derived: Option<seq<Event>>)
    ensures AllAnnotations(None, derived) == LoadedAnnotations(derived)
  {
  }

  datatype CountError = CountMismatch(group: U.Name)

  /** The assertion over the parsed groups, as a check that fails at the first group whose
      count is missing from the table or differs from its number of entries. */
  function CheckCounts(categories: seq<U.Category>, counts: map<U.Name, int>): (r: Result<seq<U.Category>, CountError>)
    ensures r.Success? <==> forall i | 0 <= i < |categories| ::
              categories[i].name in counts && counts[categories[i].name] == |categories[i].emojis|
    ensures r.Success? ==> r.value == categories
    ensures r.Failure? ==> exists i | 0 <= i < |categories| ::
              categories[i].name == r.error.group
              && (categories[i].name !in counts || counts[categories[i].name] != |categories[i].emojis|)
              && forall j | 0 <= j < i :: categories[j].name in counts && counts[categories[j].name] == |categories[j].emojis|
  {
    if categories == [] then Success(categories)
    else
      var c := categories[0];
      if c.name !in counts || counts[c.name] != |c.emojis| then Failure(CountMismatch(c.name))
      else match CheckCounts(categories[1..], counts) {
        case Success(_) => Success(categories)
        case Failure(e) => Failure(e)
      }
  }

  /** The combining part of a run: parse the list with both documents' annotations and
      check the counts. */
  function Process(lines: seq<string>, base: Option<seq<Event>>, derived: Option<seq<Event>>,
                   counts: map<U.Name, int>): (r: Result<seq<U.Category>, CountError>)
    ensures r.Success? ==> |r.value| == |U.AllCases|
    ensures r.Success? ==> forall i | 0 <= i < |r.value| ::
              r.value[i].name in counts && counts[r.value[i].name] == |r.value[i].emojis|
  {
    CheckCounts(EmojiList.ParseEmojiList(lines, AllAnnotations(base, derived)), counts)
  }

  /** An empty count table, which is what an unreadable count page gives, makes the check
      fail at the first group, since every run yields all ten groups. */
  lemma EmptyCountsFail(lines: seq<string>, base: Option<seq<Event>>, derived: Option<seq<Event>>)
    ensures Process(lines, base, derived, map[]) == Failure(CountMismatch(U.Flags))
  {
    var cats := EmojiList.ParseEmojiList(lines, AllAnnotations(base, derived));
    assert cats[0].name == U.Flags;
  }
}
