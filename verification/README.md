# EmojiKit data pipeline, modelled in Dafny

EmojiKit ships emoji grouped into the categories of Apple's emoji keyboard. Its offline
`download` command reads three kinds of input:

- the Unicode `emoji-test.txt` list;
- two CLDR annotation documents, which give the keywords;
- the Unicode count table.

From these it writes one dataset per Unicode version. At run time `EmojiManager` turns the
dataset into presentation categories:

- it keeps neutral emoji as entries;
- it files every skin-toned variant under its neutral form when all variations are requested;
- it merges the two people groups;
- it sorts the categories by rank.

This project models that pipeline as pure functions over immutable data, and proves what
each step promises. Its parts:

- **emoji list parser** (`UnicodeParser.parseEmojiList`): a fold over the lines;
- **CLDR annotation delegate** (`CLDRAnnotationsXMLHandler`): a fold over the XML parser's
  events;
- **annotation merge and count check** of the `download` command;
- **skin-tone folding**;
- **category construction** of `getAvailableEmojis`;
- the two closed enumerations: ten Unicode groups, and eight presentation categories with
  their ranks.

Representation choices:

- Emoji values are Dafny strings, so a `char` is one Unicode scalar. This is the
  `unicodeScalars` view the Swift code computes with.
- An `OrderedDictionary` is a sequence of key/value pairs with unique keys.
- A Swift `Dictionary` is a Dafny `map`.
- Keywords are the plain `[String]` of one locale, which is what `Emoji` declares. The
  delegate as written builds `Emoji(value:localizedKeywords:)` and needs `init(locale:)`,
  but its callers construct it without a locale. The model reads its keywords as that one
  locale's list.

The files are under `src/`:

| file | module | models |
|---|---|---|
| wrappers.dfy | `Wrappers` | `Option` and `Result` |
| text.dfy | `Text` | `trim()`, `split(separator:)` (empty pieces omitted), `starts(with:)` |
| scalars.dfy | `Scalars` | scalar values, `uint32ToEmoji`, `asEmoji()` on hex tokens |
| ordered_dict.dfy | `OrderedDict` | `OrderedDictionary` subscripts and `merge` keeping current values |
| sorting.dfy | `Sorting` | the sort by rank |
| emoji.dfy | `Emojis` | `Emoji` |
| unicode_category.dfy | `UnicodeCategories` | `UnicodeEmojiCategory` |
| apple_category.dfy | `AppleCategories` | `AppleEmojiCategory` |
| skin_tone.dfy | `SkinTone` | skin-tone folding of `EmojiManager` |
| emoji_manager.dfy | `EmojiManager` | `getAvailableEmojis` |
| available_emojis.dfy | `AvailableEmojis` | what `getAvailableEmojis` returns, as a reference definition, and the proof that it matches |
| emoji_list.dfy | `EmojiList` | `parseEmojiList` |
| annotations.dfy | `Annotations` | `CLDRAnnotationsXMLHandler` |
| downloader.dfy | `Downloader` | annotation maps and the count check of `EmojiDownloader` |

Some behaviours of the code are easy to misread. The model follows the code:

- **Status filter.** An entry is dropped when its trimmed status field *starts with*
  `unqualified` or `minimally-qualified`. It is a prefix test (`isLine`), not an equality
  test.
- **Header lines.** A `# group:` line naming a known group does not end the iteration. It
  goes on through the data-line checks, which drop it because it has no `;`.
- **People merge.** The merged people category always lists the Smileys & Emotion entries
  first, and their entries and variation lists win on shared keys. The order in which the
  two groups arrive does not matter.
- **Empty count table.** An empty count table does not skip the count assertion; it fails
  it. `emojiCounts[name]` is then `nil`, which differs from every count (see
  `Downloader.EmptyCountsFail`).
- **Ranks.** There are eight presentation categories, ranked 1 to 8.

## Model

| member | source | states |
|---|---|---|
| Scalars.ScalarToEmoji | Sources/EmojiKit/EmojiManager.swift:63-75 | a string exists exactly for values up to 0x10FFFF outside the surrogates, and it is that one scalar |
| Scalars.AsEmoji | Sources/EmojiSourceKit/UnicodeParser.swift:102 | a token decodes exactly when it is a non-empty run of hex digits naming a valid scalar, and gives that scalar |
| Scalars.AsEmojiHexOf | Sources/EmojiSourceKit/UnicodeParser.swift:88 | every scalar written in the list's hex notation decodes back to itself |
| Scalars.ParseHexOf | Sources/EmojiSourceKit/UnicodeParser.swift:84 | reading the hex notation of a number gives the number |
| Text.Trim | Sources/EmojiSourceKit/UnicodeParser.swift:56 | the result has no whitespace at either end, is no longer than the input, and is empty exactly when the input is all whitespace |
| Text.TrimPadded | Sources/EmojiSourceKit/UnicodeParser.swift:68 | trimming removes exactly the whitespace padding around a trimmed core |
| Text.TrimIdempotent | Sources/EmojiSourceKit/CLDRAnnotationsXMLHandler.swift:43 | trimming twice is trimming once |
| Text.SplitJoin | Sources/EmojiSourceKit/UnicodeParser.swift:65 | splitting on a separator gives back non-empty, separator-free pieces joined by it |
| Text.SplitConcat | Sources/EmojiSourceKit/UnicodeParser.swift:84 | a separator splits the piece list in two |
| Text.JoinFields | Sources/EmojiSourceKit/UnicodeParser.swift:55 | joining all fields of a string with the separator gives the string back |
| OrderedDict.Get | Sources/EmojiSourceKit/UnicodeParser.swift:91 | a key reads a value exactly when it is stored, and the pair read is stored |
| OrderedDict.Set | Sources/EmojiSourceKit/UnicodeParser.swift:95 | a write changes only the written key; an existing key keeps its position, a new one goes to the end; keys stay unique |
| OrderedDict.MergeKeepCurrent | Sources/EmojiKit/EmojiManager.swift:112 | a merge keeps the current map as a prefix and its values on shared keys, and has the keys of both sides |
| OrderedDict.MergeAppendsAbsent | Sources/EmojiKit/EmojiManager.swift:118 | the merge is the current pairs followed by the other side's pairs whose keys are new, in their order |
| Sorting.SortBy | Sources/EmojiKit/EmojiManager.swift:128 | the result is sorted by the key and is a permutation of the input |
| Sorting.SortedPermutationOfStrict | Sources/EmojiKit/AppleEmojiCategory.swift:34 | a sorted permutation of a list strictly ascending by the key is that list |
| UnicodeCategories.AllCasesComplete | Sources/EmojiKit/UnicodeEmojiCategory.swift:13-23 | `allCases` lists each of the ten groups exactly once |
| UnicodeCategories.RawValueInjective | Sources/EmojiKit/UnicodeEmojiCategory.swift:13-23 | the header names of the groups are pairwise distinct |
| UnicodeCategories.FromRaw | Sources/EmojiSourceKit/UnicodeParser.swift:57 | a name reads as a group exactly when it is that group's header name |
| UnicodeCategories.FromRawOfRaw | Sources/EmojiKit/UnicodeEmojiCategory.swift:13-23 | reading a group's header name gives the group back |
| UnicodeCategories.AppleName | Sources/EmojiKit/UnicodeEmojiCategory.swift:25-48 | only Component has no category; exactly People & Body and Smileys & Emotion go to smileys-and-people |
| UnicodeCategories.AppleNameInjectiveOutsideMerge | Sources/EmojiKit/UnicodeEmojiCategory.swift:25-48 | apart from the merged pair, distinct groups go to distinct categories |
| UnicodeCategories.AppleNameOnto | Sources/EmojiKit/UnicodeEmojiCategory.swift:25-48 | every presentation category is fed by some group |
| UnicodeCategories.NewCategory | Sources/EmojiKit/UnicodeEmojiCategory.swift:55-59 | the category keeps the name and entries it was given, and its Apple category is the name's Apple name: none only for Component |
| AppleCategories.Order | Sources/EmojiKit/AppleEmojiCategory.swift:37-56 | ranks lie in 1..8, with rank 1 exactly for smileys-and-people and rank 8 exactly for flags |
| AppleCategories.AllCasesDistinctRanks | Sources/EmojiKit/AppleEmojiCategory.swift:23-31 | there are eight categories and no two share a rank |
| AppleCategories.OrderInjective | Sources/EmojiKit/AppleEmojiCategory.swift:37-56 | equal ranks mean equal categories |
| AppleCategories.OrderedCasesRanks | Sources/EmojiKit/AppleEmojiCategory.swift:33-35 | `orderedCases` is a permutation of `allCases` in which the i-th category has rank i+1 |
| AppleCategories.AllInOrderedCases | Sources/EmojiKit/AppleEmojiCategory.swift:33-35 | every category appears in `orderedCases` |
| AppleCategories.SameCategoryIgnoresVariations | Sources/EmojiKit/AppleEmojiCategory.swift:12-14 | `==` holds between categories that differ only in their variations |
| AppleCategories.SameCategoryIsEquivalence | Sources/EmojiKit/AppleEmojiCategory.swift:12-14 | `==` is reflexive, symmetric and transitive |
| AppleCategories.HashedPartsSplitEqualCategories | Sources/EmojiKit/AppleEmojiCategory.swift:16-20 | two categories that `==` holds equal feed `hash(into:)` different inputs |
| AppleCategories.EqualityHashPartsAgree | Sources/EmojiKit/AppleEmojiCategory.swift:12-14 | hashing name and emojis only gives equal inputs exactly for categories `==` holds equal |
| SkinTone.NeutralEmoji | Sources/EmojiKit/EmojiManager.swift:147-150 | the result is neutral, and a neutral value is returned unchanged |
| SkinTone.NeutralEmojiMembers | Sources/EmojiKit/EmojiManager.swift:148 | exactly the skin-tone modifiers are removed |
| SkinTone.NeutralEmojiConcat | Sources/EmojiKit/EmojiManager.swift:148 | stripping distributes over concatenation, so the kept scalars stay in order |
| SkinTone.NeutralIffUnchanged | Sources/EmojiKit/EmojiManager.swift:139-141 | a value is neutral exactly when stripping leaves it unchanged |
| SkinTone.RemoveVariationSelectors | Sources/EmojiSourceKit/UnicodeParser.swift:121-133 | the result has no U+FE0F, and a value without one is unchanged |
| SkinTone.RemoveVariationSelectorsMembers | Sources/EmojiKit/EmojiManager.swift:153-161 | every scalar other than U+FE0F survives |
| SkinTone.SpecialMappingShape | Sources/EmojiKit/EmojiManager.swift:54-61 | the table's keys have at least three scalars and its targets are valid scalars that are neither modifiers nor U+FE0F |
| SkinTone.UnqualifiedNeutralEmoji | Sources/EmojiKit/EmojiManager.swift:152-170 | the key has no skin-tone modifier and no U+FE0F |
| SkinTone.UnqualifiedNeutralEmojiOverride | Sources/EmojiKit/EmojiManager.swift:163-169 | a stripped form in the table gives its single mapped scalar; any other stripped form is returned as is |
| SkinTone.UnqualifiedNeutralEmojiIdempotent | Sources/EmojiKit/EmojiManager.swift:152-170 | folding a key again changes nothing |
| SkinTone.HandshakeFolds | Sources/EmojiKit/EmojiManager.swift:55 | a toned handshake (1FAF1 1F3FB 200D 1FAF2 1F3FF) folds to 1F91D |
| SkinTone.KissFolds | Sources/EmojiKit/EmojiManager.swift:59 | a toned kiss with U+FE0F folds to 1F48F |
| EmojiManager.Partition | Sources/EmojiKit/EmojiManager.swift:91-103 | supported entries are neutral, unique and from the group; variation keys are neutral with non-empty lists; without all variations there are none |
| EmojiManager.PartitionMatchesReference | Sources/EmojiKit/EmojiManager.swift:91-103 | the supported map is the group's neutral entries in order; each variation list is the toned entries folding to its key, in order |
| EmojiManager.FirstIndexOf | Sources/EmojiKit/EmojiManager.swift:108 | the index found is the first category with the name, and none is found only when no category has it |
| EmojiManager.GetAvailableEmojis | Sources/EmojiKit/EmojiManager.swift:83-131 | an unreadable dataset gives no categories; otherwise the built categories, rearranged into rank order |
| AvailableEmojis.BuildReflects | Sources/EmojiKit/EmojiManager.swift:88-127 | after each group the loop holds one category per presentation name seen, each its expected merge of the groups so far |
| AvailableEmojis.GetAvailableEmojisCharacterized | Sources/EmojiKit/EmojiManager.swift:86-128 | with distinct group names, the result is the expected category of every fed name, in `orderedCases` order |
| AvailableEmojis.OrderIndependent | Sources/EmojiKit/EmojiManager.swift:108-120 | the result does not depend on the order of the groups in the dataset |
| AvailableEmojis.SmileysAndPeopleMerged | Sources/EmojiKit/EmojiManager.swift:108-120 | smileys-and-people comes first; its entries are Smileys' entries then People's new keys; its variation keys are the union, with Smileys' lists winning |
| AvailableEmojis.AddGroupSkips | Sources/EmojiKit/EmojiManager.swift:121-124 | the Component group adds nothing |
| AvailableEmojis.NeutralEntriesOnly | Sources/EmojiKit/EmojiManager.swift:91-103 | every returned entry and variation key is neutral, and there are no variations unless all are requested |
| EmojiList.HeaderGroup | Sources/EmojiSourceKit/UnicodeParser.swift:55-57 | a header names the group whose name is its last `:`-piece, trimmed, and names none when there is no piece or that piece is no group's name |
| EmojiList.HeaderLineStartsGroup | Sources/EmojiSourceKit/UnicodeParser.swift:54-61 | a group's header line makes the group current and empties its entries; it lists no emoji |
| EmojiList.HeaderLineListsNothing | Sources/EmojiSourceKit/UnicodeParser.swift:65-75 | a header line that falls through to the data checks yields no entry |
| EmojiList.LineWithoutEntry | Sources/EmojiSourceKit/UnicodeParser.swift:48-59 | a line that opens no group and is a comment (a header naming no known group included), or lists no emoji, leaves the state unchanged |
| EmojiList.Significant | Sources/EmojiSourceKit/UnicodeParser.swift:48-59 | every significant line is a line of the file that the loop does not read past without effect, and there are no more of them than lines |
| EmojiList.SkippedLinesIgnored | Sources/EmojiSourceKit/UnicodeParser.swift:41-119 | dropping comments and lines without an entry does not change what the loop reads from any state |
| EmojiList.LinesBeforeHeaderDropped | Sources/EmojiSourceKit/UnicodeParser.swift:43-44 | lines before the first header that names a known group store nothing |
| EmojiList.EntryValue | Sources/EmojiSourceKit/UnicodeParser.swift:65-82 | a value is read only from a line with at least two `;`-fields whose status is kept, and it is non-empty |
| EmojiList.EntryValueOfLine | Sources/EmojiSourceKit/UnicodeParser.swift:84-109 | a data line for any value reads that value back exactly when its status is kept |
| EmojiList.ParseEntryLine | Sources/EmojiSourceKit/UnicodeParser.swift:77-82 | a data line stores its value under the current group when its status is kept, and otherwise changes nothing |
| EmojiList.DecodeAll | Sources/EmojiSourceKit/UnicodeParser.swift:88 | at most one scalar per token, none when no token decodes |
| EmojiList.DecodeAllSkipsInvalid | Sources/EmojiSourceKit/UnicodeParser.swift:88 | a token that names no scalar is dropped and the rest still join |
| EmojiList.DecodeHexTokens | Sources/EmojiSourceKit/UnicodeParser.swift:84-88 | the code point tokens of a value decode and join back to the value |
| EmojiList.KeywordsFor | Sources/EmojiSourceKit/UnicodeParser.swift:91-107 | an emoji gets the keywords annotated for its unqualified form, and none when that form is not annotated |
| EmojiList.KeywordsIgnoreVariationSelector | Sources/EmojiSourceKit/UnicodeParser.swift:121-133 | an emoji and its form without U+FE0F get the same keywords |
| EmojiList.Insert | Sources/EmojiSourceKit/UnicodeParser.swift:95 | the write replaces or adds only the value's entry in the current group, and does nothing before the group has a map |
| EmojiList.ParseLines | Sources/EmojiSourceKit/UnicodeParser.swift:46-110 | every group map keeps unique keys, each entry keyed by its own value; groups once present stay present |
| EmojiList.ParseEmojiList | Sources/EmojiSourceKit/UnicodeParser.swift:113-118 | ten categories in `allCases` order, each with its Apple category, unique keys, entries keyed by their values |
| EmojiList.EntriesAppend | Sources/EmojiSourceKit/UnicodeParser.swift:95-106 | data lines with distinct values append their kept entries to the current group, in order |
| EmojiList.SectionEffect | Sources/EmojiSourceKit/UnicodeParser.swift:60-61 | a header and its data lines leave the group holding exactly that section's kept entries |
| EmojiList.ParseEmojiListOfDocument | Sources/EmojiSourceKit/UnicodeParser.swift:41-119 | after a preamble naming no group, each group holds the kept entries of its last section, with keywords, in file order; groups without a section are empty |
| EmojiList.ParseEmojiListOfFile | Sources/EmojiSourceKit/UnicodeParser.swift:41-119 | the same holds for a file that interleaves comments, subgroup headers and blank lines anywhere |
| Annotations.OnStart | Sources/EmojiSourceKit/CLDRAnnotationsXMLHandler.swift:23-31 | only a non-tts annotation with a `cp` makes it pending and clears the text; every start becomes the current element |
| Annotations.OnCharacters | Sources/EmojiSourceKit/CLDRAnnotationsXMLHandler.swift:33-37 | inside an annotation the trimmed chunk is appended to the gathered text; elsewhere nothing changes |
| Annotations.OnEnd | Sources/EmojiSourceKit/CLDRAnnotationsXMLHandler.swift:39-50 | an entry is added exactly when an annotation ends with a value pending, and its value is that value and its keywords are the `|`-pieces of the gathered text, trimmed; every end resets the state |
| Annotations.Keywords | Sources/EmojiSourceKit/CLDRAnnotationsXMLHandler.swift:43 | every keyword is trimmed and holds no `|` |
| Annotations.KeywordsOfPieces | Sources/EmojiSourceKit/CLDRAnnotationsXMLHandler.swift:43 | `|`-joined pieces give one keyword per piece, each piece trimmed |
| Annotations.Run | Sources/EmojiSourceKit/CLDRAnnotationsXMLHandler.swift:23-50 | entries are only appended, and each new one carries the `cp` of an entry-opening start or the pending value |
| Annotations.CharsGather | Sources/EmojiSourceKit/CLDRAnnotationsXMLHandler.swift:33-37 | inside an annotation the chunks are trimmed and appended in order |
| Annotations.AnnotationStep | Sources/EmojiSourceKit/CLDRAnnotationsXMLHandler.swift:24-29 | an annotation element adds its entry exactly when it is not tts and has a `cp` |
| Annotations.DocumentEntries | Sources/EmojiSourceKit/CLDRAnnotationsXMLHandler.swift:23-50 | a document appends exactly the entries of its entry-opening annotations, in order, and leaves the delegate idle |
| Annotations.DocumentFromStart | Sources/EmojiSourceKit/CLDRAnnotationsXMLHandler.swift:14-50 | read from the start, a document yields exactly its entries |
| Annotations.EmojisMap | Sources/EmojiSourceKit/CLDRAnnotationsXMLHandler.swift:56-58 | every entry's value is a key, and every key maps to an entry with that value |
| Annotations.EmojisMapLastWins | Sources/EmojiSourceKit/CLDRAnnotationsXMLHandler.swift:57 | the last entry with a value is the one kept |
| Downloader.AnnotationsOf | Sources/EmojiSourceKit/EmojiDownloader.swift:103-115 | a map exactly when the document parses; each key maps to an emoji with that value |
| Downloader.LoadedAnnotations | Sources/EmojiSourceKit/EmojiDownloader.swift:68 | a rejected document gives the empty map |
| Downloader.CombineAnnotations | Sources/EmojiSourceKit/EmojiDownloader.swift:79 | the keys are the union, the base entry is kept on a shared key, and the derived entry fills in the rest |
| Downloader.BaseDocumentWins | Sources/EmojiSourceKit/EmojiDownloader.swift:68-79 | a base-document annotation is what the combined map holds for its `cp`, whatever the derived document says |
| Downloader.DerivedWhenBaseRejected | Sources/EmojiSourceKit/EmojiDownloader.swift:77-79 | a rejected base document leaves the derived annotations in force |
| Downloader.CheckCounts | Sources/EmojiSourceKit/EmojiDownloader.swift:88-90 | it passes exactly when every group's count is in the table and equals its entry count; otherwise it names the first failing group |
| Downloader.Process | Sources/EmojiSourceKit/EmojiDownloader.swift:84-90 | a run that passes returns all ten groups, each matching its count |
| Downloader.EmptyCountsFail | Sources/EmojiSourceKit/EmojiDownloader.swift:86-90 | an empty count table fails at the first group, Flags |

## Findings

| source | as written | input that shows it | evidently intended | confidence | as-written member | corrected member |
|---|---|---|---|---|---|---|
| Sources/EmojiKit/AppleEmojiCategory.swift:16-20 | `hash(into:)` combines `variations`, which `==` ignores | two categories with the same name and emojis and variations `[:]` vs `["x": []]`: `==` holds, the hasher inputs differ | hash only what `==` compares, as `Hashable` requires | high for the mismatch of inputs; not executed | AppleCategories.HashedPartsSplitEqualCategories | AppleCategories.EqualityHashPartsAgree |

## Left out

- Downloading, file handles, the `Bundle` lookup, JSON decoding and saving are I/O.
  - `getAvailableEmojis` takes the decoded groups, with `None` for a dataset that cannot
    be read or decoded.
  - `parseEmojiList` takes the lines of the file.
  - `emojisMap(data:)` takes the XML parser's events, with `None` for a rejected document.
- The XML tokenizer is not modelled: the delegate is driven by an abstract event sequence.
  `parser(_:parseErrorOccurred:)` only prints.
- `parseCountHTML` depends on SwiftSoup DOM queries. Its result is an input to the count
  check.
- `parseEmojis`/`parseXML` discard their result.
- `filteredEmojis` in `getAvailableEmojis` is built and never used.
- `getSupportedVersion` and `Version` are availability checks. `localizedName` is a
  localization lookup. `Character.isEmoji` needs Unicode property tables.
- Diagnostics are not modelled: the `print` calls, and the missing-keywords messages of the
  parser.
- `asEmoji()` and `trim()` are extensions whose source is not shown. The model reads them
  as follows:
  - `asEmoji()`: a hex token (digits in either case) gives the scalar it names, or nothing
    for an invalid value such as a surrogate or a value above 0x10FFFF;
  - `trim()`: removes Unicode White_Space characters at both ends.
- Swift compares strings by canonical equivalence of grapheme clusters. The model compares
  scalar sequences.
- Sorting: Swift's `sorted(by:)` is modelled by a stable insertion sort. For datasets with
  distinct group names (what `parseEmojiList` writes), ranks are distinct, so the order of
  the result does not depend on the choice.
- The count check is an `assert`, which only runs in debug builds. It is modelled as a
  `Result` that fails at the first mismatching group.
- Documents: the annotation delegate's document lemmas cover documents whose non-annotation
  elements are not named `annotation`. Annotation elements are not nested.
- Parser documents: the document lemmas of the parser cover a file whose significant lines
  (comments, subgroup headers and blank lines dropped) are a preamble and sections, each a
  header followed only by data lines written as `CodePoints(v) ; status`, with distinct
  values. Data lines padded otherwise are not covered. A repeated value within one group
  replaces its entry in place; `Insert` states that case for a single line.
- Downloader.Process: states only what a passing run returns. The failure case is
  `CheckCounts`'s contract.
