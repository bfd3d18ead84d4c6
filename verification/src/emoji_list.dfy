/** `UnicodeParser.parseEmojiList`: reads the lines of an emoji test file, tracking the
    current group from its `# group:` headers and collecting the fully-qualified and
    component entries of every group, with keywords from the annotations. */
module EmojiList {
  import opened Wrappers
  import opened Emojis
  import opened Text
  import opened Scalars
  import opened OrderedDict
  import opened SkinTone
  import Sorting
  import U = UnicodeCategories

  const CommentTag: string := "#"
  const GroupTag: string := "# group:"
  const UnqualifiedTag: string := "unqualified"
  const MinimallyQualifiedTag: string := "minimally-qualified"

  /** The loop's variables: the current group, and the entries of each group whose header
      has been read. Before the first header the current group is `activities`, which has
      no entry map yet. */
  datatype State = State(currentGroup: U.Name, groups: map<U.Name, OrderedMap<string, Emoji>>)

  const Start: State := State(U.Activities, map[])

  /** The group a header names: the last `:`-separated piece, trimmed, as a raw name. A
      line with no piece, or whose last piece is no group's raw name, names none. */
  function HeaderGroup(line: string): (r: Option<U.Name>)
    ensures var p := Split(line, ':');
            var last := if p == [] then "" else Trim(p[|p| - 1]);
            (r.Some? ==> U.RawValue(r.value) == last) && (r.None? ==> forall n: U.Name :: U.RawValue(n) != last)
    ensures r.Some? ==> exists p | p in Split(line, ':') :: Trim(p) == U.RawValue(r.value)
  {
    var pieces := Split(line, ':');
    var name := if pieces == [] then "" else Trim(pieces[|pieces| - 1]);
    U.FromRaw(name)
  }

  /** `compactMap { $0.asEmoji() }.joined()`: the decodable tokens, decoded and joined. */
  function DecodeAll(tokens: seq<string>): (r: string)
    ensures |r| <= |tokens|
    ensures (forall i | 0 <= i < |tokens| :: AsEmoji(tokens[i]).None?) ==> r == []
  {
    if tokens == [] then []
    else
      (match AsEmoji(tokens[0]) case None => [] case Some(u) => u) + DecodeAll(tokens[1..])
  }

  /** Decoding distributes over a split of the token list. */
  lemma {:induction false} DecodeAllConcat(a: seq<string>, b: seq<string>)
    ensures DecodeAll(a + b) == DecodeAll(a) + DecodeAll(b)
  {
    if a == [] {
      assert a + b == b;
    } else {
      assert (a + b)[0] == a[0];
      assert (a + b)[1..] == a[1..] + b;
      DecodeAllConcat(a[1..], b);
    }
  }

  /** A token that names no scalar is dropped and the rest are still joined. */
  lemma DecodeAllSkipsInvalid(a: seq<string>, bad: string, b: seq<string>)
    requires AsEmoji(bad).None?
    ensures DecodeAll(a + [bad] + b) == DecodeAll(a + b)
  {
    DecodeAllConcat(a + [bad], b);
    DecodeAllConcat(a, [bad]);
    DecodeAllConcat(a, b);
  }

  /** The emoji a line lists, if it is an entry that is neither unqualified nor minimally
      qualified: the `;`-separated fields give the code points and the status; several
      code points are decoded one by one and joined, a single one is decoded whole. */
  function EntryValue(line: string): (r: Option<string>)
    ensures r.Some? ==> r.value != []
    ensures r.Some? ==> |Split(line, ';')| > 1
    ensures r.Some? ==> var status := Trim(Split(line, ';')[1]);
                        !StartsWith(status, UnqualifiedTag) && !StartsWith(status, MinimallyQualifiedTag)
  {
    var components := Split(line, ';');
    if |components| <= 1 then None
    else
      var hexString := Trim(components[0]);
      var status := Trim(components[1]);
      if StartsWith(status, UnqualifiedTag) || StartsWith(status, MinimallyQualifiedTag) then None
      else
        var tokens := Split(hexString, ' ');
        if |tokens| > 1 then
          var v := DecodeAll(tokens);
          if v == [] then None else Some(v)
        else
          match AsEmoji(hexString)
          case None => None
          case Some(u) => if u == [] then None else Some(u)
  }

  /** The keywords the annotations hold for an emoji, looked up without its variation
      selectors; none when it is not annotated. */
  function KeywordsFor(v: string, annotations: map<string, Emoji>): (r: seq<string>)
    ensures RemoveVariationSelectors(v) in annotations ==> r == annotations[RemoveVariationSelectors(v)].keywords
    ensures RemoveVariationSelectors(v) !in annotations ==> r == []
  {
    var key := RemoveVariationSelectors(v);
    if key in annotations then annotations[key].keywords else []
  }

  /** The qualified and unqualified forms of an emoji get the same keywords. */
  lemma KeywordsIgnoreVariationSelector(v: string, annotations: map<string, Emoji>)
    ensures KeywordsFor(v, annotations) == KeywordsFor(RemoveVariationSelectors(v), annotations)
  {
  }

  /** `emojisByGroup[currentGroup]?[v] = …`: a write that only happens once the current
      group has an entry map. */
  function Insert(s: State, v: string, annotations: map<string, Emoji>): (r: State)
    ensures r.currentGroup == s.currentGroup
    ensures r.groups.Keys == s.groups.Keys
    ensures forall g | g in s.groups && g != s.currentGroup :: r.groups[g] == s.groups[g]
    ensures s.currentGroup in s.groups ==>
              forall k :: Get(r.groups[s.currentGroup], k)
                          == if k == v then Some(Emoji(v, KeywordsFor(v, annotations)))
                             else Get(s.groups[s.currentGroup], k)
    ensures s.currentGroup !in s.groups ==> r == s
  {
    var g := s.currentGroup;
    if g in s.groups then
      s.(groups := s.groups[g := Set(s.groups[g], v, Emoji(v, KeywordsFor(v, annotations)))])
    else s
  }

  /** One pass of the loop body. Comments other than headers are skipped. A header naming
      a known group makes it current and clears its entries, and the line then goes on
      to the entry checks like any other; a header naming no group is skipped. */
  function ParseLine(s: State, line: string, annotations: map<string, Emoji>): State {
    var isHeader := StartsWith(line, GroupTag);
    if StartsWith(line, CommentTag) && !isHeader then s
    else if isHeader && HeaderGroup(line).None? then s
    else
      var s1 := if isHeader then
                  var g := HeaderGroup(line).value;
                  State(g, s.groups[g := []])
                else s;
      match EntryValue(line)
      case None => s1
      case Some(v) => Insert(s1, v, annotations)
  }

  /** Every stored entry is keyed by its own value, and keys are unique. */
  predicate Consistent(s: State) {
    forall g | g in s.groups ::
      UniqueKeys(s.groups[g]) && forall i | 0 <= i < |s.groups[g]| :: s.groups[g][i].0 == s.groups[g][i].1.value
  }

  /** The loop over the lines. It keeps every entry map consistent, and it only ever adds
      groups, after their header. */
  function ParseLines(s: State, lines: seq<string>, annotations: map<string, Emoji>): (r: State)
    requires Consistent(s)
    ensures Consistent(r)
    ensures s.groups.Keys <= r.groups.Keys
    decreases |lines|
  {
    if lines == [] then s
    else
      var s1 := ParseLine(s, lines[0], annotations);
      ParseLineConsistent(s, lines[0], annotations);
      ParseLines(s1, lines[1..], annotations)
  }

  lemma ParseLineConsistent(s: State, line: string, annotations: map<string, Emoji>)
    requires Consistent(s)
    ensures Consistent(ParseLine(s, line, annotations))
    ensures s.groups.Keys <= ParseLine(s, line, annotations).groups.Keys
  {
    var isHeader := StartsWith(line, GroupTag);
    if !(StartsWith(line, CommentTag) && !isHeader) && !(isHeader && HeaderGroup(line).None?) {
      var s1 := if isHeader then State(HeaderGroup(line).value, s.groups[HeaderGroup(line).value := []]) else s;
      assert Consistent(s1);
      if EntryValue(line).Some? {
        InsertConsistent(s1, EntryValue(line).value, annotations);
      }
    }
  }

  lemma InsertConsistent(s: State, v: string, annotations: map<string, Emoji>)
    requires Consistent(s)
    ensures Consistent(Insert(s, v, annotations))
  {
    var g := s.currentGroup;
    if g in s.groups {
      var m := s.groups[g];
      var e := Emoji(v, KeywordsFor(v, annotations));
      var m' := Set(m, v, e);
      forall i | 0 <= i < |m'| ensures m'[i].0 == m'[i].1.value {
        assert m'[i] == (v, e) || m'[i] in m;
      }
    }
  }

  /** The result: the ten groups in declaration order, each with the entries collected
      under its header, or none. */
  function ParseEmojiList(lines: seq<string>, annotations: map<string, Emoji>): (r: seq<U.Category>)
    ensures |r| == |U.AllCases|
    ensures forall i | 0 <= i < |r| :: r[i].name == U.AllCases[i] && r[i].appleCategory == U.AppleName(r[i].name)
    ensures forall i | 0 <= i < |r| :: UniqueKeys(r[i].emojis)
    ensures forall i, j | 0 <= i < |r| && 0 <= j < |r[i].emojis| :: r[i].emojis[j].0 == r[i].emojis[j].1.value
  {
    var s := ParseLines(Start, lines, annotations);
    seq(|U.AllCases|, i requires 0 <= i < |U.AllCases| =>
      U.NewCategory(U.AllCases[i], if U.AllCases[i] in s.groups then s.groups[U.AllCases[i]] else []))
  }

  // ---------------------------------------------------------------------------------------
  // The lines of an emoji list, and what one line does
  // ---------------------------------------------------------------------------------------

  /** The header line of a group, as the emoji list writes it. */
  function HeaderLine(g: U.Name): string {
    GroupTag + " " + U.RawValue(g)
  }

  /** A group name is non-empty and trimmed, and holds neither of the list's separators. */
  lemma RawValueShape(g: U.Name)
    ensures U.RawValue(g) != [] && Trimmed(U.RawValue(g))
    ensures ':' !in U.RawValue(g) && ';' !in U.RawValue(g)
  {
    RawValueTrimmed(g);
    RawValueNoColon(g);
    RawValueNoSemicolon(g);
  }

  lemma RawValueTrimmed(g: U.Name)
    ensures U.RawValue(g) != [] && Trimmed(U.RawValue(g))
  {
    match g
    case Flags =>
    case Activities =>
    case Components =>
    case Objects =>
    case TravelAndPlaces =>
    case Symbols =>
    case PeopleAndBody =>
    case AnimalsAndNature =>
    case FoodAndDrink =>
    case SmileysAndEmotions =>
  }

  lemma RawValueNoColon(g: U.Name)
    ensures ':' !in U.RawValue(g)
  {
    match g
    case Flags =>
    case Activities =>
    case Components =>
    case Objects =>
    case TravelAndPlaces =>
    case Symbols =>
    case PeopleAndBody =>
    case AnimalsAndNature =>
    case FoodAndDrink =>
    case SmileysAndEmotions =>
  }

  lemma RawValueNoSemicolon(g: U.Name)
    ensures ';' !in U.RawValue(g)
  {
    match g
    case Flags =>
    case Activities =>
    case Components =>
    case Objects =>
    case TravelAndPlaces =>
    case Symbols =>
    case PeopleAndBody =>
    case AnimalsAndNature =>
    case FoodAndDrink =>
    case SmileysAndEmotions =>
  }

  /** A line that makes a known group current. */
  predicate OpensGroup(line: string) {
    StartsWith(line, GroupTag) && HeaderGroup(line).Some?
  }

  /** A group's header line makes that group current and starts its entries afresh, whatever
      was collected under it before; it lists no emoji itself. */
  lemma {:induction false} HeaderLineStartsGroup(s: State, g: U.Name, annotations: map<string, Emoji>)
    ensures OpensGroup(HeaderLine(g)) && HeaderGroup(HeaderLine(g)) == Some(g)
    ensures ParseLine(s, HeaderLine(g), annotations) == State(g, s.groups[g := []])
  {
    HeaderLineNames(g);
    HeaderLineListsNothing(g);
  }

  /** The group a header line names is read back from it. */
  lemma {:induction false} HeaderLineNames(g: U.Name)
    ensures StartsWith(HeaderLine(g), GroupTag)
    ensures HeaderGroup(HeaderLine(g)) == Some(g)
  {
    var raw := U.RawValue(g);
    HeaderLinePieces(g);
    HeaderNameTrimmed(g);
    U.FromRawOfRaw(g);
    assert HeaderLine(g)[..|GroupTag|] == GroupTag;
  }

  /** The piece after the colon of a header line trims to the group's name. */
  lemma HeaderNameTrimmed(g: U.Name)
    ensures Trim(" " + U.RawValue(g)) == U.RawValue(g)
  {
    var raw := U.RawValue(g);
    RawValueTrimmed(g);
    TrimPadded(" ", raw, []);
    assert " " + raw + [] == " " + raw;
  }

  lemma {:induction false} HeaderLinePieces(g: U.Name)
    ensures Split(HeaderLine(g), ':') == [GroupTag[..7], " " + U.RawValue(g)]
  {
    var raw := U.RawValue(g);
    var tag := GroupTag[..7];
    RawValueShape(g);
    assert HeaderLine(g) == tag + [':'] + (" " + raw);
    SplitConcat(tag, " " + raw, ':');
    assert ':' !in tag;
    SplitWithoutSeparator(tag, ':');
    assert ':' !in " " + raw;
    SplitWithoutSeparator(" " + raw, ':');
  }

  /** A header line has no `;`, so it lists no emoji. */
  lemma {:induction false} HeaderLineListsNothing(g: U.Name)
    ensures EntryValue(HeaderLine(g)) == None
  {
    RawValueShape(g);
    assert ';' !in HeaderLine(g);
    SplitWithoutSeparator(HeaderLine(g), ';');
  }

  /** A line that names no group and lists no emoji changes nothing: comments, blank lines,
      lines with fewer than two fields, and lines whose status is excluded. */
  lemma LineWithoutEntry(s: State, line: string, annotations: map<string, Emoji>)
    requires !OpensGroup(line)
    requires StartsWith(line, CommentTag) || EntryValue(line).None?
    ensures ParseLine(s, line, annotations) == s
  {
  }

  /** Lines before the first header that names a known group are read but stored nowhere. */
  lemma {:induction false} LinesBeforeHeaderDropped(s: State, lines: seq<string>, annotations: map<string, Emoji>)
    requires Consistent(s) && s.currentGroup !in s.groups
    requires forall i | 0 <= i < |lines| :: !OpensGroup(lines[i])
    ensures ParseLines(s, lines, annotations) == s
    decreases |lines|
  {
    if lines != [] {
      assert ParseLine(s, lines[0], annotations) == s;
      LinesBeforeHeaderDropped(s, lines[1..], annotations);
    }
  }

  /** The code point tokens of a value, in the notation of the emoji list. */
  function HexTokens(v: string): (r: seq<string>)
    ensures |r| == |v|
    ensures forall i | 0 <= i < |r| :: r[i] != [] && AllHexDigits(r[i]) && ' ' !in r[i] && ';' !in r[i]
  {
    seq(|v|, i requires 0 <= i < |v| => HexOf(v[i] as int))
  }

  /** Decoding the tokens of a value gives the value. */
  lemma {:induction false} DecodeHexTokens(v: string)
    ensures DecodeAll(HexTokens(v)) == v
  {
    if v != [] {
      assert HexTokens(v)[0] == HexOf(v[0] as int);
      AsEmojiHexOf(v[0]);
      assert HexTokens(v)[1..] == HexTokens(v[1..]);
      DecodeHexTokens(v[1..]);
      assert v == [v[0]] + v[1..];
    }
  }

  /** A hex digit is neither whitespace nor a comment marker. */
  lemma HexDigitIsPlain(c: char)
    requires HexDigitValue(c).Some?
    ensures !IsWhitespace(c) && c != '#'
  {
  }

  /** A join of non-empty parts starts with the first part's first character and ends with
      the last part's last character. */
  lemma {:induction false} JoinEnds(parts: seq<string>, sep: char)
    requires |parts| >= 1
    requires forall i | 0 <= i < |parts| :: parts[i] != []
    ensures Join(parts, sep) != []
    ensures Join(parts, sep)[0] == parts[0][0]
    ensures Join(parts, sep)[|Join(parts, sep)| - 1] == parts[|parts| - 1][|parts[|parts| - 1]| - 1]
  {
    if |parts| > 1 {
      JoinEnds(parts[1..], sep);
    }
  }

  /** The code point field of a value's data line. */
  function CodePoints(v: string): (r: string)
    requires v != []
    ensures r != [] && Trimmed(r) && ';' !in r && r[0] != '#'
    ensures Split(r, ' ') == HexTokens(v)
  {
    var tokens := HexTokens(v);
    JoinEnds(tokens, ' ');
    HexDigitIsPlain(tokens[0][0]);
    HexDigitIsPlain(tokens[|tokens| - 1][|tokens[|tokens| - 1]| - 1]);
    SplitJoin(tokens, ' ');
    JoinKeepsOut(tokens, ' ', ';');
    Join(tokens, ' ')
  }

  lemma {:induction false} JoinKeepsOut(parts: seq<string>, sep: char, c: char)
    requires |parts| >= 1 && c != sep
    requires forall i | 0 <= i < |parts| :: c !in parts[i]
    ensures c !in Join(parts, sep)
  {
    if |parts| > 1 {
      JoinKeepsOut(parts[1..], sep, c);
    }
  }

  /** A data line of the emoji list: the code points, then `;` and a status field, which
      carries the trailing comment as well. */
  function EntryLine(v: string, status: string): string
    requires v != []
  {
    CodePoints(v) + " ; " + status
  }

  /** The statuses whose entries are kept: the fully-qualified ones and the components. */
  predicate Kept(status: string) {
    !StartsWith(Trim(status), UnqualifiedTag) && !StartsWith(Trim(status), MinimallyQualifiedTag)
  }

  /** A data line splits into its code point field and its status field. */
  lemma {:induction false} EntryLineFields(v: string, status: string)
    requires v != [] && ';' !in status
    ensures Split(EntryLine(v, status), ';') == [CodePoints(v) + " ", " " + status]
    ensures Trim(CodePoints(v) + " ") == CodePoints(v)
    ensures Trim(" " + status) == Trim(status)
    ensures !StartsWith(EntryLine(v, status), CommentTag)
  {
    EntryLineSplit(v, status);
    TrailingSpaceTrimmed(CodePoints(v));
    LeadingSpaceTrimmed(status);
    assert EntryLine(v, status)[0] == CodePoints(v)[0];
  }

  lemma TrailingSpaceTrimmed(s: string)
    requires Trimmed(s)
    ensures Trim(s + " ") == s
  {
    TrimPadded([], s, " ");
    assert [] + s + " " == s + " ";
  }

  lemma {:induction false} LeadingSpaceTrimmed(s: string)
    ensures Trim(" " + s) == Trim(s)
  {
    assert (" " + s)[1..] == s;
  }

  lemma {:induction false} EntryLineSplit(v: string, status: string)
    requires v != [] && ';' !in status
    ensures Split(EntryLine(v, status), ';') == [CodePoints(v) + " ", " " + status]
  {
    var cp := CodePoints(v);
    assert EntryLine(v, status) == (cp + " ") + [';'] + (" " + status);
    SplitConcat(cp + " ", " " + status, ';');
    assert ';' !in cp + " ";
    SplitWithoutSeparator(cp + " ", ';');
    assert ';' !in " " + status;
    SplitWithoutSeparator(" " + status, ';');
  }

  /** The value a data line lists is read back from it whenever its status is kept, and no
      value is read when it is not. */
  lemma {:induction false} EntryValueOfLine(v: string, status: string)
    requires v != [] && ';' !in status
    ensures EntryValue(EntryLine(v, status)) == if Kept(status) then Some(v) else None
  {
    EntryLineFields(v, status);
    var tokens := HexTokens(v);
    if Kept(status) {
      if |tokens| > 1 {
        DecodeHexTokens(v);
      } else {
        assert tokens == [HexOf(v[0] as int)];
        assert CodePoints(v) == HexOf(v[0] as int);
        AsEmojiHexOf(v[0]);
        assert v == [v[0]];
      }
    }
  }

  /** What one data line does: it stores its emoji under the current group when its status
      is kept, and changes nothing otherwise. */
  lemma {:induction false} ParseEntryLine(s: State, v: string, status: string, annotations: map<string, Emoji>)
    requires v != [] && ';' !in status
    ensures ParseLine(s, EntryLine(v, status), annotations)
            == if Kept(status) then Insert(s, v, annotations) else s
  {
    EntryLineIsData(v, status);
    EntryValueOfLine(v, status);
  }

  /** A data line is neither a comment nor a header. */
  lemma {:induction false} EntryLineIsData(v: string, status: string)
    requires v != [] && ';' !in status
    ensures !StartsWith(EntryLine(v, status), CommentTag)
    ensures !StartsWith(EntryLine(v, status), GroupTag)
  {
    EntryLineFields(v, status);
    assert EntryLine(v, status)[0] != '#';
  }

  // ---------------------------------------------------------------------------------------
  // Whole documents
  // ---------------------------------------------------------------------------------------

  /** One data line: a value and its status field. */
  datatype Entry = Entry(value: string, status: string)

  /** A group's header followed by its data lines. */
  datatype Section = Section(group: U.Name, entries: seq<Entry>)

  function Values(es: seq<Entry>): (r: seq<string>)
    ensures |r| == |es| && forall i | 0 <= i < |es| :: r[i] == es[i].value
  {
    seq(|es|, i requires 0 <= i < |es| => es[i].value)
  }

  /** Entries that can be written as data lines, with distinct values. */
  predicate Writable(es: seq<Entry>) {
    Sorting.Distinct(Values(es))
    && forall i | 0 <= i < |es| :: es[i].value != [] && ';' !in es[i].status
  }

  function EntryLines(es: seq<Entry>): (r: seq<string>)
    requires Writable(es)
    ensures |r| == |es|
  {
    seq(|es|, i requires 0 <= i < |es| && Writable(es) => EntryLine(es[i].value, es[i].status))
  }

  function SectionLines(sec: Section): seq<string>
    requires Writable(sec.entries)
  {
    [HeaderLine(sec.group)] + EntryLines(sec.entries)
  }

  /** The lines of consecutive sections. */
  function DocumentLines(secs: seq<Section>): seq<string>
    requires forall k | 0 <= k < |secs| :: Writable(secs[k].entries)
    decreases |secs|
  {
    if secs == [] then []
    else DocumentLines(secs[..|secs| - 1]) + SectionLines(secs[|secs| - 1])
  }

  /** Reference definition: the ordered map a group should end up with, the kept entries in
      file order, each with the keywords of its unqualified form. */
  function Stored(es: seq<Entry>, annotations: map<string, Emoji>): OrderedMap<string, Emoji> {
    if es == [] then []
    else
      (if Kept(es[0].status) then [(es[0].value, Emoji(es[0].value, KeywordsFor(es[0].value, annotations)))] else [])
      + Stored(es[1..], annotations)
  }

  /** Reference definition: the entries of the last section of a group, if it has one. */
  function LastSection(secs: seq<Section>, g: U.Name): (r: Option<seq<Entry>>)
    ensures r.Some? ==> exists k | 0 <= k < |secs| :: secs[k] == Section(g, r.value)
    ensures r.None? ==> forall k | 0 <= k < |secs| :: secs[k].group != g
    decreases |secs|
  {
    if secs == [] then None
    else if secs[|secs| - 1].group == g then Some(secs[|secs| - 1].entries)
    else LastSection(secs[..|secs| - 1], g)
  }

  /** Reading consecutive runs of lines is reading them one run after the other. */
  lemma {:induction false} ParseLinesConcat(s: State, a: seq<string>, b: seq<string>, annotations: map<string, Emoji>)
    requires Consistent(s)
    ensures ParseLines(s, a + b, annotations) == ParseLines(ParseLines(s, a, annotations), b, annotations)
    decreases |a|
  {
    if a == [] {
      assert a + b == b;
    } else {
      assert (a + b)[0] == a[0];
      assert (a + b)[1..] == a[1..] + b;
      ParseLineConsistent(s, a[0], annotations);
      ParseLinesConcat(ParseLine(s, a[0], annotations), a[1..], b, annotations);
    }
  }

  /** Reading a non-empty run of lines is reading its first line, then the rest. */
  lemma ParseLinesStep(s: State, lines: seq<string>, annotations: map<string, Emoji>)
    requires Consistent(s) && lines != []
    ensures Consistent(ParseLine(s, lines[0], annotations))
    ensures ParseLines(s, lines, annotations) == ParseLines(ParseLine(s, lines[0], annotations), lines[1..], annotations)
  {
    ParseLineConsistent(s, lines[0], annotations);
  }

  /** A line the loop reads past without effect: it opens no group, and it is a comment
      (a subgroup header, say) or holds no entry (a blank line, say). */
  predicate Skipped(line: string) {
    !OpensGroup(line) && (StartsWith(line, CommentTag) || EntryValue(line).None?)
  }

  /** The lines of a file that are not skipped, in order. */
  function Significant(lines: seq<string>): (r: seq<string>)
    ensures |r| <= |lines|
    ensures forall i | 0 <= i < |r| :: !Skipped(r[i]) && r[i] in lines
  {
    if lines == [] then []
    else if Skipped(lines[0]) then Significant(lines[1..])
    else [lines[0]] + Significant(lines[1..])
  }

  /** Dropping the skipped lines of a file does not change what the loop reads from it,
      from any state. */
  lemma {:induction false} SkippedLinesIgnored(s: State, lines: seq<string>, annotations: map<string, Emoji>)
    requires Consistent(s)
    ensures ParseLines(s, lines, annotations) == ParseLines(s, Significant(lines), annotations)
    decreases |lines|
  {
    if lines != [] {
      ParseLinesStep(s, lines, annotations);
      if Skipped(lines[0]) {
        LineWithoutEntry(s, lines[0], annotations);
        SkippedLinesIgnored(s, lines[1..], annotations);
      } else {
        var sig := Significant(lines);
        assert sig[0] == lines[0] && sig[1..] == Significant(lines[1..]);
        ParseLinesStep(s, sig, annotations);
        SkippedLinesIgnored(ParseLine(s, lines[0], annotations), lines[1..], annotations);
      }
    }
  }

  /** The group the current data line goes to, after it is read. */
  function AfterEntry(m: OrderedMap<string, Emoji>, e: Entry, annotations: map<string, Emoji>): OrderedMap<string, Emoji> {
    if Kept(e.status) then m + [(e.value, Emoji(e.value, KeywordsFor(e.value, annotations)))] else m
  }

  /** The state with the current group's entries replaced. */
  function WithCurrent(s: State, m: OrderedMap<string, Emoji>): (r: State)
    requires s.currentGroup in s.groups
    ensures r.currentGroup == s.currentGroup && r.currentGroup in r.groups && r.groups[r.currentGroup] == m
  {
    s.(groups := s.groups[s.currentGroup := m])
  }

  lemma WithCurrentTwice(s: State, m1: OrderedMap<string, Emoji>, m2: OrderedMap<string, Emoji>)
    requires s.currentGroup in s.groups
    ensures WithCurrent(WithCurrent(s, m1), m2) == WithCurrent(s, m2)
  {
  }

  /** The first data line of a run, read into a group that lacks its value. */
  lemma {:induction false} FirstEntry(s: State, es: seq<Entry>, annotations: map<string, Emoji>)
    requires Consistent(s) && s.currentGroup in s.groups && Writable(es) && es != []
    requires forall i | 0 <= i < |s.groups[s.currentGroup]| :: s.groups[s.currentGroup][i].0 != es[0].value
    ensures Writable(es[1..])
    ensures Consistent(WithCurrent(s, AfterEntry(s.groups[s.currentGroup], es[0], annotations)))
    ensures ParseLines(s, EntryLines(es), annotations)
            == ParseLines(WithCurrent(s, AfterEntry(s.groups[s.currentGroup], es[0], annotations)),
                          EntryLines(es[1..]), annotations)
  {
    FirstLineRead(s, es, annotations);
    ParseLinesStep(s, EntryLines(es), annotations);
  }

  lemma {:induction false} FirstLineRead(s: State, es: seq<Entry>, annotations: map<string, Emoji>)
    requires s.currentGroup in s.groups && Writable(es) && es != []
    requires forall i | 0 <= i < |s.groups[s.currentGroup]| :: s.groups[s.currentGroup][i].0 != es[0].value
    ensures Writable(es[1..])
    ensures EntryLines(es)[1..] == EntryLines(es[1..])
    ensures ParseLine(s, EntryLines(es)[0], annotations) == WithCurrent(s, AfterEntry(s.groups[s.currentGroup], es[0], annotations))
  {
    var e := es[0];
    EntryLinesTail(es);
    ParseEntryLine(s, e.value, e.status, annotations);
    if Kept(e.status) {
      InsertNew(s, e.value, annotations);
    }
  }

  lemma EntryLinesTail(es: seq<Entry>)
    requires Writable(es) && es != []
    ensures Writable(es[1..])
    ensures EntryLines(es)[0] == EntryLine(es[0].value, es[0].status)
    ensures EntryLines(es)[1..] == EntryLines(es[1..])
  {
    assert Values(es[1..]) == Values(es)[1..];
  }

  /** Storing a value the current group lacks appends it. */
  lemma InsertNew(s: State, v: string, annotations: map<string, Emoji>)
    requires s.currentGroup in s.groups
    requires forall i | 0 <= i < |s.groups[s.currentGroup]| :: s.groups[s.currentGroup][i].0 != v
    ensures Insert(s, v, annotations)
            == WithCurrent(s, s.groups[s.currentGroup] + [(v, Emoji(v, KeywordsFor(v, annotations)))])
  {
    var m := s.groups[s.currentGroup];
    assert v !in Keys(m) by {
      forall i | 0 <= i < |m| ensures Keys(m)[i] != v {
        assert m[i].0 != v;
      }
    }
  }

  /** Data lines after a header append their kept entries, in order, to the current group. */
  lemma {:induction false} EntriesAppend(s: State, es: seq<Entry>, annotations: map<string, Emoji>)
    requires Consistent(s) && s.currentGroup in s.groups && Writable(es)
    requires forall i, j | 0 <= i < |s.groups[s.currentGroup]| && 0 <= j < |es| ::
               s.groups[s.currentGroup][i].0 != es[j].value
    ensures ParseLines(s, EntryLines(es), annotations)
            == WithCurrent(s, s.groups[s.currentGroup] + Stored(es, annotations))
    decreases |es|
  {
    var g := s.currentGroup;
    var m := s.groups[g];
    if es == [] {
      assert m + [] == m;
      assert s.groups[g := m] == s.groups;
    } else {
      var rest := es[1..];
      FirstEntry(s, es, annotations);
      var m1 := AfterEntry(m, es[0], annotations);
      StillLacks(m, es, annotations);
      var s1 := WithCurrent(s, m1);
      EntriesAppend(s1, rest, annotations);
      AppendStored(m, es, annotations);
      WithCurrentTwice(s, m1, m1 + Stored(rest, annotations));
    }
  }

  /** With distinct values, the group still lacks every later value once the first is read. */
  lemma {:induction false} StillLacks(m: OrderedMap<string, Emoji>, es: seq<Entry>, annotations: map<string, Emoji>)
    requires Writable(es) && es != []
    requires forall i, j | 0 <= i < |m| && 0 <= j < |es| :: m[i].0 != es[j].value
    ensures forall i, j | 0 <= i < |AfterEntry(m, es[0], annotations)| && 0 <= j < |es[1..]| ::
              AfterEntry(m, es[0], annotations)[i].0 != es[1..][j].value
  {
    var m1 := AfterEntry(m, es[0], annotations);
    var rest := es[1..];
    forall i, j | 0 <= i < |m1| && 0 <= j < |rest| ensures m1[i].0 != rest[j].value {
      assert rest[j] == es[j + 1];
      if i == |m| {
        assert Values(es)[0] != Values(es)[j + 1];
      } else {
        assert m1[i] == m[i];
      }
    }
  }

  lemma {:induction false} AppendStored(m: OrderedMap<string, Emoji>, es: seq<Entry>, annotations: map<string, Emoji>)
    requires es != []
    ensures AfterEntry(m, es[0], annotations) + Stored(es[1..], annotations) == m + Stored(es, annotations)
  {
    var head := if Kept(es[0].status) then [(es[0].value, Emoji(es[0].value, KeywordsFor(es[0].value, annotations)))] else [];
    assert Stored(es, annotations) == head + Stored(es[1..], annotations);
    assert AfterEntry(m, es[0], annotations) == m + head;
    Associative(m, head, Stored(es[1..], annotations));
  }

  lemma Associative<T>(a: seq<T>, b: seq<T>, c: seq<T>)
    ensures (a + b) + c == a + (b + c)
  {
  }

  /** A section makes its group current and leaves it holding exactly the section's kept
      entries. */
  lemma {:induction false} SectionEffect(s: State, sec: Section, annotations: map<string, Emoji>)
    requires Consistent(s) && Writable(sec.entries)
    ensures ParseLines(s, SectionLines(sec), annotations)
            == State(sec.group, s.groups[sec.group := Stored(sec.entries, annotations)])
  {
    var s1 := State(sec.group, s.groups[sec.group := []]);
    SectionHeader(s, sec, annotations);
    var stored := Stored(sec.entries, annotations);
    EntriesAppend(s1, sec.entries, annotations);
    assert s1.groups[s1.currentGroup] + stored == stored;
    FreshGroupFilled(s, sec.group, stored);
  }

  lemma FreshGroupFilled(s: State, g: U.Name, m: OrderedMap<string, Emoji>)
    ensures WithCurrent(State(g, s.groups[g := []]), m) == State(g, s.groups[g := m])
  {
  }

  lemma {:induction false} SectionHeader(s: State, sec: Section, annotations: map<string, Emoji>)
    requires Consistent(s) && Writable(sec.entries)
    ensures Consistent(State(sec.group, s.groups[sec.group := []]))
    ensures ParseLines(s, SectionLines(sec), annotations)
            == ParseLines(State(sec.group, s.groups[sec.group := []]), EntryLines(sec.entries), annotations)
  {
    var lines := SectionLines(sec);
    HeaderLineStartsGroup(s, sec.group, annotations);
    assert lines[0] == HeaderLine(sec.group);
    assert lines[1..] == EntryLines(sec.entries);
    ParseLinesStep(s, lines, annotations);
  }

  /** After a run of sections every group that had one holds the kept entries of its last
      section; the others are as they were. */
  lemma {:induction false} DocumentEffect(s: State, secs: seq<Section>, annotations: map<string, Emoji>)
    requires Consistent(s)
    requires forall k | 0 <= k < |secs| :: Writable(secs[k].entries)
    ensures forall g :: g in ParseLines(s, DocumentLines(secs), annotations).groups
                        <==> g in s.groups || LastSection(secs, g).Some?
    ensures forall g | g in ParseLines(s, DocumentLines(secs), annotations).groups ::
              ParseLines(s, DocumentLines(secs), annotations).groups[g]
              == match LastSection(secs, g) { case None => s.groups[g] case Some(es) => Stored(es, annotations) }
    decreases |secs|
  {
    if secs != [] {
      var init := secs[..|secs| - 1];
      var last := secs[|secs| - 1];
      DocumentEffect(s, init, annotations);
      var t := ParseLines(s, DocumentLines(init), annotations);
      ParseLinesConcat(s, DocumentLines(init), SectionLines(last), annotations);
      SectionEffect(t, last, annotations);
    }
  }

  /** The emoji list a document of sections yields, after a preamble that names no group:
      every group holds the kept entries of its last section, with the keywords of their
      unqualified forms, in file order, and groups without a section are empty. */
  lemma {:induction false} ParseEmojiListOfDocument(preamble: seq<string>, secs: seq<Section>, annotations: map<string, Emoji>)
    requires forall i | 0 <= i < |preamble| :: !OpensGroup(preamble[i])
    requires forall k | 0 <= k < |secs| :: Writable(secs[k].entries)
    ensures forall i | 0 <= i < |U.AllCases| ::
              ParseEmojiList(preamble + DocumentLines(secs), annotations)[i].emojis
              == match LastSection(secs, U.AllCases[i]) { case None => [] case Some(es) => Stored(es, annotations) }
  {
    LinesBeforeHeaderDropped(Start, preamble, annotations);
    ParseLinesConcat(Start, preamble, DocumentLines(secs), annotations);
    DocumentEffect(Start, secs, annotations);
  }

  /** The same for a file that interleaves comments (subgroup headers among them) and
      blank lines anywhere: only its significant lines need to form the document. */
  lemma ParseEmojiListOfFile(lines: seq<string>, preamble: seq<string>, secs: seq<Section>, annotations: map<string, Emoji>)
    requires forall k | 0 <= k < |secs| :: Writable(secs[k].entries)
    requires forall i | 0 <= i < |preamble| :: !OpensGroup(preamble[i])
    requires Significant(lines) == preamble + DocumentLines(secs)
    ensures forall i | 0 <= i < |U.AllCases| ::
              ParseEmojiList(lines, annotations)[i].emojis
              == match LastSection(secs, U.AllCases[i]) { case None => [] case Some(es) => Stored(es, annotations) }
  {
    SkippedLinesIgnored(Start, lines, annotations);
    ParseEmojiListOfDocument(preamble, secs, annotations);
  }
}
