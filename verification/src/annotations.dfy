/** `CLDRAnnotationsXMLHandler`: the delegate that turns the element events of a CLDR
    annotations document into emoji with keywords. The XML tokenizer is not modelled; its
    output is the sequence of events the delegate receives. */
module Annotations {
  import opened Wrappers
  import opened Emojis
  import opened Text

  datatype Event =
    | StartElement(name: string, attributes: map<string, string>)
    | Characters(chunk: string)
    | EndElement(name: string)

  /** The delegate's mutable state: the element being read, the pending emoji value, the
      emoji completed so far and the text gathered for the pending one. */
  datatype Handler = Handler(currentElement: string, currentEmoji: Option<string>,
                             emojis: seq<Emoji>, currentEmojiValue: string)

  const Initial: Handler := Handler("", None, [], "")

  const AnnotationTag: string := "annotation"

  /** An `annotation` start that opens an entry: it is not a text-to-speech name (an
      absent `type` counts as not `tts`) and it carries a `cp` attribute. */
  predicate OpensEntry(name: string, attributes: map<string, string>) {
    && name == AnnotationTag
    && !("type" in attributes && attributes["type"] == "tts")
    && "cp" in attributes
  }

  /** The keywords of an annotation's text: its non-empty `|`-separated pieces, trimmed. */
  function Keywords(text: string): (r: seq<string>)
    ensures forall i | 0 <= i < |r| :: Trimmed(r[i]) && '|' !in r[i]
  {
    var pieces := Split(text, '|');
    var r := TrimEach(pieces);
    assert forall i | 0 <= i < |r| :: r[i] == Trim(pieces[i]) && '|' !in r[i] by {
      TrimEachIs(pieces);
      forall i | 0 <= i < |r| ensures '|' !in Trim(pieces[i]) {
        TrimWithin(pieces[i]);
      }
    }
    r
  }

  /** Keywords written as `|`-separated pieces, none of them empty, come back as those
      pieces trimmed, one keyword per piece; a piece of blanks gives an empty keyword. */
  lemma {:induction false} KeywordsOfPieces(pieces: seq<string>)
    requires |pieces| >= 1
    requires forall i | 0 <= i < |pieces| :: pieces[i] != [] && '|' !in pieces[i]
    ensures |Keywords(Join(pieces, '|'))| == |pieces|
    ensures forall i | 0 <= i < |pieces| :: Keywords(Join(pieces, '|'))[i] == Trim(pieces[i])
  {
    SplitJoin(pieces, '|');
    TrimEachIs(pieces);
  }

  /** `didStartElement`: an entry-opening annotation makes its `cp` pending and clears the
      gathered text; any start becomes the current element. */
  function OnStart(h: Handler, name: string, attributes: map<string, string>): (r: Handler)
    ensures r.currentElement == name && r.emojis == h.emojis
    ensures OpensEntry(name, attributes) ==> r.currentEmoji == Some(attributes["cp"]) && r.currentEmojiValue == []
    ensures !OpensEntry(name, attributes) ==> r.currentEmoji == h.currentEmoji && r.currentEmojiValue == h.currentEmojiValue
  {
    var h' := if OpensEntry(name, attributes)
              then h.(currentEmoji := Some(attributes["cp"]), currentEmojiValue := "")
              else h;
    h'.(currentElement := name)
  }

  /** `foundCharacters`: inside an annotation the trimmed chunk is appended to the text. */
  function OnCharacters(h: Handler, chunk: string): (r: Handler)
    ensures r.currentElement == h.currentElement && r.currentEmoji == h.currentEmoji && r.emojis == h.emojis
    ensures h.currentElement == AnnotationTag ==> r.currentEmojiValue == h.currentEmojiValue + Trim(chunk)
    ensures h.currentElement != AnnotationTag ==> r == h
    ensures h.currentEmojiValue <= r.currentEmojiValue
  {
    if h.currentElement == AnnotationTag then h.(currentEmojiValue := h.currentEmojiValue + Trim(chunk))
    else h
  }

  /** `didEndElement`: closing an annotation with a pending value completes an entry with
      the keywords of the gathered text; any end clears the element, the pending value and
      the text. */
  function OnEnd(h: Handler, name: string): (r: Handler)
    ensures r.currentElement == [] && r.currentEmoji.None? && r.currentEmojiValue == []
    ensures h.emojis <= r.emojis && |r.emojis| <= |h.emojis| + 1
    ensures |r.emojis| == |h.emojis| + 1 <==> name == AnnotationTag && h.currentEmoji.Some?
    ensures |r.emojis| == |h.emojis| + 1 ==> r.emojis[|h.emojis|].value == h.currentEmoji.value
    ensures |r.emojis| == |h.emojis| + 1 ==>
              r.emojis[|h.emojis|] == Emoji(h.currentEmoji.value, Keywords(h.currentEmojiValue))
  {
    var emojis := if name == AnnotationTag && h.currentEmoji.Some?
                  then h.emojis + [Emoji(h.currentEmoji.value, Keywords(h.currentEmojiValue))]
                  else h.emojis;
    Handler("", None, emojis, "")
  }

  function Handle(h: Handler, e: Event): Handler {
    match e
    case StartElement(name, attributes) => OnStart(h, name, attributes)
    case Characters(chunk) => OnCharacters(h, chunk)
    case EndElement(name) => OnEnd(h, name)
  }

  /** The `cp` values of the entry-opening starts among the events. */
  function Opened(events: seq<Event>): set<string> {
    if events == [] then {}
    else
      (if events[0].StartElement? && OpensEntry(events[0].name, events[0].attributes)
       then {events[0].attributes["cp"]} else {})
        + Opened(events[1..])
  }

  /** The delegate fed the events in order. Entries are only ever appended, and each new
      entry's value is the `cp` of an entry-opening start among the events, or the value
      that was already pending. */
  function Run(h: Handler, events: seq<Event>): (r: Handler)
    ensures h.emojis <= r.emojis
    ensures forall i | |h.emojis| <= i < |r.emojis| ::
              r.emojis[i].value in Opened(events) || h.currentEmoji == Some(r.emojis[i].value)
    ensures r.currentEmoji.Some? ==> r.currentEmoji.value in Opened(events) || r.currentEmoji == h.currentEmoji
    decreases |events|
  {
    if events == [] then h
    else Run(Handle(h, events[0]), events[1..])
  }

  /** `emojisMap`: entries by value; a later entry replaces an earlier one. */
  function EmojisMap(emojis: seq<Emoji>): (m: map<string, Emoji>)
    ensures forall i | 0 <= i < |emojis| :: emojis[i].value in m
    ensures forall v | v in m :: m[v].value == v && m[v] in emojis
    decreases |emojis|
  {
    if emojis == [] then map[]
    else
      var last := emojis[|emojis| - 1];
      var m := EmojisMap(emojis[..|emojis| - 1]);
      assert forall i | 0 <= i < |emojis| - 1 :: emojis[i] == emojis[..|emojis| - 1][i];
      m[last.value := last]
  }

  /** The last entry with a given value is the one kept. */
  lemma {:induction false} EmojisMapLastWins(emojis: seq<Emoji>, i: nat)
    requires i < |emojis|
    requires forall j | i < j < |emojis| :: emojis[j].value != emojis[i].value
    ensures EmojisMap(emojis)[emojis[i].value] == emojis[i]
    decreases |emojis|
  {
    if i < |emojis| - 1 {
      var init := emojis[..|emojis| - 1];
      EmojisMapLastWins(init, i);
    }
  }

  // ---------------------------------------------------------------------------------------
  // Whole documents
  // ---------------------------------------------------------------------------------------

  /** A document as the delegate sees it: annotation elements holding text, starts and
      ends of the other elements, and text between elements. */
  datatype Node =
    | Annotation(attributes: map<string, string>, chunks: seq<string>)
    | Open(name: string, openAttributes: map<string, string>)
    | Close(name: string)
    | Between(chunk: string)

  predicate WellFormed(n: Node) {
    (n.Open? || n.Close?) ==> n.name != AnnotationTag
  }

  function CharEvents(chunks: seq<string>): seq<Event> {
    if chunks == [] then [] else [Characters(chunks[0])] + CharEvents(chunks[1..])
  }

  function NodeEvents(n: Node): seq<Event> {
    match n
    case Annotation(attributes, chunks) =>
      [StartElement(AnnotationTag, attributes)] + CharEvents(chunks) + [EndElement(AnnotationTag)]
    case Open(name, attributes) => [StartElement(name, attributes)]
    case Close(name) => [EndElement(name)]
    case Between(chunk) => [Characters(chunk)]
  }

  function Events(nodes: seq<Node>): seq<Event> {
    if nodes == [] then [] else NodeEvents(nodes[0]) + Events(nodes[1..])
  }

  /** Reference definition: one entry per entry-opening annotation, in document order, with
      the keywords of its trimmed chunks run together. */
  function Entries(nodes: seq<Node>): seq<Emoji> {
    if nodes == [] then [] else NodeEntry(nodes[0]) + Entries(nodes[1..])
  }

  /** Between elements nothing is pending and no annotation is open. */
  predicate Idle(h: Handler) {
    h.currentEmoji.None? && h.currentElement != AnnotationTag
  }

  lemma {:induction false} RunConcat(h: Handler, a: seq<Event>, b: seq<Event>)
    ensures Run(h, a + b) == Run(Run(h, a), b)
    decreases |a|
  {
    if a == [] {
      assert a + b == b;
    } else {
      assert (a + b)[0] == a[0] && (a + b)[1..] == a[1..] + b;
      RunConcat(Handle(h, a[0]), a[1..], b);
    }
  }

  /** Inside an annotation the chunks are trimmed and appended to the gathered text. */
  lemma {:induction false} CharsGather(h: Handler, chunks: seq<string>)
    requires h.currentElement == AnnotationTag
    ensures Run(h, CharEvents(chunks))
            == h.(currentEmojiValue := h.currentEmojiValue + Concat(TrimEach(chunks)))
    decreases |chunks|
  {
    if chunks != [] {
      var events := CharEvents(chunks);
      assert events[0] == Characters(chunks[0]) && events[1..] == CharEvents(chunks[1..]);
      var h' := OnCharacters(h, chunks[0]);
      assert Run(h, events) == Run(h', CharEvents(chunks[1..]));
      CharsGather(h', chunks[1..]);
      var t := TrimEach(chunks);
      assert t[0] == Trim(chunks[0]) && t[1..] == TrimEach(chunks[1..]);
      assert Concat(t) == Trim(chunks[0]) + Concat(TrimEach(chunks[1..]));
      assert h'.currentEmojiValue + Concat(TrimEach(chunks[1..]))
          == h.currentEmojiValue + Concat(TrimEach(chunks));
    }
  }

  /** One well-formed node leaves the delegate idle, having appended its entry if any. */
  lemma {:induction false} NodeStep(h: Handler, n: Node)
    requires Idle(h) && WellFormed(n)
    ensures Run(h, NodeEvents(n)).emojis == h.emojis + NodeEntry(n)
    ensures Idle(Run(h, NodeEvents(n)))
  {
    if n.Annotation? {
      AnnotationStep(h, n.attributes, n.chunks);
    }
  }

  function NodeEntry(n: Node): seq<Emoji> {
    match n
    case Annotation(attributes, chunks) =>
      if OpensEntry(AnnotationTag, attributes)
      then [Emoji(attributes["cp"], Keywords(Concat(TrimEach(chunks))))] else []
    case _ => []
  }

  /** An annotation element read from an idle delegate. */
  lemma {:induction false} AnnotationStep(h: Handler, attributes: map<string, string>, chunks: seq<string>)
    requires Idle(h)
    ensures Run(h, NodeEvents(Annotation(attributes, chunks))).emojis
            == h.emojis + NodeEntry(Annotation(attributes, chunks))
    ensures Idle(Run(h, NodeEvents(Annotation(attributes, chunks))))
  {
    var start := [StartElement(AnnotationTag, attributes)];
    var chars := CharEvents(chunks);
    var end := [EndElement(AnnotationTag)];
    assert NodeEvents(Annotation(attributes, chunks)) == start + chars + end;
    RunConcat(h, start + chars, end);
    RunConcat(h, start, chars);
    var h1 := OnStart(h, AnnotationTag, attributes);
    RunSingle(h, start[0]);
    CharsGather(h1, chunks);
    var h2 := Run(h1, chars);
    RunSingle(h2, end[0]);
    var text := Concat(TrimEach(chunks));
    if OpensEntry(AnnotationTag, attributes) {
      assert h2.currentEmoji == Some(attributes["cp"]);
      assert h2.currentEmojiValue == [] + text == text;
    } else {
      assert h2.currentEmoji.None?;
    }
  }

  lemma RunSingle(h: Handler, e: Event)
    ensures Run(h, [e]) == Handle(h, e)
  {
    assert [e][1..] == [];
  }

  /** A document of well-formed nodes read from an idle delegate appends exactly the
      entries of its entry-opening annotations, in order. */
  lemma {:induction false} DocumentEntries(h: Handler, nodes: seq<Node>)
    requires Idle(h)
    requires forall i | 0 <= i < |nodes| :: WellFormed(nodes[i])
    ensures Run(h, Events(nodes)).emojis == h.emojis + Entries(nodes)
    ensures Idle(Run(h, Events(nodes)))
    decreases |nodes|
  {
    if nodes != [] {
      var first := NodeEvents(nodes[0]);
      var rest := Events(nodes[1..]);
      assert Events(nodes) == first + rest;
      NodeStep(h, nodes[0]);
      var h1 := Run(h, first);
      RunConcat(h, first, rest);
      DocumentEntries(h1, nodes[1..]);
      AppendAssociative(h.emojis, NodeEntry(nodes[0]), Entries(nodes[1..]));
    }
  }

  lemma AppendAssociative(a: seq<Emoji>, b: seq<Emoji>, c: seq<Emoji>)
    ensures (a + b) + c == a + (b + c)
  {
  }

  /** Read from the start, a document yields exactly its entries. */
  lemma {:induction false} DocumentFromStart(nodes: seq<Node>)
    requires forall i | 0 <= i < |nodes| :: WellFormed(nodes[i])
    ensures Run(Initial, Events(nodes)).emojis == Entries(nodes)
  {
    DocumentEntries(Initial, nodes);
  }
}
