/** Skin-tone folding of `EmojiManager`: recognising the emoji modifiers U+1F3FB..U+1F3FF
    (definition ED-13 in section 1.4 of Unicode Technical Standard #51), stripping them and
    the variation selector U+FE0F, and the override table for two-person gestures. The
    result is the key every skin-toned variant is filed under. */
module SkinTone {
  import opened Wrappers
  import opened Scalars

  /** The characters of `v` that `drop` does not select, in their original order. */
  function Without(v: string, drop: char -> bool): (r: string)
    ensures |r| <= |v|
    ensures forall i | 0 <= i < |r| :: !drop(r[i])
    ensures (forall i | 0 <= i < |v| :: !drop(v[i])) ==> r == v
  {
    if v == [] then []
    else
      var rest := Without(v[1..], drop);
      assert v == [v[0]] + v[1..];
      (if drop(v[0]) then [] else [v[0]]) + rest
  }

  /** Exactly the kept characters survive. */
  lemma {:induction false} WithoutMembers(v: string, drop: char -> bool)
    ensures forall c :: c in Without(v, drop) <==> c in v && !drop(c)
  {
    if v != [] {
      WithoutMembers(v[1..], drop);
      assert v == [v[0]] + v[1..];
    }
  }

  /** Filtering keeps whatever every character had. */
  lemma {:induction false} WithoutKeeps(v: string, drop: char -> bool, p: char -> bool)
    requires forall i | 0 <= i < |v| :: p(v[i])
    ensures forall i | 0 <= i < |Without(v, drop)| :: p(Without(v, drop)[i])
  {
    if v != [] {
      WithoutKeeps(v[1..], drop, p);
    }
  }

  /** Filtering distributes over concatenation, which is what "keeps the others in their
      original order" means. */
  lemma {:induction false} WithoutConcat(a: string, b: string, drop: char -> bool)
    ensures Without(a + b, drop) == Without(a, drop) + Without(b, drop)
  {
    if a == [] {
      assert a + b == b;
    } else {
      assert (a + b)[1..] == a[1..] + b;
      WithoutConcat(a[1..], b, drop);
    }
  }

  const SkinToneFirst: int := 0x1F3FB
  const SkinToneLast: int := 0x1F3FF

  /** `isSkinToneModifier(scalar:)`. */
  predicate IsSkinToneModifier(c: char) {
    SkinToneFirst <= c as int <= SkinToneLast
  }

  /** `isNeutralEmoji(for:)`: no scalar of the value is a skin-tone modifier. */
  predicate IsNeutralEmoji(v: string) {
    forall i | 0 <= i < |v| :: !IsSkinToneModifier(v[i])
  }

  /** `neutralEmoji(for:)`: the value with every skin-tone modifier removed. */
  function NeutralEmoji(v: string): (r: string)
    ensures IsNeutralEmoji(r)
    ensures IsNeutralEmoji(v) ==> r == v
  {
    Without(v, IsSkinToneModifier)
  }

  /** Stripping removes the modifiers and nothing else. */
  lemma NeutralEmojiMembers(v: string)
    ensures forall c :: c in NeutralEmoji(v) <==> c in v && !IsSkinToneModifier(c)
  {
    WithoutMembers(v, IsSkinToneModifier);
  }

  /** A value is neutral exactly when stripping leaves it unchanged. */
  lemma NeutralIffUnchanged(v: string)
    ensures IsNeutralEmoji(v) <==> NeutralEmoji(v) == v
  {
  }

  /** Stripping works scalar by scalar: the non-modifier scalars keep their order. */
  lemma NeutralEmojiConcat(a: string, b: string)
    ensures NeutralEmoji(a + b) == NeutralEmoji(a) + NeutralEmoji(b)
  {
    WithoutConcat(a, b, IsSkinToneModifier);
  }

  /** VARIATION SELECTOR-16, which requests emoji presentation. */
  const VariationSelector16: char := '\U{FE0F}'

  predicate IsVariationSelector16(c: char) {
    c == VariationSelector16
  }

  /** The loop of `unqualifiedNeutralEmoji` and `makeEmojiUnqualified`: every U+FE0F removed. */
  function RemoveVariationSelectors(v: string): (r: string)
    ensures VariationSelector16 !in r
    ensures VariationSelector16 !in v ==> r == v
  {
    Without(v, IsVariationSelector16)
  }

  /** Only U+FE0F is removed. */
  lemma RemoveVariationSelectorsMembers(v: string)
    ensures forall c | c != VariationSelector16 :: c in RemoveVariationSelectors(v) <==> c in v
  {
    WithoutMembers(v, IsVariationSelector16);
  }

  /** Neutral form with U+FE0F removed, before the override table is consulted. */
  function StrippedForm(v: string): (r: string)
    ensures IsNeutralEmoji(r) && VariationSelector16 !in r
  {
    WithoutKeeps(NeutralEmoji(v), IsVariationSelector16, c => !IsSkinToneModifier(c));
    RemoveVariationSelectors(NeutralEmoji(v))
  }

  /** `emojiSpecialMapping`: stripped two-person gestures whose neutral emoji is a different,
      single scalar. */
  const SpecialMapping: map<seq<int>, int> := map[
    [0x1FAF1, 0x200D, 0x1FAF2] := 0x1F91D,                          // handshake
    [0x1F469, 0x200D, 0x1F91D, 0x200D, 0x1F469] := 0x1F46D,          // women holding hands
    [0x1F469, 0x200D, 0x1F91D, 0x200D, 0x1F468] := 0x1F46B,          // woman and man holding hands
    [0x1F468, 0x200D, 0x1F91D, 0x200D, 0x1F468] := 0x1F46C,          // men holding hands
    [0x1F9D1, 0x200D, 0x2764, 0x200D, 0x1F48B, 0x200D, 0x1F9D1] := 0x1F48F, // kiss
    [0x1F9D1, 0x200D, 0x2764, 0x200D, 0x1F9D1] := 0x1F491            // couple with heart
  ]

  /** Every key has several scalars; every target is a valid scalar that is neither a
      modifier nor U+FE0F. */
  lemma SpecialMappingShape()
    ensures forall k | k in SpecialMapping :: |k| >= 3
    ensures forall k | k in SpecialMapping ::
      var t := SpecialMapping[k];
      IsScalarValue(t) && !(SkinToneFirst <= t <= SkinToneLast) && t != 0xFE0F
  {
  }

  /** `unqualifiedNeutralEmoji(for:)`: the key a skin-toned variant is grouped under. */
  function UnqualifiedNeutralEmoji(v: string): (r: string)
    ensures IsNeutralEmoji(r) && VariationSelector16 !in r
  {
    var stripped := StrippedForm(v);
    var key := ScalarValues(stripped);
    if key in SpecialMapping && ScalarToEmoji(SpecialMapping[key]).Some? then
      SpecialMappingShape();
      var r := ScalarToEmoji(SpecialMapping[key]).value;
      assert r[0] as int == SpecialMapping[key];
      r
    else
      stripped
  }

  /** The override applies exactly when the stripped scalars are a key of the table, and then
      the result is the single mapped scalar; otherwise the stripped form is the result. */
  lemma UnqualifiedNeutralEmojiOverride(v: string)
    ensures var key := ScalarValues(StrippedForm(v));
      if key in SpecialMapping then ScalarValues(UnqualifiedNeutralEmoji(v)) == [SpecialMapping[key]]
      else UnqualifiedNeutralEmoji(v) == StrippedForm(v)
  {
    SpecialMappingShape();
  }

  /** Folding a key again changes nothing. */
  lemma UnqualifiedNeutralEmojiIdempotent(v: string)
    ensures UnqualifiedNeutralEmoji(UnqualifiedNeutralEmoji(v)) == UnqualifiedNeutralEmoji(v)
  {
    var u := UnqualifiedNeutralEmoji(v);
    assert StrippedForm(u) == u;
    UnqualifiedNeutralEmojiOverride(v);
    var key := ScalarValues(StrippedForm(v));
    if key in SpecialMapping {
      SpecialMappingShape();
      assert |ScalarValues(u)| == 1;
      assert ScalarValues(u) !in SpecialMapping;
    }
  }

  lemma NeutralEmojiCons(v: string)
    requires v != []
    ensures NeutralEmoji(v) == (if IsSkinToneModifier(v[0]) then [] else [v[0]]) + NeutralEmoji(v[1..])
  {
  }

  /** Handshake with light and dark skin tones folds under the plain handshake U+1F91D. */
  lemma HandshakeFolds(v: string)
    requires ScalarValues(v) == [0x1FAF1, 0x1F3FB, 0x200D, 0x1FAF2, 0x1F3FF]
    ensures ScalarValues(UnqualifiedNeutralEmoji(v)) == [0x1F91D]
  {
    var s4 := v[4..];
    NeutralEmojiCons(s4);
    assert NeutralEmoji(s4) == [];
    var s3 := v[3..];
    NeutralEmojiCons(s3);
    assert s3[1..] == s4;
    var s2 := v[2..];
    NeutralEmojiCons(s2);
    assert s2[1..] == s3;
    var s1 := v[1..];
    NeutralEmojiCons(s1);
    assert s1[1..] == s2;
    NeutralEmojiCons(v);
    assert NeutralEmoji(v) == [v[0], v[2], v[3]];
    StrippedHandshake(v, [v[0], v[2], v[3]]);
  }

  lemma StrippedHandshake(v: string, n: string)
    requires ScalarValues(n) == [0x1FAF1, 0x200D, 0x1FAF2] && NeutralEmoji(v) == n
    ensures ScalarValues(UnqualifiedNeutralEmoji(v)) == [0x1F91D]
  {
    assert StrippedForm(v) == n;
    UnqualifiedNeutralEmojiOverride(v);
  }

  lemma RemoveVariationSelectorsCons(v: string)
    requires v != []
    ensures RemoveVariationSelectors(v)
            == (if v[0] == VariationSelector16 then [] else [v[0]]) + RemoveVariationSelectors(v[1..])
  {
  }

  /** "Kiss: person, person, light skin tone, medium-light skin tone" folds under the plain
      kiss U+1F48F rather than under its literal stripped sequence. */
  lemma KissFolds(v: string)
    requires ScalarValues(v)
             == [0x1F9D1, 0x1F3FB, 0x200D, 0x2764, 0xFE0F, 0x200D, 0x1F48B, 0x200D, 0x1F9D1, 0x1F3FC]
    ensures ScalarValues(UnqualifiedNeutralEmoji(v)) == [0x1F48F]
  {
    assert |v| == 10;
    assert forall i | 0 <= i < 10 :: v[i] as int == ScalarValues(v)[i];
    KissNeutral(v);
    var n := NeutralEmoji(v);
    KissUnqualified(n);
    var w := StrippedForm(v);
    assert w == [v[0], v[2], v[3], v[5], v[6], v[7], v[8]];
    assert forall i | 0 <= i < 7 :: ScalarValues(w)[i] == w[i] as int;
    KissStripped(v, w);
  }

  lemma KissNeutral(v: string)
    requires |v| == 10 && IsSkinToneModifier(v[1]) && IsSkinToneModifier(v[9])
    requires forall i | 0 <= i < 10 && i != 1 && i != 9 :: !IsSkinToneModifier(v[i])
    ensures NeutralEmoji(v) == [v[0], v[2], v[3], v[4], v[5], v[6], v[7], v[8]]
  {
    var head, tail := v[..5], v[5..];
    assert v == head + tail;
    KissNeutralHead(head);
    KissNeutralTail(tail);
    NeutralEmojiConcat(head, tail);
  }

  lemma KissUnqualified(n: string)
    requires |n| == 8 && n[3] == VariationSelector16
    requires forall i | 0 <= i < 8 && i != 3 :: n[i] != VariationSelector16
    ensures RemoveVariationSelectors(n) == [n[0], n[1], n[2], n[4], n[5], n[6], n[7]]
  {
    var front, back := n[..4], n[4..];
    assert n == front + back;
    KissUnqualifiedFront(front);
    assert VariationSelector16 !in back;
    WithoutConcat(front, back, IsVariationSelector16);
  }

  lemma KissNeutralHead(u: string)
    requires |u| == 5 && IsSkinToneModifier(u[1])
    requires !IsSkinToneModifier(u[0]) && !IsSkinToneModifier(u[2])
    requires !IsSkinToneModifier(u[3]) && !IsSkinToneModifier(u[4])
    ensures NeutralEmoji(u) == [u[0], u[2], u[3], u[4]]
  {
    var s4 := u[4..];
    NeutralEmojiCons(s4);
    var s3 := u[3..];
    NeutralEmojiCons(s3);
    assert s3[1..] == s4;
    var s2 := u[2..];
    NeutralEmojiCons(s2);
    assert s2[1..] == s3;
    var s1 := u[1..];
    NeutralEmojiCons(s1);
    assert s1[1..] == s2;
    NeutralEmojiCons(u);
  }

  lemma KissNeutralTail(u: string)
    requires |u| == 5 && IsSkinToneModifier(u[4])
    requires !IsSkinToneModifier(u[0]) && !IsSkinToneModifier(u[1])
    requires !IsSkinToneModifier(u[2]) && !IsSkinToneModifier(u[3])
    ensures NeutralEmoji(u) == [u[0], u[1], u[2], u[3]]
  {
    var s4 := u[4..];
    NeutralEmojiCons(s4);
    var s3 := u[3..];
    NeutralEmojiCons(s3);
    assert s3[1..] == s4;
    var s2 := u[2..];
    NeutralEmojiCons(s2);
    assert s2[1..] == s3;
    var s1 := u[1..];
    NeutralEmojiCons(s1);
    assert s1[1..] == s2;
    NeutralEmojiCons(u);
  }

  lemma KissUnqualifiedFront(u: string)
    requires |u| == 4 && u[3] == VariationSelector16
    requires u[0] != VariationSelector16 && u[1] != VariationSelector16 && u[2] != VariationSelector16
    ensures RemoveVariationSelectors(u) == [u[0], u[1], u[2]]
  {
    var s3 := u[3..];
    RemoveVariationSelectorsCons(s3);
    var s2 := u[2..];
    RemoveVariationSelectorsCons(s2);
    assert s2[1..] == s3;
    var s1 := u[1..];
    RemoveVariationSelectorsCons(s1);
    assert s1[1..] == s2;
    RemoveVariationSelectorsCons(u);
  }

  lemma KissStripped(v: string, w: string)
    requires StrippedForm(v) == w
    requires ScalarValues(w) == [0x1F9D1, 0x200D, 0x2764, 0x200D, 0x1F48B, 0x200D, 0x1F9D1]
    ensures ScalarValues(UnqualifiedNeutralEmoji(v)) == [0x1F48F]
  {
    UnqualifiedNeutralEmojiOverride(v);
  }
}
