/** String helpers the parsers rely on: whitespace trimming, Swift's `split(separator:)`
    (which omits empty pieces) and `starts(with:)`. Strings are sequences of Unicode scalars. */
module Text {

  /** The Unicode White_Space property, which is what Foundation's
      `.whitespacesAndNewlines` set contains. */
  predicate IsWhitespace(c: char) {
    var n := c as int;
    (0x09 <= n <= 0x0D) || n == 0x20 || n == 0x85 || n == 0xA0 || n == 0x1680
    || (0x2000 <= n <= 0x200A) || n == 0x2028 || n == 0x2029 || n == 0x202F
    || n == 0x205F || n == 0x3000
  }

  predicate AllWhitespace(s: string) {
    forall i | 0 <= i < |s| :: IsWhitespace(s[i])
  }

  /** No whitespace at either end (vacuously true of the empty string). */
  predicate Trimmed(s: string) {
    s == [] || (!IsWhitespace(s[0]) && !IsWhitespace(s[|s| - 1]))
  }

  function TrimStart(s: string): (r: string)
    ensures |r| <= |s| && r == s[|s| - |r|..]
    ensures AllWhitespace(s[..|s| - |r|])
    ensures r == [] || !IsWhitespace(r[0])
  {
    if s != [] && IsWhitespace(s[0]) then
      var r := TrimStart(s[1..]);
      TrimStartStep(s, r);
      r
    else s
  }

  lemma TrimStartStep(s: string, r: string)
    requires s != [] && IsWhitespace(s[0])
    requires |r| <= |s[1..]| && r == s[1..][|s[1..]| - |r|..]
    requires AllWhitespace(s[1..][..|s[1..]| - |r|])
    ensures r == s[|s| - |r|..]
    ensures AllWhitespace(s[..|s| - |r|])
  {
    assert s[..|s| - |r|] == [s[0]] + s[1..][..|s[1..]| - |r|];
  }

  function TrimEnd(s: string): (r: string)
    ensures |r| <= |s| && r == s[..|r|]
    ensures AllWhitespace(s[|r|..])
    ensures r == [] || !IsWhitespace(r[|r| - 1])
  {
    if s != [] && IsWhitespace(s[|s| - 1]) then
      var r := TrimEnd(s[..|s| - 1]);
      TrimEndStep(s, r);
      r
    else s
  }

  lemma TrimEndStep(s: string, r: string)
    requires s != [] && IsWhitespace(s[|s| - 1])
    requires |r| <= |s| - 1 && r == s[..|s| - 1][..|r|]
    requires AllWhitespace(s[..|s| - 1][|r|..])
    ensures r == s[..|r|]
    ensures AllWhitespace(s[|r|..])
  {
    assert s[|r|..] == s[..|s| - 1][|r|..] + [s[|s| - 1]];
  }

  /** Leading and trailing whitespace removed: the leading run first, then the trailing one. */
  function Trim(s: string): (r: string)
    ensures Trimmed(r)
    ensures |r| <= |s|
    ensures AllWhitespace(s) <==> r == []
  {
    if s != [] && IsWhitespace(s[0]) then Trim(s[1..])
    else
      TrimEndFacts(s);
      TrimEnd(s)
  }

  lemma {:induction false} TrimEndFacts(s: string)
    requires s == [] || !IsWhitespace(s[0])
    ensures Trimmed(TrimEnd(s))
    ensures AllWhitespace(s) <==> TrimEnd(s) == []
  {
    var r := TrimEnd(s);
    assert r != [] ==> r[0] == s[0];
    assert s == r + s[|r|..];
    if AllWhitespace(s) {
      AllWhitespaceSplit(r, s[|r|..]);
    }
  }

  /** Trimming only removes characters. */
  lemma {:induction false} TrimWithin(s: string)
    ensures forall c | c in Trim(s) :: c in s
  {
    TrimIsStartThenEnd(s);
    var t := TrimStart(s);
    assert forall c | c in TrimEnd(t) :: c in t;
    assert forall c | c in t :: c in s;
  }

  /** `Trim` is `TrimStart` followed by `TrimEnd`. */
  lemma {:induction false} TrimIsStartThenEnd(s: string)
    ensures Trim(s) == TrimEnd(TrimStart(s))
  {
    if s != [] && IsWhitespace(s[0]) {
      TrimIsStartThenEnd(s[1..]);
    }
  }

  lemma AllWhitespaceConcat(a: string, b: string)
    requires AllWhitespace(a) && AllWhitespace(b)
    ensures AllWhitespace(a + b)
  {
    forall i | 0 <= i < |a + b| ensures IsWhitespace((a + b)[i]) {
      if i < |a| { assert (a + b)[i] == a[i]; } else { assert (a + b)[i] == b[i - |a|]; }
    }
  }

  lemma AllWhitespaceSplit(a: string, b: string)
    requires AllWhitespace(a + b)
    ensures AllWhitespace(a) && AllWhitespace(b)
  {
    forall i | 0 <= i < |a| ensures IsWhitespace(a[i]) { assert a[i] == (a + b)[i]; }
    forall i | 0 <= i < |b| ensures IsWhitespace(b[i]) { assert b[i] == (a + b)[|a| + i]; }
  }

  /** Trimming `pad1 + s + pad2` with whitespace-only padding and a trimmed core gives the core:
      together with `Trimmed(Trim(x))` this pins `Trim` down completely. */
  lemma TrimPadded(pad1: string, s: string, pad2: string)
    requires AllWhitespace(pad1) && AllWhitespace(pad2) && Trimmed(s)
    ensures Trim(pad1 + s + pad2) == s
  {
    if s == [] {
      TrimBlank(pad1, pad2);
    } else {
      TrimAroundCore(pad1, s, pad2);
    }
  }

  lemma {:induction false} TrimBlank(pad1: string, pad2: string)
    requires AllWhitespace(pad1) && AllWhitespace(pad2)
    ensures Trim(pad1 + [] + pad2) == []
  {
    assert pad1 + [] + pad2 == pad1 + pad2;
    AllWhitespaceConcat(pad1, pad2);
  }

  lemma {:induction false} TrimAroundCore(pad1: string, s: string, pad2: string)
    requires AllWhitespace(pad1) && AllWhitespace(pad2) && Trimmed(s) && s != []
    ensures Trim(pad1 + s + pad2) == s
  {
    var x := pad1 + s + pad2;
    var y := s + pad2;
    assert y[0] == s[0];
    assert x == pad1 + y;
    TrimStartPadded(pad1, y);
    TrimEndPadded(s, pad2);
    TrimIsStartThenEnd(x);
  }

  lemma {:induction false} TrimStartPadded(pad: string, s: string)
    requires AllWhitespace(pad) && (s == [] || !IsWhitespace(s[0]))
    ensures TrimStart(pad + s) == s
  {
    if pad != [] {
      assert (pad + s)[1..] == pad[1..] + s;
      TrimStartPadded(pad[1..], s);
    } else {
      assert pad + s == s;
    }
  }

  lemma {:induction false} TrimEndPadded(s: string, pad: string)
    requires AllWhitespace(pad) && (s == [] || !IsWhitespace(s[|s| - 1]))
    ensures TrimEnd(s + pad) == s
  {
    if pad != [] {
      assert (s + pad)[..|s + pad| - 1] == s + pad[..|pad| - 1];
      TrimEndPadded(s, pad[..|pad| - 1]);
    } else {
      assert s + pad == s;
    }
  }

  /** Trimming twice is trimming once. */
  lemma TrimIdempotent(s: string)
    ensures Trim(Trim(s)) == Trim(s)
  {
    TrimPadded([], Trim(s), []);
    assert [] + Trim(s) + [] == Trim(s);
  }

  predicate StartsWith(s: string, prefix: string) {
    |prefix| <= |s| && s[..|prefix|] == prefix
  }

  /** Every field of `s` between occurrences of `sep`, empty ones included. */
  function Fields(s: string, sep: char): (r: seq<string>)
    ensures |r| >= 1
    ensures forall i | 0 <= i < |r| :: sep !in r[i]
  {
    if s == [] then [[]]
    else
      var rest := Fields(s[1..], sep);
      if s[0] == sep then [[]] + rest
      else [[s[0]] + rest[0]] + rest[1..]
  }

  /** The parts with `sep` between consecutive ones. */
  function Join(parts: seq<string>, sep: char): string
    requires |parts| >= 1
  {
    if |parts| == 1 then parts[0] else parts[0] + [sep] + Join(parts[1..], sep)
  }

  /** Joining the fields back gives the string. */
  lemma {:induction false} JoinFields(s: string, sep: char)
    ensures Join(Fields(s, sep), sep) == s
  {
    if s != [] {
      JoinFields(s[1..], sep);
      var rest := Fields(s[1..], sep);
      if s[0] == sep {
        assert ([[]] + rest)[1..] == rest;
      } else {
        var f := Fields(s, sep);
        assert f[0] == [s[0]] + rest[0];
        if |rest| == 1 {
          assert s == [s[0]] + s[1..];
        } else {
          assert f[1..] == rest[1..];
          assert Join(rest, sep) == rest[0] + [sep] + Join(rest[1..], sep);
          assert s == [s[0]] + s[1..];
        }
      }
    }
  }

  /** Splitting a join of separator-free parts gives the parts back. */
  lemma {:induction false} FieldsJoin(parts: seq<string>, sep: char)
    requires |parts| >= 1
    requires forall i | 0 <= i < |parts| :: sep !in parts[i]
    ensures Fields(Join(parts, sep), sep) == parts
  {
    if |parts| == 1 {
      FieldsWithoutSeparator(parts[0], sep);
    } else {
      FieldsJoin(parts[1..], sep);
      FieldsConcat(parts[0], Join(parts[1..], sep), sep);
      FieldsWithoutSeparator(parts[0], sep);
      assert [parts[0]] + parts[1..] == parts;
    }
  }

  lemma {:induction false} FieldsWithoutSeparator(s: string, sep: char)
    requires sep !in s
    ensures Fields(s, sep) == [s]
  {
    if s != [] {
      FieldsWithoutSeparator(s[1..], sep);
      assert [s[0]] + s[1..] == s;
    }
  }

  /** A separator splits the field list in two. */
  lemma {:induction false} FieldsConcat(a: string, b: string, sep: char)
    ensures Fields(a + [sep] + b, sep) == Fields(a, sep) + Fields(b, sep)
  {
    var x := a + [sep] + b;
    if a == [] {
      assert x[1..] == b;
    } else {
      assert x[1..] == a[1..] + [sep] + b;
      FieldsConcat(a[1..], b, sep);
    }
  }

  function NonEmpty(parts: seq<string>): (r: seq<string>)
    ensures forall i | 0 <= i < |r| :: r[i] != [] && r[i] in parts
  {
    if parts == [] then []
    else if parts[0] == [] then NonEmpty(parts[1..])
    else [parts[0]] + NonEmpty(parts[1..])
  }

  lemma {:induction false} NonEmptyConcat(a: seq<string>, b: seq<string>)
    ensures NonEmpty(a + b) == NonEmpty(a) + NonEmpty(b)
  {
    if a != [] {
      assert (a + b)[0] == a[0] && (a + b)[1..] == a[1..] + b;
      NonEmptyConcat(a[1..], b);
      if a[0] != [] {
        assert [a[0]] + (NonEmpty(a[1..]) + NonEmpty(b)) == ([a[0]] + NonEmpty(a[1..])) + NonEmpty(b);
      }
    } else {
      assert a + b == b;
    }
  }

  /** Nothing is dropped when no part is empty. */
  lemma {:induction false} NonEmptyKeepsAll(parts: seq<string>)
    requires forall i | 0 <= i < |parts| :: parts[i] != []
    ensures NonEmpty(parts) == parts
  {
    if parts != [] {
      NonEmptyKeepsAll(parts[1..]);
    }
  }

  /** Swift's `split(separator:)`: the non-empty fields, in order. */
  function Split(s: string, sep: char): (r: seq<string>)
    ensures forall i | 0 <= i < |r| :: r[i] != [] && sep !in r[i]
  {
    NonEmpty(Fields(s, sep))
  }

  /** A separator splits the piece list in two. */
  lemma SplitConcat(a: string, b: string, sep: char)
    ensures Split(a + [sep] + b, sep) == Split(a, sep) + Split(b, sep)
  {
    FieldsConcat(a, b, sep);
    NonEmptyConcat(Fields(a, sep), Fields(b, sep));
  }

  /** A non-empty string without the separator is its own single piece. */
  lemma SplitWithoutSeparator(s: string, sep: char)
    requires sep !in s
    ensures Split(s, sep) == (if s == [] then [] else [s])
  {
    FieldsWithoutSeparator(s, sep);
    if s == [] {
      assert NonEmpty([[]]) == NonEmpty([]);
    } else {
      assert NonEmpty([s]) == [s] + NonEmpty([]);
    }
  }

  /** Splitting a join of non-empty, separator-free parts gives the parts back. */
  lemma SplitJoin(parts: seq<string>, sep: char)
    requires |parts| >= 1
    requires forall i | 0 <= i < |parts| :: parts[i] != [] && sep !in parts[i]
    ensures Split(Join(parts, sep), sep) == parts
  {
    FieldsJoin(parts, sep);
    NonEmptyKeepsAll(parts);
  }

  /** `trim()` applied to every part. */
  function TrimEach(parts: seq<string>): (r: seq<string>)
    ensures |r| == |parts|
  {
    if parts == [] then [] else [Trim(parts[0])] + TrimEach(parts[1..])
  }

  lemma {:induction false} TrimEachIs(parts: seq<string>)
    ensures forall i | 0 <= i < |parts| :: TrimEach(parts)[i] == Trim(parts[i])
  {
    if parts != [] {
      TrimEachIs(parts[1..]);
    }
  }

  /** All pieces concatenated. */
  function Concat(parts: seq<string>): string {
    if parts == [] then [] else parts[0] + Concat(parts[1..])
  }
}
