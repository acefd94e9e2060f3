/**
 The age-range classifier of the sample-frame generator: `parse_rangos` turns a
 free-text list such as "20-33,34-41,42-50" into closed integer intervals, and
 `clasificar_rango_personalizado` labels an age with the first interval that
 contains it.
 */
module AgeRanges {

  import opened Wrappers
  import opened Text
  import opened Seqs

  /** A closed age interval [start, end]. The bounds come from digit strings, so
      they are never negative. */
  datatype Range = Range(start: nat, end: nat)

  /** Both bounds are inclusive. */
  predicate Contains(r: Range, age: int) {
    r.start <= age <= r.end
  }

  /** The label f"{start}-{end}": both bounds in decimal, joined by a hyphen. */
  function Label(r: Range): string {
    FromNat(r.start) + "-" + FromNat(r.end)
  }

  // ---------------------------------------------------------------------------
  // parse_rangos

  /** One comma-separated token: strip it, split it on '-', and keep it only if
      that gives exactly two digit strings whose values are strictly increasing. */
  function ParseToken(token: string): (r: Option<Range>)
    ensures r.Some? ==> r.value.start < r.value.end
  {
    var parts := Split(Strip(token), '-');
    if |parts| == 2 && IsDigits(parts[0]) && IsDigits(parts[1]) then
      var start, end := ToNat(parts[0]), ToNat(parts[1]);
      if start < end then Some(Range(start, end)) else None
    else None
  }

  /** Every range the token parser produces over a token list is strictly increasing. */
  lemma ParsedRangesIncrease(tokens: seq<string>)
    ensures forall k :: 0 <= k < |FilterMap(tokens, ParseToken)| ==>
              FilterMap(tokens, ParseToken)[k].start < FilterMap(tokens, ParseToken)[k].end
  {
    forall k | 0 <= k < |FilterMap(tokens, ParseToken)|
      ensures FilterMap(tokens, ParseToken)[k].start < FilterMap(tokens, ParseToken)[k].end
    {
      var i := FilterMapOrigin(tokens, ParseToken, k);
    }
  }

  /** `parse_rangos(texto)`: the valid comma-separated tokens, converted and in
      order. Total on every string, and every range it returns is strictly
      increasing. */
  function ParseRanges(text: string): (rs: seq<Range>)
    ensures forall k :: 0 <= k < |rs| ==> rs[k].start < rs[k].end
  {
    var tokens := Split(text, ',');
    ParsedRangesIncrease(tokens);
    FilterMap(tokens, ParseToken)
  }

  /** There are never more ranges than comma-separated tokens, i.e. than commas plus one. */
  lemma ParseRangesCount(text: string)
    ensures |ParseRanges(text)| <= |Split(text, ',')| == multiset(text)[','] + 1
  {
    SplitCount(text, ',');
  }

  /** `parse_rangos`'s `for` loop over the comma-separated tokens, appending each
      valid token's pair to `rangos`. */
  method ParseRangesLoop(text: string) returns (rangos: seq<Range>)
    ensures rangos == ParseRanges(text)
    ensures |rangos| <= |Split(text, ',')|
  {
    var tokens := Split(text, ',');
    rangos := [];
    for i := 0 to |tokens|
      invariant rangos == FilterMap(tokens[..i], ParseToken)
    {
      FilterMapStep(tokens, i, ParseToken);
      var parsed := ParseToken(tokens[i]);
      if parsed.Some? {
        rangos := rangos + [parsed.value];
      }
    }
    assert tokens[..|tokens|] == tokens;
  }

  // ---------------------------------------------------------------------------
  // What a valid token looks like, independently of split and strip

  /** `token` is `core` with only whitespace around it. */
  ghost predicate Padded(token: string, core: string) {
    exists pre, post :: IsBlank(pre) && IsBlank(post) && token == pre + core + post
  }

  /** `token` spells the range `r`: optional whitespace, a digit string for the
      start, one hyphen, a digit string for the end, optional whitespace, with
      start < end. */
  ghost predicate Denotes(token: string, r: Range) {
    && r.start < r.end
    && exists a, b :: IsDigits(a) && IsDigits(b) && ToNat(a) == r.start && ToNat(b) == r.end
                      && Padded(token, a + "-" + b)
  }

  lemma ParseTokenSound(token: string)
    requires ParseToken(token).Some?
    ensures Denotes(token, ParseToken(token).value)
  {
    var s := Strip(token);
    var parts := Split(s, '-');
    var r := ParseToken(token).value;
    SplitThenJoin(s, '-');
    assert Join(parts, '-') == parts[0] + "-" + parts[1];
    var pre, post := StripDecompose(token);
    PaddedBy(token, pre, parts[0] + "-" + parts[1], post);
  }

  lemma ParseTokenComplete(token: string, r: Range)
    requires Denotes(token, r)
    ensures ParseToken(token) == Some(r)
  {
    var a, b :| IsDigits(a) && IsDigits(b) && ToNat(a) == r.start && ToNat(b) == r.end
                && Padded(token, a + "-" + b);
    var pre, post :| IsBlank(pre) && IsBlank(post) && token == pre + (a + "-" + b) + post;
    StripPadded(pre, a + "-" + b, post);
    ParseStrippedToken(token, a, b);
  }

  /** A token whose stripped form is "a-b" parses to the values of a and b. */
  lemma ParseStrippedToken(token: string, a: string, b: string)
    requires IsDigits(a) && IsDigits(b)
    requires Strip(token) == a + "-" + b
    ensures ParseToken(token)
            == if ToNat(a) < ToNat(b) then Some(Range(ToNat(a), ToNat(b))) else None
  {
    DigitsAroundHyphen(a, b);
  }

  /** "a-b" with digit strings a and b is already stripped and splits into [a, b]. */
  lemma DigitsAroundHyphen(a: string, b: string)
    requires IsDigits(a) && IsDigits(b)
    ensures IsTrimmed(a + "-" + b)
    ensures Split(a + "-" + b, '-') == [a, b]
  {
    var core := a + "-" + b;
    assert core[0] == a[0] && core[|core| - 1] == b[|b| - 1];
    NoHyphenInDigits(a);
    NoHyphenInDigits(b);
    assert Join([a, b], '-') == core;
    JoinThenSplit([a, b], '-');
  }

  lemma NoHyphenInDigits(s: string)
    requires AllDigits(s)
    ensures '-' !in s && ',' !in s
  {
    assert forall i :: 0 <= i < |s| ==> s[i] != '-' && s[i] != ',';
  }

  lemma PaddedBy(token: string, pre: string, core: string, post: string)
    requires IsBlank(pre) && IsBlank(post) && token == pre + core + post
    ensures Padded(token, core)
  {
  }

  /** A token is accepted with range `r` exactly when it spells `r`. */
  lemma ParseTokenIff(token: string, r: Range)
    ensures ParseToken(token) == Some(r) <==> Denotes(token, r)
  {
    if ParseToken(token) == Some(r) {
      ParseTokenSound(token);
    }
    if Denotes(token, r) {
      ParseTokenComplete(token, r);
    }
  }

  /** Only the token as a whole is stripped: an accepted token consists of digits
      and hyphens once stripped, so "20 - 33" is rejected. */
  lemma AcceptedTokenCharacters(token: string)
    requires ParseToken(token).Some?
    ensures forall i :: 0 <= i < |Strip(token)| ==> IsDigit(Strip(token)[i]) || Strip(token)[i] == '-'
  {
    var s := Strip(token);
    var parts := Split(s, '-');
    SplitThenJoin(s, '-');
    assert s == parts[0] + "-" + parts[1];
    HyphenatedCharacters(parts[0], parts[1]);
  }

  lemma HyphenatedCharacters(a: string, b: string)
    requires AllDigits(a) && AllDigits(b)
    ensures forall i :: 0 <= i < |a + "-" + b| ==> IsDigit((a + "-" + b)[i]) || (a + "-" + b)[i] == '-'
  {
    var s := a + "-" + b;
    forall i | 0 <= i < |s|
      ensures IsDigit(s[i]) || s[i] == '-'
    {
      if i < |a| {
        assert s[i] == a[i];
      } else if i > |a| {
        assert s[i] == b[i - |a| - 1];
      }
    }
  }

  /** Whitespace around a token does not change whether or how it parses. */
  lemma ParseTokenIgnoresPadding(pre: string, token: string, post: string)
    requires IsBlank(pre) && IsBlank(post)
    ensures ParseToken(pre + token + post) == ParseToken(token)
  {
    StripIgnoresPadding(pre, token, post);
  }

  /** `int()` ignores leading zeros, so "020-33" parses like "20-33". */
  lemma ParseTokenLeadingZero(a: string, b: string)
    requires IsDigits(a) && IsDigits(b)
    ensures ParseToken(['0'] + a + "-" + b) == ParseToken(a + "-" + b)
  {
    var za := ['0'] + a;
    ToNatLeadingZero(a);
    assert ['0'] + a + "-" + b == za + "-" + b;
    StripOfTrimmed(za + "-" + b);
    StripOfTrimmed(a + "-" + b);
    ParseStrippedToken(za + "-" + b, za, b);
    ParseStrippedToken(a + "-" + b, a, b);
  }

  // ---------------------------------------------------------------------------
  // Properties of the whole list

  /** Order is preserved: the ranges written before a comma come first in the
      result, followed by those written after it. */
  lemma ParseRangesAppend(s1: string, s2: string)
    ensures ParseRanges(s1 + "," + s2) == ParseRanges(s1) + ParseRanges(s2)
  {
    SplitAround(s1, ',', s2);
    FilterMapAppend(Split(s1, ','), Split(s2, ','), ParseToken);
  }

  /** A text without commas is a single token: one range if it parses, none otherwise. */
  lemma ParseRangesOneToken(token: string)
    requires ',' !in token
    ensures ParseRanges(token) == if ParseToken(token).Some? then [ParseToken(token).value] else []
  {
    SplitWithoutSeparator(token, ',');
    FilterMapSingle(token, ParseToken);
  }

  /** Every parsed range comes from one comma-separated token that spells it. */
  lemma ParseRangesSound(text: string, k: nat) returns (i: nat)
    requires k < |ParseRanges(text)|
    ensures i < |Split(text, ',')| && Denotes(Split(text, ',')[i], ParseRanges(text)[k])
  {
    i := FilterMapOrigin(Split(text, ','), ParseToken, k);
    ParseTokenSound(Split(text, ',')[i]);
  }

  /** Every comma-separated token that spells a range contributes that range. */
  lemma ParseRangesComplete(text: string, i: nat, r: Range)
    requires i < |Split(text, ',')| && Denotes(Split(text, ',')[i], r)
    ensures r in ParseRanges(text)
  {
    ParseTokenComplete(Split(text, ',')[i], r);
    FilterMapComplete(Split(text, ','), ParseToken, i);
  }

  /** Empty or whitespace-only input yields no ranges. */
  lemma ParseRangesBlank(text: string)
    requires IsBlank(text)
    ensures ParseRanges(text) == []
  {
    assert ',' !in text by {
      assert forall i :: 0 <= i < |text| ==> text[i] != ',';
    }
    ParseRangesOneToken(text);
    StripOfBlank(text);
    assert Split([], '-') == [[]];
  }

  /** Rendering a range and parsing the label gives back exactly that range. */
  lemma LabelRoundTrip(r: Range)
    requires r.start < r.end
    ensures ParseRanges(Label(r)) == [r]
  {
    var a, b := FromNat(r.start), FromNat(r.end);
    var lab := Label(r);
    NoHyphenInDigits(a);
    NoHyphenInDigits(b);
    assert ',' !in lab;
    PaddedBy(lab, [], a + "-" + b, []);
    ParseTokenComplete(lab, r);
    ParseRangesOneToken(lab);
  }

  /** A list of ranges written out as their labels separated by commas. */
  function Render(rs: seq<Range>): string
    requires |rs| > 0
  {
    if |rs| == 1 then Label(rs[0]) else Label(rs[0]) + "," + Render(rs[1..])
  }

  /** A list of ranges written out as comma-separated labels parses back to the
      same list, in the same order. */
  lemma {:induction false} RenderRoundTrip(rs: seq<Range>)
    requires |rs| > 0
    requires forall k :: 0 <= k < |rs| ==> rs[k].start < rs[k].end
    ensures ParseRanges(Render(rs)) == rs
  {
    if |rs| > 1 {
      LabelRoundTrip(rs[0]);
      RenderRoundTrip(rs[1..]);
      ParseRangesAppend(Label(rs[0]), Render(rs[1..]));
      assert [rs[0]] + rs[1..] == rs;
    } else {
      LabelRoundTrip(rs[0]);
      assert [rs[0]] == rs;
    }
  }

  /** Different ranges get different labels. */
  lemma LabelInjective(r1: Range, r2: Range)
    requires Label(r1) == Label(r2)
    ensures r1 == r2
  {
    LabelSplits(r1);
    LabelSplits(r2);
  }

  lemma LabelSplits(r: Range)
    ensures Split(Label(r), '-') == [FromNat(r.start), FromNat(r.end)]
  {
    DigitsAroundHyphen(FromNat(r.start), FromNat(r.end));
  }

  // ---------------------------------------------------------------------------
  // clasificar_rango_personalizado

  /** `rs[i]` is the first range, in list order, that contains `age`. */
  predicate IsFirstMatch(age: int, rs: seq<Range>, i: int) {
    && 0 <= i < |rs|
    && Contains(rs[i], age)
    && forall j :: 0 <= j < i ==> !Contains(rs[j], age)
  }

  /** `clasificar_rango_personalizado(edad, rangos)`: the label of the first range
      containing the age, or `None` when no range does. */
  function Classify(age: int, rs: seq<Range>): (found: Option<string>)
    ensures found.None? <==> forall i :: 0 <= i < |rs| ==> !Contains(rs[i], age)
    ensures found.Some? ==> exists i :: IsFirstMatch(age, rs, i) && found.value == Label(rs[i])
  {
    if |rs| == 0 then None
    else if Contains(rs[0], age) then
      assert IsFirstMatch(age, rs, 0);
      Some(Label(rs[0]))
    else
      Classify(age, rs[1..])
  }

  /** Whenever `rs[i]` is the first range containing `age`, its label is the answer. */
  lemma ClassifyFirstMatch(age: int, rs: seq<Range>, i: int)
    requires IsFirstMatch(age, rs, i)
    ensures Classify(age, rs) == Some(Label(rs[i]))
  {
    // Follows from the contract of `Classify`: the first match is unique.
  }

  /** Overlaps resolve to the earlier list: a later range is only consulted when
      no earlier one contains the age. */
  lemma {:induction false} ClassifyAppend(age: int, xs: seq<Range>, ys: seq<Range>)
    ensures Classify(age, xs + ys)
            == if Classify(age, xs).Some? then Classify(age, xs) else Classify(age, ys)
  {
    if |xs| > 0 {
      assert (xs + ys)[0] == xs[0];
      assert (xs + ys)[1..] == xs[1..] + ys;
      ClassifyAppend(age, xs[1..], ys);
    } else {
      assert xs + ys == ys;
    }
  }

  /** On parsed text, ranges written earlier win over ranges written later. */
  lemma ClassifyParsedAppend(age: int, s1: string, s2: string)
    ensures Classify(age, ParseRanges(s1 + "," + s2))
            == if Classify(age, ParseRanges(s1)).Some? then Classify(age, ParseRanges(s1))
               else Classify(age, ParseRanges(s2))
  {
    ParseRangesAppend(s1, s2);
    ClassifyAppend(age, ParseRanges(s1), ParseRanges(s2));
  }

  /** The labels of the worked example's ranges. */
  lemma ExampleLabels()
    ensures Label(Range(20, 33)) == "20-33"
    ensures Label(Range(34, 41)) == "34-41"
    ensures Label(Range(42, 50)) == "42-50"
  {
  }

  /** The worked example's ranges written out as the text a user types. */
  lemma ExampleRender(rs: seq<Range>)
    requires rs == [Range(20, 33), Range(34, 41), Range(42, 50)]
    ensures Render(rs) == "20-33,34-41,42-50"
  {
    ExampleLabels();
    assert rs[1..][1..] == rs[2..] == [Range(42, 50)];
    assert Render(rs[2..]) == "42-50";
    assert Render(rs[1..]) == "34-41" + "," + "42-50";
  }

  /** The worked example "20-33,34-41,42-50" parses to its three ranges, in
      order; ages 25, 41 and 51 then get "20-33", "34-41" and no label. */
  lemma WorkedExample()
    ensures ParseRanges("20-33,34-41,42-50") == [Range(20, 33), Range(34, 41), Range(42, 50)]
    ensures Classify(25, ParseRanges("20-33,34-41,42-50")) == Some("20-33")
    ensures Classify(41, ParseRanges("20-33,34-41,42-50")) == Some("34-41")
    ensures Classify(51, ParseRanges("20-33,34-41,42-50")) == None
  {
    var rs := [Range(20, 33), Range(34, 41), Range(42, 50)];
    ExampleRender(rs);
    RenderRoundTrip(rs);
    ExampleLabels();
    ExampleClassify(rs);
    ExampleUnclassified(rs);
  }

  /** The same list, for every age at a boundary or inside: 25, 34 and 41 get
      the first, second and second labels ... */
  lemma ExampleClassify(rs: seq<Range>)
    requires rs == [Range(20, 33), Range(34, 41), Range(42, 50)]
    ensures Classify(25, rs) == Some(Label(rs[0]))
    ensures Classify(34, rs) == Some(Label(rs[1]))
    ensures Classify(41, rs) == Some(Label(rs[1]))
  {
    ClassifyFirstMatch(25, rs, 0);
    ClassifyFirstMatch(34, rs, 1);
    ClassifyFirstMatch(41, rs, 1);
  }

  /** ... and age 51 gets no label. */
  lemma ExampleUnclassified(rs: seq<Range>)
    requires rs == [Range(20, 33), Range(34, 41), Range(42, 50)]
    ensures Classify(51, rs) == None
  {
    assert forall i :: 0 <= i < |rs| ==> !Contains(rs[i], 51);
  }
}
