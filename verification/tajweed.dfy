/** The Tajweed colouring scanner of the verse view: one left-to-right pass over
    a verse that splits it into plain runs and tagged single- or two-character
    spans (ghunnah, madd, waqf marks, harokat, stop marks).

    Text is indexed by UTF-16 code unit in the source; every code point the
    rules mention lies in the Basic Multilingual Plane, so a `string` of
    `char`s stands for the text. */
module Tajweed {
  import opened Wrappers

  // ---------------------------------------------------------------------
  // Code points named by the rules
  // ---------------------------------------------------------------------

  const Noon: char := '\U{0646}'
  const Meem: char := '\U{0645}'
  const Shadda: char := '\U{0651}'
  const Fatha: char := '\U{064E}'
  const Damma: char := '\U{064F}'
  const Kasra: char := '\U{0650}'
  const Alif: char := '\U{0627}'
  const AlifMaqsura: char := '\U{0649}'
  const Waw: char := '\U{0648}'
  const Ya: char := '\U{064A}'
  const AlifWasla: char := '\U{0671}'
  const SuperscriptAlif: char := '\U{0670}'
  const SmallHighDotlessHeadOfKhah: char := '\U{06E1}'
  /** ARABIC SMALL HIGH MEEM, one of the two compulsory-stop marks. */
  const SmallHighMeem: char := '\U{06D8}'
  /** ARABIC SMALL HIGH MEEM ISOLATED FORM, the other compulsory-stop mark. */
  const SmallHighMeemIsolated: char := '\U{06E2}'
  /** ARABIC SMALL HIGH LAM ALEF, the forbidden-stop mark. */
  const SmallHighLamAlef: char := '\U{06D9}'

  /** The "blue" annotation marks, in the order the source lists them
      (U+06D8 is listed although the compulsory-stop rule claims it first). */
  predicate IsBlueStopMark(c: char) {
    || c == '\U{06D6}' || c == '\U{06D7}' || c == '\U{06DA}' || c == '\U{06DB}'
    || c == '\U{06DC}' || c == '\U{06DD}' || c == '\U{06D8}' || c == '\U{06E9}'
    || c == '\U{06DE}' || c == '\U{06DF}' || c == '\U{06E0}' || c == '\U{06E3}'
    || c == '\U{06E4}' || c == '\U{06E7}' || c == '\U{06E8}' || c == '\U{06EA}'
    || c == '\U{06EB}' || c == '\U{06EC}' || c == '\U{06ED}'
  }

  // ---------------------------------------------------------------------
  // Character classes
  // ---------------------------------------------------------------------

  /** Basic Arabic letters U+0621..U+064A and Alif Wasla. */
  predicate IsArabicLetter(c: char) {
    ('\U{0621}' <= c <= '\U{064A}') || c == AlifWasla
  }

  /** Tanwin, short vowels, shadda, sukun and related marks U+064B..U+0655,
      the superscript alif and the small high dotless head of khah. */
  predicate IsHarokat(c: char) {
    ('\U{064B}' <= c <= '\U{0655}') || c == SuperscriptAlif || c == SmallHighDotlessHeadOfKhah
  }

  predicate IsWaqfLazimMark(c: char) {
    c == SmallHighMeem || c == SmallHighMeemIsolated
  }

  /** The guard of the blue-mark rule: listed, and not a compulsory-stop meem. */
  predicate IsStopMark(c: char) {
    IsBlueStopMark(c) && c != SmallHighMeem && c != SmallHighMeemIsolated
  }

  /** Every character that one of the single-character rules would tag. */
  predicate IsMark(c: char) {
    IsHarokat(c) || IsWaqfLazimMark(c) || c == SmallHighLamAlef || IsBlueStopMark(c)
  }

  // Lookahead past the end of the text reads `undefined`, for which every
  // comparison and every class predicate is false.

  predicate CharAt(text: string, k: nat, c: char) {
    k < |text| && text[k] == c
  }

  predicate LetterAt(text: string, k: nat) {
    k < |text| && IsArabicLetter(text[k])
  }

  predicate HarokatAt(text: string, k: nat) {
    k < |text| && IsHarokat(text[k])
  }

  /** The three characters that lengthen a fatha. */
  predicate FathaElongationAt(text: string, k: nat) {
    CharAt(text, k, Alif) || CharAt(text, k, AlifMaqsura) || CharAt(text, k, SuperscriptAlif)
  }

  // ---------------------------------------------------------------------
  // Output
  // ---------------------------------------------------------------------

  /** Presentation classes of the tagged spans. */
  datatype Category =
    | Ghunnah     // noon or meem with shadda
    | MaddLetter  // the letter before, and the letter of, a natural madd
    | MaddVowel   // the vowel mark of a natural madd
    | WaqfLazim   // compulsory stop
    | WaqfMamnu   // forbidden stop
    | Harokat     // any other diacritic
    | Stop        // other Quranic annotation marks

  /** A plain run of untagged characters, or one tagged span. */
  datatype Segment = Plain(text: string) | Tagged(category: Category, text: string)

  /** The concatenated text of a segment list. */
  function Flatten(segs: seq<Segment>): string {
    if segs == [] then [] else segs[0].text + Flatten(segs[1..])
  }

  // ---------------------------------------------------------------------
  // The rule chain
  // ---------------------------------------------------------------------

  /** The nine rules, in the order the scanner tries them. */
  datatype Rule =
    | GhunnahRule
    | MaddFathaRule
    | MaddKasraYaRule
    | MaddDammaWawRule
    | WaqfLazimRule
    | WaqfMamnuRule
    | HarokatRule
    | StopRule
    | DefaultRule
  {
    /** How far the cursor advances when the rule fires. */
    function Width(): nat {
      match this
      case GhunnahRule => 2
      case MaddFathaRule | MaddKasraYaRule | MaddDammaWawRule => 3
      case _ => 1
    }
  }

  /** The rule that fires at cursor `i`: the first of the chain whose
      condition holds. */
  function RuleAt(text: string, i: nat): (r: Rule)
    requires i < |text|
    ensures i + r.Width() <= |text|
  {
    var c := text[i];
    if (c == Noon || c == Meem) && CharAt(text, i + 1, Shadda) then GhunnahRule
    else if LetterAt(text, i) && CharAt(text, i + 1, Fatha) && FathaElongationAt(text, i + 2) then MaddFathaRule
    else if LetterAt(text, i) && CharAt(text, i + 1, Kasra) && CharAt(text, i + 2, Ya) && !HarokatAt(text, i + 3) then MaddKasraYaRule
    else if LetterAt(text, i) && CharAt(text, i + 1, Damma) && CharAt(text, i + 2, Waw) && !HarokatAt(text, i + 3) then MaddDammaWawRule
    else if IsWaqfLazimMark(c) then WaqfLazimRule
    else if c == SmallHighLamAlef then WaqfMamnuRule
    else if IsHarokat(c) then HarokatRule
    else if IsStopMark(c) then StopRule
    else DefaultRule
  }

  /** Although the chain is ordered, no two conditions ever hold together, so
      each rule fires exactly when its own condition holds, whatever precedes
      it; and a character any single-character rule tags never falls through
      to the plain run. */
  lemma RuleAtSpec(text: string, i: nat)
    requires i < |text|
    ensures var r := RuleAt(text, i);
      && (r == GhunnahRule <==>
            (text[i] == Noon || text[i] == Meem) && CharAt(text, i + 1, Shadda))
      && (r == MaddFathaRule <==>
            IsArabicLetter(text[i]) && CharAt(text, i + 1, Fatha) && FathaElongationAt(text, i + 2))
      && (r == MaddKasraYaRule <==>
            IsArabicLetter(text[i]) && CharAt(text, i + 1, Kasra) && CharAt(text, i + 2, Ya)
            && !HarokatAt(text, i + 3))
      && (r == MaddDammaWawRule <==>
            IsArabicLetter(text[i]) && CharAt(text, i + 1, Damma) && CharAt(text, i + 2, Waw)
            && !HarokatAt(text, i + 3))
      && (r == WaqfLazimRule <==> IsWaqfLazimMark(text[i]))
      && (r == WaqfMamnuRule <==> text[i] == SmallHighLamAlef)
      && (r == HarokatRule <==> IsHarokat(text[i]))
      && (r == StopRule <==> IsBlueStopMark(text[i]) && text[i] != SmallHighMeem)
      && (r == DefaultRule ==> !IsMark(text[i]))
  {
  }

  /** The tagged spans a firing rule pushes, in order. */
  function Spans(text: string, i: nat, r: Rule): (segs: seq<Segment>)
    requires r != DefaultRule && i + r.Width() <= |text|
  {
    match r
    case GhunnahRule => [Tagged(Ghunnah, text[i..i + 2])]
    case MaddFathaRule | MaddKasraYaRule | MaddDammaWawRule =>
      [Tagged(MaddLetter, [text[i]]), Tagged(MaddVowel, [text[i + 1]]), Tagged(MaddLetter, [text[i + 2]])]
    case WaqfLazimRule => [Tagged(WaqfLazim, [text[i]])]
    case WaqfMamnuRule => [Tagged(WaqfMamnu, [text[i]])]
    case HarokatRule => [Tagged(Harokat, [text[i]])]
    case StopRule => [Tagged(Stop, [text[i]])]
  }

  // ---------------------------------------------------------------------
  // Well-formed segment lists
  // ---------------------------------------------------------------------

  /** A plain run is non-empty and holds no character a single-character rule tags. */
  predicate PlainSound(t: string) {
    t != [] && forall c :: c in t ==> !IsMark(c)
  }

  /** What a tagged span of each category may hold. */
  predicate TaggedSound(cat: Category, t: string) {
    match cat
    case Ghunnah => |t| == 2 && (t[0] == Noon || t[0] == Meem) && t[1] == Shadda
    case MaddLetter => |t| == 1 && (IsArabicLetter(t[0]) || t[0] == SuperscriptAlif)
    case MaddVowel => |t| == 1 && (t[0] == Fatha || t[0] == Kasra || t[0] == Damma)
    case WaqfLazim => |t| == 1 && IsWaqfLazimMark(t[0])
    case WaqfMamnu => t == [SmallHighLamAlef]
    case Harokat => |t| == 1 && IsHarokat(t[0])
    case Stop => |t| == 1 && IsBlueStopMark(t[0]) && t[0] != SmallHighMeem
  }

  predicate SegmentSound(s: Segment) {
    match s
    case Plain(t) => PlainSound(t)
    case Tagged(cat, t) => TaggedSound(cat, t)
  }

  /** No two plain runs are adjacent. */
  predicate NoAdjacentPlain(segs: seq<Segment>) {
    forall j, k :: 0 <= j < |segs| && 0 <= k < |segs| && k == j + 1 ==> !(segs[j].Plain? && segs[k].Plain?)
  }

  predicate WellFormed(segs: seq<Segment>) {
    && (forall k :: 0 <= k < |segs| ==> SegmentSound(segs[k]))
    && NoAdjacentPlain(segs)
  }

  /** Puts `s` in front of `segs`, joining it to a leading plain run: this is
      how the pending `currentString` meets the rest of the output. */
  function Prepend(s: string, segs: seq<Segment>): seq<Segment> {
    if s == [] then segs
    else if segs != [] && segs[0].Plain? then [Plain(s + segs[0].text)] + segs[1..]
    else [Plain(s)] + segs
  }

  // ---------------------------------------------------------------------
  // The scanner
  // ---------------------------------------------------------------------

  /** The segmentation, defined from the left: the rule at the first
      character either contributes its spans, or (the default) the first
      character joins the plain run that begins the rest. */
  function Colorize(text: string): (segs: seq<Segment>)
    decreases |text|
  {
    if text == [] then []
    else
      var r := RuleAt(text, 0);
      if r == DefaultRule then Prepend([text[0]], Colorize(text[1..]))
      else Spans(text, 0, r) + Colorize(text[r.Width()..])
  }

  /** Reconstruction: every character lands in exactly one segment, in
      order, so the segments spell the text again. */
  lemma {:induction false} ColorizeFlatten(text: string)
    ensures Flatten(Colorize(text)) == text
    decreases |text|
  {
    if text != [] {
      var r := RuleAt(text, 0);
      if r == DefaultRule {
        ColorizeFlatten(text[1..]);
        DefaultStep(text, Colorize(text[1..]));
      } else {
        ColorizeFlatten(text[r.Width()..]);
        TaggedStep(text, r, Colorize(text[r.Width()..]));
      }
    }
  }

  /** The same segmentation read with the source's cursor: the output from
      position `i` onwards. */
  function ColorizeFrom(text: string, i: nat): seq<Segment>
    requires i <= |text|
    decreases |text| - i
  {
    if i == |text| then []
    else
      var r := RuleAt(text, i);
      if r == DefaultRule then Prepend([text[i]], ColorizeFrom(text, i + 1))
      else Spans(text, i, r) + ColorizeFrom(text, i + r.Width())
  }

  /** The cursor form and the suffix form agree at every position. */
  lemma {:induction false} ColorizeFromSuffix(text: string, i: nat)
    requires i <= |text|
    ensures ColorizeFrom(text, i) == Colorize(text[i..])
    decreases |text| - i
  {
    if i < |text| {
      var r := RuleAt(text, i);
      ScanStep(text, i);
      if r == DefaultRule {
        ColorizeFromSuffix(text, i + 1);
        assert ColorizeFrom(text, i) == Prepend([text[i]], ColorizeFrom(text, i + 1));
      } else {
        ColorizeFromSuffix(text, i + r.Width());
        assert ColorizeFrom(text, i) == Spans(text, i, r) + ColorizeFrom(text, i + r.Width());
      }
    }
  }

  /** The segmentation is well formed: plain runs are non-empty, never
      adjacent and free of marks, and every tagged span has the width and the
      characters its category demands (two for Ghunnah, one otherwise). */
  lemma {:induction false} ColorizeWellFormed(text: string)
    ensures WellFormed(Colorize(text))
    decreases |text|
  {
    if text != [] {
      var r := RuleAt(text, 0);
      if r == DefaultRule {
        ColorizeWellFormed(text[1..]);
        RuleAtSpec(text, 0);
        WellFormedPrepend([text[0]], Colorize(text[1..]));
      } else {
        ColorizeWellFormed(text[r.Width()..]);
        SpansSound(text, r);
        WellFormedConcat(Spans(text, 0, r), Colorize(text[r.Width()..]));
      }
    }
  }

  /** The scanner as the source writes it: a cursor `i`, the pending plain
      run `current`, and the pushed `elements`. */
  method ColorizeArabicText(text: string) returns (elements: seq<Segment>)
    ensures elements == Colorize(text)
    ensures Flatten(elements) == text
    ensures WellFormed(elements)
  {
    elements := [];
    var current: string := "";
    var i: nat := 0;
    assert text[0..] == text;
    while i < |text|
      invariant i <= |text|
      invariant elements + Prepend(current, Colorize(text[i..])) == Colorize(text)
      decreases |text| - i
    {
      i, elements, current := ScanIteration(text, i, elements, current);
    }
    assert text[i..] == [] && Colorize([]) == [];
    assert Prepend(current, []) == if current == [] then [] else [Plain(current)];
    if current != [] {
      elements := elements + [Plain(current)];
    }
    ColorizeFlatten(text);
    ColorizeWellFormed(text);
  }

  /** One pass of the scanner's loop body: the rule at the cursor either
      pushes its spans after flushing the pending run, or (the default) adds
      the character to the pending run. */
  method ScanIteration(text: string, i: nat, elements: seq<Segment>, current: string)
    returns (i': nat, elements': seq<Segment>, current': string)
    requires i < |text|
    requires elements + Prepend(current, Colorize(text[i..])) == Colorize(text)
    ensures i < i' <= |text|
    ensures elements' + Prepend(current', Colorize(text[i'..])) == Colorize(text)
  {
    var r := RuleAt(text, i);
    if r == DefaultRule {
      ScanDefaultStep(text, i, elements, current);
      current' := current + [text[i]];
      elements' := elements;
      i' := i + 1;
    } else {
      ScanTaggedStep(text, i, elements, current);
      elements' := Flush(elements, current) + Spans(text, i, r);
      current' := "";
      i' := i + r.Width();
    }
  }

  // ---------------------------------------------------------------------
  // Helper lemmas
  // ---------------------------------------------------------------------

  /** One default step keeps the text and the well-formedness of the rest. */
  lemma DefaultStep(text: string, rest: seq<Segment>)
    requires text != [] && RuleAt(text, 0) == DefaultRule
    requires Flatten(rest) == text[1..]
    ensures Flatten(Prepend([text[0]], rest)) == text
  {
    FlattenPrepend([text[0]], rest);
    assert [text[0]] + text[1..] == text;
  }

  /** One tagged step keeps the text and the well-formedness of the rest. */
  lemma TaggedStep(text: string, r: Rule, rest: seq<Segment>)
    requires text != [] && r == RuleAt(text, 0) && r != DefaultRule
    requires Flatten(rest) == text[r.Width()..]
    ensures Flatten(Spans(text, 0, r) + rest) == text
  {
    var spans := Spans(text, 0, r);
    SpansSound(text, r);
    FlattenConcat(spans, rest);
    assert text == text[..r.Width()] + text[r.Width()..];
  }

  /** The spans of a firing rule are tagged, sound, and cover exactly the
      characters the rule consumes. */
  lemma SpansSound(text: string, r: Rule)
    requires text != [] && r == RuleAt(text, 0) && r != DefaultRule
    ensures Flatten(Spans(text, 0, r)) == text[..r.Width()]
    ensures WellFormed(Spans(text, 0, r))
    ensures forall k :: 0 <= k < |Spans(text, 0, r)| ==> Spans(text, 0, r)[k].Tagged?
  {
    var spans := Spans(text, 0, r);
    RuleAtSpec(text, 0);
    if r.MaddFathaRule? || r.MaddKasraYaRule? || r.MaddDammaWawRule? {
      assert Flatten(spans[2..]) == [text[2]];
      assert Flatten(spans[1..]) == [text[1], text[2]];
      assert text[..3] == [text[0], text[1], text[2]];
    } else if r != GhunnahRule {
      assert Flatten(spans) == [text[0]] + [];
    } else {
      assert Flatten(spans) == text[..2] + [];
    }
  }

  lemma {:induction false} FlattenConcat(a: seq<Segment>, b: seq<Segment>)
    ensures Flatten(a + b) == Flatten(a) + Flatten(b)
    decreases |a|
  {
    if a == [] {
      assert a + b == b;
    } else {
      assert (a + b)[1..] == a[1..] + b;
      FlattenConcat(a[1..], b);
    }
  }

  lemma FlattenPrepend(s: string, segs: seq<Segment>)
    ensures Flatten(Prepend(s, segs)) == s + Flatten(segs)
  {
    if s != [] && segs != [] && segs[0].Plain? {
      assert ([Plain(s + segs[0].text)] + segs[1..])[1..] == segs[1..];
    } else if s != [] {
      assert ([Plain(s)] + segs)[1..] == segs;
    }
  }

  lemma WellFormedConcat(a: seq<Segment>, b: seq<Segment>)
    requires WellFormed(a) && WellFormed(b)
    requires forall k :: 0 <= k < |a| ==> a[k].Tagged?
    ensures WellFormed(a + b)
  {
    var ab := a + b;
    forall j, k | 0 <= j < k < |ab| && k == j + 1
      ensures !(ab[j].Plain? && ab[k].Plain?)
    {
      if k < |a| {
      } else if k == |a| {
        assert ab[j] == a[|a| - 1];
      } else {
        assert ab[j] == b[k - 1 - |a|] && ab[k] == b[k - |a|];
      }
    }
  }

  lemma WellFormedPrepend(s: string, segs: seq<Segment>)
    requires WellFormed(segs)
    requires s == [] || PlainSound(s)
    ensures WellFormed(Prepend(s, segs))
  {
    if s != [] && segs != [] && segs[0].Plain? {
      var head := Plain(s + segs[0].text);
      assert SegmentSound(segs[0]);
      assert PlainSound(s + segs[0].text) by {
        forall c | c in s + segs[0].text ensures !IsMark(c) {
          assert c in s || c in segs[0].text;
        }
      }
      var p := [head] + segs[1..];
      forall j, k | 0 <= j < k < |p| && k == j + 1
        ensures !(p[j].Plain? && p[k].Plain?)
      {
        if k == 1 {
          if |segs| > 1 {
            assert p[1] == segs[1];
          }
        } else {
          assert p[j] == segs[k - 1] && p[k] == segs[k];
        }
      }
    } else if s != [] {
      var p := [Plain(s)] + segs;
      forall j, k | 0 <= j < k < |p| && k == j + 1
        ensures !(p[j].Plain? && p[k].Plain?)
      {
        if k > 1 {
          assert p[j] == segs[k - 2] && p[k] == segs[k - 1];
        }
      }
    }
  }

  /** Two pending additions in a row are one longer pending addition. */
  lemma PrependPrepend(s: string, t: string, segs: seq<Segment>)
    requires t != []
    ensures Prepend(s, Prepend(t, segs)) == Prepend(s + t, segs)
  {
    if s == [] {
      assert s + t == t;
    } else if segs != [] && segs[0].Plain? {
      assert s + (t + segs[0].text) == (s + t) + segs[0].text;
    }
  }

  /** What one iteration of the loop relies on: the rest of the output from
      cursor `i` is the rule's spans (or the pending character) followed by
      the output from the next cursor. */
  lemma ScanStep(text: string, i: nat)
    requires i < |text|
    ensures RuleAt(text, i) == DefaultRule ==>
              Colorize(text[i..]) == Prepend([text[i]], Colorize(text[i + 1..]))
    ensures RuleAt(text, i) != DefaultRule ==>
              Colorize(text[i..]) == Spans(text, i, RuleAt(text, i)) + Colorize(text[i + RuleAt(text, i).Width()..])
  {
    var t := text[i..];
    var r := RuleAt(text, i);
    RuleAtShift(text, i);
    if r == DefaultRule {
      assert t[1..] == text[i + 1..];
    } else {
      assert t[r.Width()..] == text[i + r.Width()..];
      assert t[0] == text[i];
      assert r.Width() >= 2 ==> t[1] == text[i + 1] && t[..2] == text[i..i + 2];
      assert r.Width() >= 3 ==> t[2] == text[i + 2];
      assert Spans(t, 0, r) == Spans(text, i, r);
    }
  }

  /** A default iteration keeps the loop invariant: the character joins
      the pending run. */
  lemma ScanDefaultStep(text: string, i: nat, elements: seq<Segment>, current: string)
    requires i < |text| && RuleAt(text, i) == DefaultRule
    requires elements + Prepend(current, Colorize(text[i..])) == Colorize(text)
    ensures elements + Prepend(current + [text[i]], Colorize(text[i + 1..])) == Colorize(text)
  {
    ScanStep(text, i);
    PrependPrepend(current, [text[i]], Colorize(text[i + 1..]));
  }

  /** A tagged iteration keeps the loop invariant: the pending run is
      flushed and the rule's spans are pushed. */
  lemma ScanTaggedStep(text: string, i: nat, elements: seq<Segment>, current: string)
    requires i < |text| && RuleAt(text, i) != DefaultRule
    requires elements + Prepend(current, Colorize(text[i..])) == Colorize(text)
    ensures var r := RuleAt(text, i);
            Flush(elements, current) + Spans(text, i, r) + Prepend("", Colorize(text[i + r.Width()..]))
            == Colorize(text)
  {
    var r := RuleAt(text, i);
    var spans := Spans(text, i, r);
    var rest := Colorize(text[i + r.Width()..]);
    ScanStep(text, i);
    SpansSoundAt(text, i);
    PrependBeforeTagged(elements, current, spans, rest);
  }

  /** The output with the pending run pushed, when there is one: the
      `if (currentString)` push before every span and at the end. */
  function Flush(elements: seq<Segment>, current: string): seq<Segment> {
    if current == [] then elements else elements + [Plain(current)]
  }

  /** Flushing the pending run before a tagged span. */
  lemma PrependBeforeTagged(elements: seq<Segment>, s: string, spans: seq<Segment>, rest: seq<Segment>)
    requires spans != [] && spans[0].Tagged?
    ensures elements + Prepend(s, spans + rest) == Flush(elements, s) + spans + rest
  {
    if s == [] {
      assert Prepend(s, spans + rest) == spans + rest;
    } else {
      assert (spans + rest)[0] == spans[0];
      assert Prepend(s, spans + rest) == [Plain(s)] + (spans + rest);
      assert Flush(elements, s) == elements + [Plain(s)];
    }
  }

  /** The spans of a rule at any cursor start with a tagged span. */
  lemma SpansSoundAt(text: string, i: nat)
    requires i < |text| && RuleAt(text, i) != DefaultRule
    ensures Spans(text, i, RuleAt(text, i)) != [] && Spans(text, i, RuleAt(text, i))[0].Tagged?
  {
  }

  /** The rule at cursor `i` only looks at `text[i..]`. */
  lemma RuleAtShift(text: string, i: nat)
    requires i < |text|
    ensures RuleAt(text, i) == RuleAt(text[i..], 0)
  {
    var t := text[i..];
    RuleAtSpec(text, i);
    RuleAtSpec(t, 0);
    forall k: nat, c: char ensures CharAt(text, i + k, c) == CharAt(t, k, c) {
    }
    assert HarokatAt(text, i + 3) == HarokatAt(t, 3);
    assert FathaElongationAt(text, i + 2) == FathaElongationAt(t, 2);
  }
}
