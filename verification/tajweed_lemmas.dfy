/** Properties of the Tajweed scanner: what each rule produces where the
    scanner stands, what happens to every occurrence of a mark anywhere in
    the verse, and when the whole verse stays one plain run. */
module TajweedLemmas {
  import opened Wrappers
  import opened Tajweed

  // ---------------------------------------------------------------------
  // Per-character labels
  // ---------------------------------------------------------------------

  /** The label of each character of a segment: its category, or `None` in a plain run. */
  function SegmentLabels(s: Segment): (ls: seq<Option<Category>>)
    ensures |ls| == |s.text|
  {
    match s
    case Plain(t) => seq(|t|, _ => None)
    case Tagged(cat, t) => seq(|t|, _ => Some(cat))
  }

  /** The label of every character of a segment list, in order. */
  function Labels(segs: seq<Segment>): (ls: seq<Option<Category>>)
    ensures |ls| == |Flatten(segs)|
  {
    if segs == [] then [] else SegmentLabels(segs[0]) + Labels(segs[1..])
  }

  /** The label of every character of a verse, as the scanner colours it. */
  function TextLabels(text: string): (ls: seq<Option<Category>>)
    ensures |ls| == |text|
  {
    ColorizeFlatten(text);
    Labels(Colorize(text))
  }

  /** Which characters each label may carry. */
  predicate LabelFits(l: Option<Category>, c: char) {
    match l
    case None => !IsMark(c)
    case Some(Ghunnah) => c == Noon || c == Meem || c == Shadda
    case Some(MaddLetter) => IsArabicLetter(c) || c == SuperscriptAlif
    case Some(MaddVowel) => c == Fatha || c == Kasra || c == Damma
    case Some(WaqfLazim) => IsWaqfLazimMark(c)
    case Some(WaqfMamnu) => c == SmallHighLamAlef
    case Some(Harokat) => IsHarokat(c)
    case Some(Stop) => IsBlueStopMark(c) && c != SmallHighMeem
  }

  lemma {:induction false} LabelsConcat(a: seq<Segment>, b: seq<Segment>)
    ensures Labels(a + b) == Labels(a) + Labels(b)
    decreases |a|
  {
    if a == [] {
      assert a + b == b;
    } else {
      assert (a + b)[1..] == a[1..] + b;
      LabelsConcat(a[1..], b);
    }
  }

  /** A character joining the pending run is labelled as plain. */
  lemma LabelsPrepend(c: char, segs: seq<Segment>)
    ensures Labels(Prepend([c], segs)) == [None] + Labels(segs)
  {
    if segs != [] && segs[0].Plain? {
      var head := Plain([c] + segs[0].text);
      assert ([head] + segs[1..])[1..] == segs[1..];
      assert SegmentLabels(head) == [None] + SegmentLabels(segs[0]);
      assert Labels(segs) == SegmentLabels(segs[0]) + Labels(segs[1..]);
    } else {
      assert ([Plain([c])] + segs)[1..] == segs;
    }
  }

  /** In a list of sound segments every label fits its character. */
  lemma {:induction false} LabelsSound(segs: seq<Segment>, p: nat)
    requires forall k :: 0 <= k < |segs| ==> SegmentSound(segs[k])
    requires p < |Flatten(segs)|
    ensures LabelFits(Labels(segs)[p], Flatten(segs)[p])
    decreases |segs|
  {
    var head := segs[0];
    assert SegmentSound(head);
    if p < |head.text| {
      assert Labels(segs)[p] == SegmentLabels(head)[p];
      assert Flatten(segs)[p] == head.text[p];
      match head
      case Plain(t) =>
        assert t[p] in t;
      case Tagged(cat, t) =>
    } else {
      assert Labels(segs)[p] == Labels(segs[1..])[p - |head.text|];
      assert Flatten(segs)[p] == Flatten(segs[1..])[p - |head.text|];
      LabelsSound(segs[1..], p - |head.text|);
    }
  }

  // ---------------------------------------------------------------------
  // Every occurrence, anywhere in the verse
  // ---------------------------------------------------------------------

  /** Wherever a mark stands in the verse, it is tagged: a compulsory-stop
      meem always as WaqfLazim (U+06D8 never as Stop, though listed among the
      blue marks), the lam-alef always as WaqfMamnu, the other blue marks
      always as Stop, and a diacritic as Harokat unless a ghunnah or madd rule
      took it; conversely nothing left plain is a mark. */
  lemma MarksAlwaysTagged(text: string, p: nat)
    requires p < |text|
    ensures var l := TextLabels(text)[p];
      && (IsWaqfLazimMark(text[p]) ==> l == Some(WaqfLazim))
      && (text[p] == SmallHighLamAlef ==> l == Some(WaqfMamnu))
      && (IsBlueStopMark(text[p]) && text[p] != SmallHighMeem ==> l == Some(Stop))
      && (IsHarokat(text[p]) ==>
            l == Some(Harokat) || l == Some(Ghunnah) || l == Some(MaddVowel) || l == Some(MaddLetter))
      && (l == None ==> !IsMark(text[p]))
  {
    var segs := Colorize(text);
    ColorizeFlatten(text);
    ColorizeWellFormed(text);
    LabelsSound(segs, p);
    LabelFitsMarks(Labels(segs)[p], text[p]);
  }

  /** The character-level reasoning behind `MarksAlwaysTagged`. */
  lemma LabelFitsMarks(l: Option<Category>, c: char)
    requires LabelFits(l, c)
    ensures IsWaqfLazimMark(c) ==> l == Some(WaqfLazim)
    ensures c == SmallHighLamAlef ==> l == Some(WaqfMamnu)
    ensures IsBlueStopMark(c) && c != SmallHighMeem ==> l == Some(Stop)
    ensures IsHarokat(c) ==>
              l == Some(Harokat) || l == Some(Ghunnah) || l == Some(MaddVowel) || l == Some(MaddLetter)
    ensures l == None ==> !IsMark(c)
  {
  }

  /** Every noon or meem followed by a shadda, wherever it stands, is tagged
      Ghunnah together with that shadda: no other rule can have consumed the
      noon or meem before the cursor reaches it. */
  lemma {:induction false} GhunnahEverywhere(text: string, p: nat)
    requires p + 1 < |text|
    requires (text[p] == Noon || text[p] == Meem) && text[p + 1] == Shadda
    ensures TextLabels(text)[p] == Some(Ghunnah)
    ensures TextLabels(text)[p + 1] == Some(Ghunnah)
    decreases |text|
  {
    if p == 0 {
      GhunnahLabelsAtCursor(text);
    } else {
      var w := GhunnahResume(text, p);
      GhunnahEverywhere(text[w..], p - w);
    }
  }

  /** The scan reaches a noon or meem standing past the cursor: the rule at
      the cursor consumes `w` characters, all before it, and from there on
      the labels are those of the scan of `text[w..]`. */
  lemma GhunnahResume(text: string, p: nat) returns (w: nat)
    requires 0 < p && p + 1 < |text| && (text[p] == Noon || text[p] == Meem)
    ensures 0 < w <= p
    ensures TextLabels(text)[p] == TextLabels(text[w..])[p - w]
    ensures TextLabels(text)[p + 1] == TextLabels(text[w..])[p + 1 - w]
  {
    w := RuleAt(text, 0).Width();
    NoonStartsNoSpanInterior(text, p);
    if RuleAt(text, 0) == DefaultRule {
      LabelsShiftDefault(text, p);
      LabelsShiftDefault(text, p + 1);
    } else {
      LabelsShiftTagged(text, p);
      LabelsShiftTagged(text, p + 1);
    }
  }

  /** Past the character a default step consumes, the labels are those of
      the scan of the rest. */
  lemma LabelsShiftDefault(text: string, q: nat)
    requires 0 < q < |text| && RuleAt(text, 0) == DefaultRule
    ensures TextLabels(text)[q] == TextLabels(text[1..])[q - 1]
  {
    var rest := Colorize(text[1..]);
    assert Colorize(text) == Prepend([text[0]], rest);
    LabelsPrepend(text[0], rest);
  }

  /** Past the spans a firing rule pushes, the labels are those of the scan
      of the rest. */
  lemma LabelsShiftTagged(text: string, q: nat)
    requires q < |text| && RuleAt(text, 0) != DefaultRule && q >= RuleAt(text, 0).Width()
    ensures var w := RuleAt(text, 0).Width();
            TextLabels(text)[q] == TextLabels(text[w..])[q - w]
  {
    var r := RuleAt(text, 0);
    var w := r.Width();
    var rest := Colorize(text[w..]);
    var spans := Spans(text, 0, r);
    assert Colorize(text) == spans + rest;
    SpansLabelsWidth(text, r);
    ColorizeFlatten(text[w..]);
    LabelsAfter(spans, rest, q - w);
  }

  /** A firing rule's spans carry one label per character they cover. */
  lemma SpansLabelsWidth(text: string, r: Rule)
    requires text != [] && r == RuleAt(text, 0) && r != DefaultRule
    ensures |Labels(Spans(text, 0, r))| == r.Width()
  {
    SpansSound(text, r);
  }

  /** The labels of a list's tail stretch, read past its head. */
  lemma LabelsAfter(a: seq<Segment>, b: seq<Segment>, j: nat)
    requires j < |Labels(b)|
    ensures |Labels(a)| + j < |Labels(a + b)|
    ensures Labels(a + b)[|Labels(a)| + j] == Labels(b)[j]
  {
    LabelsConcat(a, b);
  }

  lemma GhunnahLabelsAtCursor(text: string)
    requires |text| >= 2 && (text[0] == Noon || text[0] == Meem) && text[1] == Shadda
    ensures TextLabels(text)[0] == Some(Ghunnah)
    ensures TextLabels(text)[1] == Some(Ghunnah)
  {
    GhunnahFires(text);
    var spans := Spans(text, 0, GhunnahRule);
    LabelsConcat(spans, Colorize(text[2..]));
    assert Labels(spans) == [Some(Ghunnah), Some(Ghunnah)];
  }

  lemma GhunnahFires(text: string)
    requires |text| >= 2 && (text[0] == Noon || text[0] == Meem) && text[1] == Shadda
    ensures RuleAt(text, 0) == GhunnahRule
  {
  }

  /** A noon or meem is never the second or third character of a span. */
  lemma NoonStartsNoSpanInterior(text: string, p: nat)
    requires 0 < p < |text| && (text[p] == Noon || text[p] == Meem)
    ensures p >= RuleAt(text, 0).Width()
  {
    RuleAtSpec(text, 0);
  }

  // ---------------------------------------------------------------------
  // Plain text
  // ---------------------------------------------------------------------

  /** A verse without marks is left as it is: no rule fires anywhere. */
  lemma {:induction false} MarkFreeIsPlain(text: string)
    requires forall c :: c in text ==> !IsMark(c)
    ensures text == [] ==> Colorize(text) == []
    ensures text != [] ==> Colorize(text) == [Plain(text)]
    decreases |text|
  {
    if text != [] {
      assert text[0] in text;
      assert 1 < |text| ==> text[1] in text;
      NoMarkNoRule(text);
      var rest := text[1..];
      forall c | c in rest ensures !IsMark(c) {
        assert c in text;
      }
      MarkFreeIsPlain(rest);
      assert Colorize(text) == Prepend([text[0]], Colorize(rest));
      if rest != [] {
        assert [text[0]] + rest == text;
      } else {
        assert text == [text[0]];
      }
    }
  }

  /** Every rule but the default needs a mark at the cursor or just after it. */
  lemma NoMarkNoRule(text: string)
    requires text != [] && !IsMark(text[0]) && (1 < |text| ==> !IsMark(text[1]))
    ensures RuleAt(text, 0) == DefaultRule
  {
    RuleAtSpec(text, 0);
  }

  /** The scanner returns the verse as one plain run exactly when the verse
      is non-empty and holds no mark. */
  lemma OnePlainRunIff(text: string)
    ensures Colorize(text) == [Plain(text)] <==> text != [] && forall c :: c in text ==> !IsMark(c)
  {
    if Colorize(text) == [Plain(text)] {
      ColorizeWellFormed(text);
      assert SegmentSound(Colorize(text)[0]);
    }
    if text != [] && forall c :: c in text ==> !IsMark(c) {
      MarkFreeIsPlain(text);
    }
  }

  // ---------------------------------------------------------------------
  // What each rule produces at the cursor
  // ---------------------------------------------------------------------

  /** The three spans of a natural madd. */
  function MaddSpans(letter: char, vowel: char, long: char): seq<Segment> {
    [Tagged(MaddLetter, [letter]), Tagged(MaddVowel, [vowel]), Tagged(MaddLetter, [long])]
  }

  /** A noon or meem with shadda is one two-character Ghunnah span. */
  lemma GhunnahAtCursor(text: string)
    requires |text| >= 2 && (text[0] == Noon || text[0] == Meem) && text[1] == Shadda
    ensures Colorize(text) == [Tagged(Ghunnah, [text[0], Shadda])] + Colorize(text[2..])
  {
    RuleAtSpec(text, 0);
    assert text[..2] == [text[0], Shadda];
  }

  /** A letter, a fatha, and an alif, alif maqsura or superscript alif are
      three spans: letter, vowel, letter. */
  lemma MaddFathaAtCursor(text: string)
    requires |text| >= 3 && IsArabicLetter(text[0]) && text[1] == Fatha
    requires text[2] == Alif || text[2] == AlifMaqsura || text[2] == SuperscriptAlif
    ensures Colorize(text) == MaddSpans(text[0], Fatha, text[2]) + Colorize(text[3..])
  {
    RuleAtSpec(text, 0);
  }

  /** A letter, a kasra and a ya form a madd when nothing, or a character
      that is not a diacritic, follows the ya. */
  lemma MaddKasraYaAtCursor(text: string)
    requires |text| >= 3 && IsArabicLetter(text[0]) && text[1] == Kasra && text[2] == Ya
    requires |text| == 3 || !IsHarokat(text[3])
    ensures Colorize(text) == MaddSpans(text[0], Kasra, Ya) + Colorize(text[3..])
  {
    RuleAtSpec(text, 0);
  }

  /** A letter, a damma and a waw form a madd when nothing, or a character
      that is not a diacritic, follows the waw. */
  lemma MaddDammaWawAtCursor(text: string)
    requires |text| >= 3 && IsArabicLetter(text[0]) && text[1] == Damma && text[2] == Waw
    requires |text| == 3 || !IsHarokat(text[3])
    ensures Colorize(text) == MaddSpans(text[0], Damma, Waw) + Colorize(text[3..])
  {
    RuleAtSpec(text, 0);
  }

  /** When the ya after a kasra carries a diacritic there is no madd: the
      letter joins a plain run and the kasra is an ordinary Harokat span. */
  lemma KasraYaWithMarkIsNotMadd(text: string)
    requires |text| >= 4 && IsArabicLetter(text[0]) && text[1] == Kasra && text[2] == Ya
    requires IsHarokat(text[3])
    ensures Colorize(text) == [Plain([text[0]]), Tagged(Harokat, [Kasra])] + Colorize(text[2..])
  {
    NoMaddBeforeMarkedLetter(text);
    LetterThenSign(text);
  }

  /** When the waw after a damma carries a diacritic there is no madd: the
      letter joins a plain run and the damma is an ordinary Harokat span. */
  lemma DammaWawWithMarkIsNotMadd(text: string)
    requires |text| >= 4 && IsArabicLetter(text[0]) && text[1] == Damma && text[2] == Waw
    requires IsHarokat(text[3])
    ensures Colorize(text) == [Plain([text[0]]), Tagged(Harokat, [Damma])] + Colorize(text[2..])
  {
    NoMaddBeforeMarkedLetter(text);
    LetterThenSign(text);
  }

  /** A character no rule starts at, followed by a diacritic: a one-letter
      plain run, then the diacritic as a Harokat span. */
  lemma LetterThenSign(text: string)
    requires |text| >= 2 && RuleAt(text, 0) == DefaultRule && IsHarokat(text[1])
    ensures Colorize(text) == [Plain([text[0]]), Tagged(Harokat, [text[1]])] + Colorize(text[2..])
  {
    HarokatRuleAt(text, 1);
    LetterSignFrom(text, 0);
    ColorizeFromSuffix(text, 0);
    ColorizeFromSuffix(text, 2);
    assert text[0..] == text;
  }

  /** A diacritic is a Harokat span wherever it stands. */
  lemma HarokatRuleAt(text: string, i: nat)
    requires i < |text| && IsHarokat(text[i])
    ensures RuleAt(text, i) == HarokatRule
  {
    RuleAtSpec(text, i);
  }

  /** A letter followed by a kasra or damma whose ya or waw carries a
      diacritic starts no madd. */
  lemma NoMaddBeforeMarkedLetter(text: string)
    requires |text| >= 4 && IsArabicLetter(text[0]) && IsHarokat(text[3])
    requires (text[1] == Kasra && text[2] == Ya) || (text[1] == Damma && text[2] == Waw)
    ensures RuleAt(text, 0) == DefaultRule
  {
    RuleAtSpec(text, 0);
  }

  /** A mark at the cursor is a one-character span of its category. */
  lemma SingleMarkAtCursor(text: string)
    requires text != []
    ensures IsWaqfLazimMark(text[0]) ==>
              Colorize(text) == [Tagged(WaqfLazim, [text[0]])] + Colorize(text[1..])
    ensures text[0] == SmallHighLamAlef ==>
              Colorize(text) == [Tagged(WaqfMamnu, [text[0]])] + Colorize(text[1..])
    ensures IsHarokat(text[0]) ==>
              Colorize(text) == [Tagged(Harokat, [text[0]])] + Colorize(text[1..])
    ensures IsBlueStopMark(text[0]) && text[0] != SmallHighMeem ==>
              Colorize(text) == [Tagged(Stop, [text[0]])] + Colorize(text[1..])
  {
    RuleAtSpec(text, 0);
  }

  // ---------------------------------------------------------------------
  // The cursor form, step by step
  // ---------------------------------------------------------------------

  /** A vowel sign at the cursor is tagged on its own. */
  lemma SignFrom(t: string, i: nat)
    requires i < |t| && RuleAt(t, i) == HarokatRule
    ensures ColorizeFrom(t, i) == [Tagged(Harokat, [t[i]])] + ColorizeFrom(t, i + 1)
  {
    assert Spans(t, i, HarokatRule) == [Tagged(Harokat, [t[i]])];
  }

  /** A character no rule starts at joins the pending run. */
  lemma DefaultFrom(t: string, i: nat)
    requires i < |t| && RuleAt(t, i) == DefaultRule
    ensures ColorizeFrom(t, i) == Prepend([t[i]], ColorizeFrom(t, i + 1))
  {
  }

  /** A character no rule starts at, then a vowel sign: a one-letter plain
      run and the sign's span. */
  lemma LetterSignFrom(t: string, i: nat)
    requires i + 2 <= |t| && RuleAt(t, i) == DefaultRule && RuleAt(t, i + 1) == HarokatRule
    ensures ColorizeFrom(t, i) == [Plain([t[i]]), Tagged(Harokat, [t[i + 1]])] + ColorizeFrom(t, i + 2)
  {
    DefaultFrom(t, i);
    SignFrom(t, i + 1);
    PrependBeforeSign([t[i]], Tagged(Harokat, [t[i + 1]]), ColorizeFrom(t, i + 2));
  }

  /** Putting a run before a tagged span starts a new plain segment. */
  lemma PrependBeforeSign(s: string, span: Segment, rest: seq<Segment>)
    requires s != [] && span.Tagged?
    ensures Prepend(s, [span] + rest) == [Plain(s), span] + rest
  {
    assert ([span] + rest)[0] == span;
  }

  /** A default character right before a tagged span is a run of its own. */
  lemma LastPlainFrom(t: string, i: nat)
    requires i + 1 < |t| && RuleAt(t, i) == DefaultRule
    requires ColorizeFrom(t, i + 1) != [] && ColorizeFrom(t, i + 1)[0].Tagged?
    ensures ColorizeFrom(t, i) == [Plain([t[i]])] + ColorizeFrom(t, i + 1)
  {
    DefaultFrom(t, i);
  }

  /** A default character joins the plain run that follows it: this is the
      pending run growing by one character. */
  lemma JoinPlainFrom(t: string, i: nat, run: string, rest: seq<Segment>)
    requires i < |t| && RuleAt(t, i) == DefaultRule
    requires ColorizeFrom(t, i + 1) == [Plain(run)] + rest
    ensures ColorizeFrom(t, i) == [Plain([t[i]] + run)] + rest
  {
    DefaultFrom(t, i);
    var tail := [Plain(run)] + rest;
    assert tail[0] == Plain(run) && tail[1..] == rest;
  }

  /** Two consecutive stretches of the output, read as one. */
  lemma ChainFrom(t: string, i: nat, j: nat, k: nat, s: seq<Segment>, u: seq<Segment>)
    requires i <= j <= k <= |t|
    requires ColorizeFrom(t, i) == s + ColorizeFrom(t, j)
    requires ColorizeFrom(t, j) == u + ColorizeFrom(t, k)
    ensures ColorizeFrom(t, i) == (s + u) + ColorizeFrom(t, k)
  {
    assert s + (u + ColorizeFrom(t, k)) == (s + u) + ColorizeFrom(t, k);
  }
}
