/** Outputs of the scanner on concrete verses: one case per rule, the ya/waw
    exclusion, plain Latin text, and the bismillah shown above every surah. */
module TajweedExamples {
  import opened Tajweed
  import opened TajweedLemmas

  const Ba: char := '\U{0628}'
  const Sin: char := '\U{0633}'
  const Sukun: char := '\U{0652}'
  const Lam: char := '\U{0644}'
  const Ha: char := '\U{0647}'
  const Ra: char := '\U{0631}'
  const Hha: char := '\U{062D}'
  const Tatweel: char := '\U{0640}'

  lemma EmptyVerse()
    ensures Colorize("") == []
  {
  }

  /** Latin text holds no mark and stays one plain run. */
  lemma LatinText()
    ensures Colorize("Hello") == [Plain("Hello")]
  {
    HelloHasNoMark();
    OnePlainRunIff("Hello");
  }

  lemma HelloHasNoMark()
    ensures forall c :: c in "Hello" ==> !IsMark(c)
  {
  }

  lemma NoonShadda()
    ensures Colorize([Noon, Shadda]) == [Tagged(Ghunnah, [Noon, Shadda])]
  {
    var t := [Noon, Shadda];
    GhunnahAtCursor(t);
    assert t[2..] == [];
  }

  lemma BaFathaAlif()
    ensures Colorize([Ba, Fatha, Alif]) == MaddSpans(Ba, Fatha, Alif)
  {
    var t := [Ba, Fatha, Alif];
    MaddFathaAtCursor(t);
    assert t[3..] == [];
  }

  /** Kasra and ya at the end of the verse: a madd. */
  lemma BaKasraYa()
    ensures Colorize([Ba, Kasra, Ya]) == MaddSpans(Ba, Kasra, Ya)
  {
    var t := [Ba, Kasra, Ya];
    MaddKasraYaAtCursor(t);
    assert t[3..] == [];
  }

  /** Kasra and a ya that carries a shadda: no madd, and the ya is plain. */
  lemma BaKasraYaShadda()
    ensures Colorize([Ba, Kasra, Ya, Shadda])
            == [Plain([Ba]), Tagged(Harokat, [Kasra]), Plain([Ya]), Tagged(Harokat, [Shadda])]
  {
    var t := [Ba, Kasra, Ya, Shadda];
    KasraYaWithMarkIsNotMadd(t);
    assert t[2..] == [Ya, Shadda];
    YaShadda();
  }

  lemma YaShadda()
    ensures Colorize([Ya, Shadda]) == [Plain([Ya]), Tagged(Harokat, [Shadda])]
  {
    var u := [Ya, Shadda];
    RuleAtSpec(u, 0);
    assert Colorize(u) == Prepend([Ya], Colorize(u[1..]));
    assert u[1..] == [Shadda];
    SingleMarkAtCursor(u[1..]);
    assert u[1..][1..] == [];
  }

  lemma ForbiddenStop()
    ensures Colorize([SmallHighLamAlef]) == [Tagged(WaqfMamnu, [SmallHighLamAlef])]
  {
    var t := [SmallHighLamAlef];
    SingleMarkAtCursor(t);
    assert t[1..] == [];
  }

  /** The bismillah shown above every surah except the first and the ninth,
      spelled one position at a time. */
  predicate SpellsBismillah(t: string) {
    && |t| == 39
    && t[0] == Ba && t[1] == Kasra && t[2] == Sin && t[3] == Sukun && t[4] == Meem && t[5] == Kasra
    && t[6] == ' ' && t[7] == AlifWasla && t[8] == Lam && t[9] == Lam && t[10] == Shadda && t[11] == Fatha
    && t[12] == Ha && t[13] == Kasra && t[14] == ' ' && t[15] == AlifWasla && t[16] == Lam && t[17] == Ra
    && t[18] == Shadda && t[19] == Fatha && t[20] == Hha && t[21] == Sukun && t[22] == Meem && t[23] == Fatha
    && t[24] == Tatweel && t[25] == SuperscriptAlif && t[26] == Noon && t[27] == Kasra && t[28] == ' ' && t[29] == AlifWasla
    && t[30] == Lam && t[31] == Ra && t[32] == Shadda && t[33] == Fatha && t[34] == Hha && t[35] == Kasra
    && t[36] == Ya && t[37] == Meem && t[38] == Kasra
  }

  /** The colouring of the bismillah, word by word: every vowel sign and
      shadda is tagged, the one madd is the kasra and ya of ar-Rahim, and the
      long vowel of ar-Rahman is not tagged as madd because a tatweel
      separates its fatha from the superscript alif. */
  lemma BismillahColouring(t: string)
    requires SpellsBismillah(t)
    ensures Colorize(t) == BismillahWord1 + BismillahWord2 + BismillahWord3 + BismillahWord4
  {
    Word1(t);
    Word2(t);
    Word3(t);
    Word4(t);
    BismillahShapes(t);
    ChainFrom(t, 0, 6, 14, BismillahWord1, BismillahWord2);
    ChainFrom(t, 0, 14, 28, BismillahWord1 + BismillahWord2, BismillahWord3);
    ChainFrom(t, 0, 28, 39, BismillahWord1 + BismillahWord2 + BismillahWord3, BismillahWord4);
    ColorizeFromSuffix(t, 0);
    assert t[0..] == t;
  }

  const BismillahWord1: seq<Segment> :=
    [ Plain([Ba]), Tagged(Harokat, [Kasra]), Plain([Sin]), Tagged(Harokat, [Sukun]),
      Plain([Meem]), Tagged(Harokat, [Kasra]) ]
  const BismillahWord2: seq<Segment> :=
    [ Plain([' ', AlifWasla, Lam, Lam]), Tagged(Harokat, [Shadda]), Tagged(Harokat, [Fatha]),
      Plain([Ha]), Tagged(Harokat, [Kasra]) ]
  const BismillahWord3: seq<Segment> :=
    [ Plain([' ', AlifWasla, Lam, Ra]), Tagged(Harokat, [Shadda]), Tagged(Harokat, [Fatha]),
      Plain([Hha]), Tagged(Harokat, [Sukun]), Plain([Meem]), Tagged(Harokat, [Fatha]),
      Plain([Tatweel]), Tagged(Harokat, [SuperscriptAlif]), Plain([Noon]), Tagged(Harokat, [Kasra]) ]
  const BismillahWord4: seq<Segment> :=
    [ Plain([' ', AlifWasla, Lam, Ra]), Tagged(Harokat, [Shadda]), Tagged(Harokat, [Fatha]),
      Tagged(MaddLetter, [Hha]), Tagged(MaddVowel, [Kasra]), Tagged(MaddLetter, [Ya]),
      Plain([Meem]), Tagged(Harokat, [Kasra]) ]

  // The proof walks the scanner's cursor through the verse. The rule chosen
  // at each cursor position follows from the characters alone; the segments
  // emitted at each position follow from those rules, with the characters
  // left symbolic; the words are put together from those steps; and only
  // then are the symbolic words matched with the literal ones.

  /** A letter and its vowel sign. */
  predicate LetterVowelRules(t: string, i: nat) {
    i + 2 <= |t| && RuleAt(t, i) == DefaultRule && RuleAt(t, i + 1) == HarokatRule
  }

  /** Two vowel signs in a row. */
  predicate TwoSignsRules(t: string, i: nat) {
    i + 2 <= |t| && RuleAt(t, i) == HarokatRule && RuleAt(t, i + 1) == HarokatRule
  }

  /** A space, an alif wasla and two letters, then shadda and fatha. */
  predicate RunRules(t: string, i: nat) {
    && i + 6 <= |t|
    && RuleAt(t, i) == DefaultRule && RuleAt(t, i + 1) == DefaultRule
    && RuleAt(t, i + 2) == DefaultRule && RuleAt(t, i + 3) == DefaultRule
    && RuleAt(t, i + 4) == HarokatRule
  }

  /** A letter and its vowel sign, as two segments. */
  function LV(t: string, i: nat): seq<Segment>
    requires i + 2 <= |t|
  {
    [Plain([t[i]]), Tagged(Harokat, [t[i + 1]])]
  }

  /** Two vowel signs in a row (a shadda and a fatha), tagged one by one. */
  function TwoSigns(t: string, i: nat): seq<Segment>
    requires i + 2 <= |t|
  {
    [Tagged(Harokat, [t[i]]), Tagged(Harokat, [t[i + 1]])]
  }

  lemma RulesWord1(t: string)
    requires SpellsBismillah(t)
    ensures LetterVowelRules(t, 0) && LetterVowelRules(t, 2) && LetterVowelRules(t, 4)
  {
  }

  lemma RulesWord2(t: string)
    requires SpellsBismillah(t)
    ensures RunRules(t, 6) && TwoSignsRules(t, 10) && LetterVowelRules(t, 12)
  {
  }

  lemma RulesWord3(t: string)
    requires SpellsBismillah(t)
    ensures RunRules(t, 14) && TwoSignsRules(t, 18)
    ensures LetterVowelRules(t, 20) && LetterVowelRules(t, 22)
    ensures LetterVowelRules(t, 24) && LetterVowelRules(t, 26)
  {
  }

  lemma RulesWord4(t: string)
    requires SpellsBismillah(t)
    ensures RunRules(t, 28) && TwoSignsRules(t, 32)
    ensures RuleAt(t, 34) == MaddKasraYaRule && LetterVowelRules(t, 37)
  {
  }

  /** The symbolic words are the literal ones. */
  lemma BismillahShapes(t: string)
    requires SpellsBismillah(t)
    ensures LV(t, 0) + LV(t, 2) + LV(t, 4) == BismillahWord1
    ensures [Plain(t[6..10])] + TwoSigns(t, 10) + LV(t, 12) == BismillahWord2
    ensures [Plain(t[14..18])] + TwoSigns(t, 18) + LV(t, 20) + LV(t, 22) + LV(t, 24) + LV(t, 26)
            == BismillahWord3
    ensures [Plain(t[28..32])] + TwoSigns(t, 32) + MaddSpans(t[34], t[35], t[36]) + LV(t, 37)
            == BismillahWord4
  {
    assert t[6..10] == [' ', AlifWasla, Lam, Lam];
    assert t[14..18] == [' ', AlifWasla, Lam, Ra];
    assert t[28..32] == [' ', AlifWasla, Lam, Ra];
  }

  /** Bismi: three letters, each with its vowel sign. */
  lemma Word1(t: string)
    requires SpellsBismillah(t)
    ensures ColorizeFrom(t, 0) == LV(t, 0) + LV(t, 2) + LV(t, 4) + ColorizeFrom(t, 6)
  {
    Step0(t);
    Step2(t);
    Step4(t);
    ChainFrom(t, 0, 2, 4, LV(t, 0), LV(t, 2));
    ChainFrom(t, 0, 4, 6, LV(t, 0) + LV(t, 2), LV(t, 4));
  }

  /** Allahi: the untagged run up to the doubled lam, shadda and fatha, then
      the ha with its kasra. */
  lemma Word2(t: string)
    requires SpellsBismillah(t)
    ensures ColorizeFrom(t, 6) == [Plain(t[6..10])] + TwoSigns(t, 10) + LV(t, 12) + ColorizeFrom(t, 14)
  {
    Step6(t);
    Step10(t);
    Step12(t);
    ChainFrom(t, 6, 10, 12, [Plain(t[6..10])], TwoSigns(t, 10));
    ChainFrom(t, 6, 12, 14, [Plain(t[6..10])] + TwoSigns(t, 10), LV(t, 12));
  }

  /** ar-Rahmani: the run up to the ra, shadda and fatha, then four letters
      with their signs. No madd is found: the fatha at 23 is followed by the
      tatweel, not an alif, and the tatweel at 24 is followed by the
      superscript alif, not a fatha. */
  lemma Word3(t: string)
    requires SpellsBismillah(t)
    ensures ColorizeFrom(t, 14)
            == [Plain(t[14..18])] + TwoSigns(t, 18) + LV(t, 20) + LV(t, 22) + LV(t, 24) + LV(t, 26)
               + ColorizeFrom(t, 28)
  {
    Step14(t);
    Step18(t);
    Step20(t);
    Step22(t);
    Step24(t);
    Step26(t);
    ChainFrom(t, 14, 18, 20, [Plain(t[14..18])], TwoSigns(t, 18));
    ChainFrom(t, 14, 20, 22, [Plain(t[14..18])] + TwoSigns(t, 18), LV(t, 20));
    ChainFrom(t, 14, 22, 24, [Plain(t[14..18])] + TwoSigns(t, 18) + LV(t, 20), LV(t, 22));
    ChainFrom(t, 14, 24, 26, [Plain(t[14..18])] + TwoSigns(t, 18) + LV(t, 20) + LV(t, 22), LV(t, 24));
    ChainFrom(t, 14, 26, 28, [Plain(t[14..18])] + TwoSigns(t, 18) + LV(t, 20) + LV(t, 22) + LV(t, 24),
          LV(t, 26));
  }

  /** ar-Rahimi: the run up to the ra, shadda and fatha, the madd of the ha,
      kasra and ya, then the mim with its kasra. */
  lemma Word4(t: string)
    requires SpellsBismillah(t)
    ensures ColorizeFrom(t, 28)
            == [Plain(t[28..32])] + TwoSigns(t, 32) + MaddSpans(t[34], t[35], t[36]) + LV(t, 37)
               + ColorizeFrom(t, 39)
  {
    Step28(t);
    Step32(t);
    Step34(t);
    Step37(t);
    ChainFrom(t, 28, 32, 34, [Plain(t[28..32])], TwoSigns(t, 32));
    ChainFrom(t, 28, 34, 37, [Plain(t[28..32])] + TwoSigns(t, 32), MaddSpans(t[34], t[35], t[36]));
    ChainFrom(t, 28, 37, 39, [Plain(t[28..32])] + TwoSigns(t, 32) + MaddSpans(t[34], t[35], t[36]), LV(t, 37));
  }

  lemma Step0(t: string)
    requires SpellsBismillah(t)
    ensures ColorizeFrom(t, 0) == LV(t, 0) + ColorizeFrom(t, 2)
  {
    RulesWord1(t);
    LetterSignFrom(t, 0);
  }

  lemma Step2(t: string)
    requires SpellsBismillah(t)
    ensures ColorizeFrom(t, 2) == LV(t, 2) + ColorizeFrom(t, 4)
  {
    RulesWord1(t);
    LetterSignFrom(t, 2);
  }

  lemma Step4(t: string)
    requires SpellsBismillah(t)
    ensures ColorizeFrom(t, 4) == LV(t, 4) + ColorizeFrom(t, 6)
  {
    RulesWord1(t);
    LetterSignFrom(t, 4);
  }

  lemma Step6(t: string)
    requires SpellsBismillah(t)
    ensures ColorizeFrom(t, 6) == [Plain(t[6..10])] + ColorizeFrom(t, 10)
  {
    RulesWord2(t);
    SignFrom(t, 10);
    LastPlainFrom(t, 9);
    JoinPlainFrom(t, 8, [t[9]], ColorizeFrom(t, 10));
    JoinPlainFrom(t, 7, [t[8]] + [t[9]], ColorizeFrom(t, 10));
    JoinPlainFrom(t, 6, [t[7]] + ([t[8]] + [t[9]]), ColorizeFrom(t, 10));
    assert [t[6]] + ([t[7]] + ([t[8]] + [t[9]])) == t[6..10];
  }

  lemma Step10(t: string)
    requires SpellsBismillah(t)
    ensures ColorizeFrom(t, 10) == TwoSigns(t, 10) + ColorizeFrom(t, 12)
  {
    RulesWord2(t);
    TwoSignsAt(t, 10);
  }

  lemma Step12(t: string)
    requires SpellsBismillah(t)
    ensures ColorizeFrom(t, 12) == LV(t, 12) + ColorizeFrom(t, 14)
  {
    RulesWord2(t);
    LetterSignFrom(t, 12);
  }

  lemma Step14(t: string)
    requires SpellsBismillah(t)
    ensures ColorizeFrom(t, 14) == [Plain(t[14..18])] + ColorizeFrom(t, 18)
  {
    RulesWord3(t);
    SignFrom(t, 18);
    LastPlainFrom(t, 17);
    JoinPlainFrom(t, 16, [t[17]], ColorizeFrom(t, 18));
    JoinPlainFrom(t, 15, [t[16]] + [t[17]], ColorizeFrom(t, 18));
    JoinPlainFrom(t, 14, [t[15]] + ([t[16]] + [t[17]]), ColorizeFrom(t, 18));
    assert [t[14]] + ([t[15]] + ([t[16]] + [t[17]])) == t[14..18];
  }

  lemma Step18(t: string)
    requires SpellsBismillah(t)
    ensures ColorizeFrom(t, 18) == TwoSigns(t, 18) + ColorizeFrom(t, 20)
  {
    RulesWord3(t);
    TwoSignsAt(t, 18);
  }

  lemma Step20(t: string)
    requires SpellsBismillah(t)
    ensures ColorizeFrom(t, 20) == LV(t, 20) + ColorizeFrom(t, 22)
  {
    RulesWord3(t);
    LetterSignFrom(t, 20);
  }

  lemma Step22(t: string)
    requires SpellsBismillah(t)
    ensures ColorizeFrom(t, 22) == LV(t, 22) + ColorizeFrom(t, 24)
  {
    RulesWord3(t);
    LetterSignFrom(t, 22);
  }

  lemma Step24(t: string)
    requires SpellsBismillah(t)
    ensures ColorizeFrom(t, 24) == LV(t, 24) + ColorizeFrom(t, 26)
  {
    RulesWord3(t);
    LetterSignFrom(t, 24);
  }

  lemma Step26(t: string)
    requires SpellsBismillah(t)
    ensures ColorizeFrom(t, 26) == LV(t, 26) + ColorizeFrom(t, 28)
  {
    RulesWord3(t);
    LetterSignFrom(t, 26);
  }

  lemma Step28(t: string)
    requires SpellsBismillah(t)
    ensures ColorizeFrom(t, 28) == [Plain(t[28..32])] + ColorizeFrom(t, 32)
  {
    RulesWord4(t);
    SignFrom(t, 32);
    LastPlainFrom(t, 31);
    JoinPlainFrom(t, 30, [t[31]], ColorizeFrom(t, 32));
    JoinPlainFrom(t, 29, [t[30]] + [t[31]], ColorizeFrom(t, 32));
    JoinPlainFrom(t, 28, [t[29]] + ([t[30]] + [t[31]]), ColorizeFrom(t, 32));
    assert [t[28]] + ([t[29]] + ([t[30]] + [t[31]])) == t[28..32];
  }

  lemma Step32(t: string)
    requires SpellsBismillah(t)
    ensures ColorizeFrom(t, 32) == TwoSigns(t, 32) + ColorizeFrom(t, 34)
  {
    RulesWord4(t);
    TwoSignsAt(t, 32);
  }

  lemma Step34(t: string)
    requires SpellsBismillah(t)
    ensures ColorizeFrom(t, 34) == MaddSpans(t[34], t[35], t[36]) + ColorizeFrom(t, 37)
  {
    RulesWord4(t);
    MaddAt(t, 34);
  }

  lemma Step37(t: string)
    requires SpellsBismillah(t)
    ensures ColorizeFrom(t, 37) == LV(t, 37) + ColorizeFrom(t, 39)
  {
    RulesWord4(t);
    LetterSignFrom(t, 37);
  }

  lemma TwoSignsAt(t: string, i: nat)
    requires TwoSignsRules(t, i)
    ensures ColorizeFrom(t, i) == TwoSigns(t, i) + ColorizeFrom(t, i + 2)
  {
    SignFrom(t, i);
    SignFrom(t, i + 1);
    assert [Tagged(Harokat, [t[i]])] + ([Tagged(Harokat, [t[i + 1]])] + ColorizeFrom(t, i + 2))
        == TwoSigns(t, i) + ColorizeFrom(t, i + 2);
  }

  lemma MaddAt(t: string, i: nat)
    requires i < |t| && RuleAt(t, i) == MaddKasraYaRule
    ensures i + 3 <= |t|
    ensures ColorizeFrom(t, i) == MaddSpans(t[i], t[i + 1], t[i + 2]) + ColorizeFrom(t, i + 3)
  {
  }
}
