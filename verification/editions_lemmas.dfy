/** What the merge of the three editions guarantees about its records. */
module EditionsLemmas {
  import opened Wrappers
  import Transliteration
  import opened Editions

  /** With all three editions present the merge succeeds with one record per
      ayah of the (first) Arabic edition, in order; each record takes its
      number and Arabic text from that ayah, the surah number and name from
      the Arabic edition, and the translation at the same position, or the
      fallback when there is none or it is empty. */
  lemma MergeRecords(editions: seq<SurahEditionData>)
    requires HasEdition(editions, ArabicId)
    requires HasEdition(editions, TranslationId)
    requires HasEdition(editions, TransliterationId)
    ensures MergeEditions(editions).Ok?
    ensures var arabic := FindEdition(editions, ArabicId).value;
            var translation := FindEdition(editions, TranslationId).value;
            var merged := MergeEditions(editions).value;
            && |merged| == |arabic.ayahs|
            && (forall i :: 0 <= i < |merged| ==>
                  && merged[i].numberInSurah == arabic.ayahs[i].numberInSurah
                  && merged[i].arabicText == arabic.ayahs[i].text
                  && merged[i].surahNumber == arabic.number
                  && merged[i].surahName == arabic.name)
            && (forall i :: 0 <= i < |merged| ==>
                  if i < |translation.ayahs| && translation.ayahs[i].text != []
                  then merged[i].translationText == translation.ayahs[i].text
                  else merged[i].translationText == NoTranslation)
  {
  }

  /** The two transliterations of a merged record come from the same ayah of
      the transliteration edition: when it has a non-empty text, the simple
      one is that text with every character simplified; otherwise both are
      their placeholders. */
  lemma SimpleFollowsDetailed(editions: seq<SurahEditionData>, i: nat)
    requires MergeEditions(editions).Ok?
    requires i < |MergeEditions(editions).value|
    ensures var transliteration := FindEdition(editions, TransliterationId).value;
            var merged := MergeEditions(editions).value[i];
            if i < |transliteration.ayahs| && transliteration.ayahs[i].text != [] then
              && merged.detailedTransliterationText == transliteration.ayahs[i].text
              && |merged.simpleTransliterationText| == |merged.detailedTransliterationText|
              && forall k :: 0 <= k < |merged.simpleTransliterationText| ==>
                   merged.simpleTransliterationText[k]
                   == Transliteration.SimplifyChar(merged.detailedTransliterationText[k])
            else
              && merged.detailedTransliterationText == NoDetailedTransliteration
              && merged.simpleTransliterationText == Transliteration.Placeholder
  {
  }

  /** No merged record shows an empty translation or transliteration: every
      empty or missing text is replaced by its placeholder. */
  lemma MergedTextsNonEmpty(editions: seq<SurahEditionData>)
    requires MergeEditions(editions).Ok?
    ensures forall p :: p in MergeEditions(editions).value ==>
              && p.translationText != []
              && p.detailedTransliterationText != []
              && p.simpleTransliterationText != []
  {
    var merged := MergeEditions(editions).value;
    forall p | p in merged
      ensures p.translationText != [] && p.detailedTransliterationText != []
              && p.simpleTransliterationText != []
    {
      var i :| 0 <= i < |merged| && merged[i] == p;
      SimpleFollowsDetailed(editions, i);
    }
  }

  /** The lookup stops at the first match, so records appended after it do
      not change what it finds. */
  lemma {:induction false} FindEditionAppend(editions: seq<SurahEditionData>, more: seq<SurahEditionData>, id: string)
    requires FindEdition(editions, id).Some?
    ensures FindEdition(editions + more, id) == FindEdition(editions, id)
    decreases |editions|
  {
    assert (editions + more)[0] == editions[0];
    if editions[0].edition.identifier != id {
      assert (editions + more)[1..] == editions[1..] + more;
      FindEditionAppend(editions[1..], more, id);
    }
  }

  /** Once the response holds all three editions, whatever follows it (a
      second copy of an edition, another edition) leaves the merge unchanged. */
  lemma ExtraEditionsIgnored(editions: seq<SurahEditionData>, more: seq<SurahEditionData>)
    requires MergeEditions(editions).Ok?
    ensures MergeEditions(editions + more) == MergeEditions(editions)
  {
    FindEditionAppend(editions, more, ArabicId);
    FindEditionAppend(editions, more, TranslationId);
    FindEditionAppend(editions, more, TransliterationId);
  }
}
