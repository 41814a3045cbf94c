/** The pure part of loading a surah: the API returns one record per edition
    (the Uthmani Arabic text, the Indonesian translation and the Latin
    transliteration); the three are looked up by identifier and merged,
    ayah by ayah along the Arabic edition, into the records the view shows. */
module Editions {
  import opened Wrappers
  import Transliteration

  /** The `sajda` field: either a plain flag or the details of a prostration. */
  datatype Sajda =
    | SajdaFlag(flag: bool)
    | SajdaDetail(id: int, recommended: bool, obligatory: bool)

  datatype Ayah = Ayah(
    number: int,
    numberInSurah: int,
    text: string,
    juz: int,
    manzil: int,
    page: int,
    ruku: int,
    hizbQuarter: int,
    sajda: Sajda)

  datatype Edition = Edition(
    identifier: string,
    language: string,
    name: string,
    englishName: string,
    format: string,
    kind: string,
    direction: Option<string>)

  /** One edition of one surah, as the API returns it. */
  datatype SurahEditionData = SurahEditionData(
    number: int,
    name: string,
    englishName: string,
    englishNameTranslation: string,
    revelationType: string,
    numberOfAyahs: int,
    ayahs: seq<Ayah>,
    edition: Edition)

  /** One merged ayah, ready for display. */
  datatype ProcessedAyah = ProcessedAyah(
    numberInSurah: int,
    arabicText: string,
    translationText: string,
    detailedTransliterationText: string,
    simpleTransliterationText: string,
    surahNumber: int,
    surahName: string)

  const ArabicId: string := "quran-uthmani"
  const TranslationId: string := "id.indonesian"
  const TransliterationId: string := "en.transliteration"

  const IncompleteMessage: string := "Data edisi tidak lengkap."
  const NoTranslation: string := "Terjemahan tidak tersedia"
  const NoDetailedTransliteration: string := "Transliterasi Cara Baca (Detail) tidak tersedia"

  /** Some record of the response carries the edition `id`. */
  predicate HasEdition(editions: seq<SurahEditionData>, id: string) {
    exists j :: 0 <= j < |editions| && editions[j].edition.identifier == id
  }

  /** `editions.find(ed => ed.edition.identifier === id)`: the first record
      carrying the identifier, if any. */
  function FindEdition(editions: seq<SurahEditionData>, id: string): (r: Option<SurahEditionData>)
    ensures r.None? <==> forall j :: 0 <= j < |editions| ==> editions[j].edition.identifier != id
    ensures r.Some? ==>
              exists i :: 0 <= i < |editions| && editions[i] == r.value
                && editions[i].edition.identifier == id
                && forall j :: 0 <= j < i ==> editions[j].edition.identifier != id
    decreases |editions|
  {
    if editions == [] then None
    else if editions[0].edition.identifier == id then Some(editions[0])
    else
      FindEdition(editions[1..], id)
  }

  /** `ayahs[index]?.text`: the text at a position, or nothing past the end. */
  function TextAt(ayahs: seq<Ayah>, index: nat): (r: Option<string>)
    ensures r.Some? <==> index < |ayahs|
    ensures r.Some? ==> r.value == ayahs[index].text
  {
    if index < |ayahs| then Some(ayahs[index].text) else None
  }

  /** `text || fallback`: the fallback replaces a missing or empty text. */
  function OrElse(text: Option<string>, fallback: string): (r: string)
    ensures text.Some? && text.value != [] ==> r == text.value
    ensures text.None? || text.value == [] ==> r == fallback
  {
    if text.Some? && text.value != [] then text.value else fallback
  }

  /** The merged record of the ayah at `index` of the Arabic edition. */
  function ProcessAyah(arabic: SurahEditionData, translation: SurahEditionData,
                       transliteration: SurahEditionData, index: nat): ProcessedAyah
    requires index < |arabic.ayahs|
  {
    var detailed := TextAt(transliteration.ayahs, index);
    ProcessedAyah(
      numberInSurah := arabic.ayahs[index].numberInSurah,
      arabicText := arabic.ayahs[index].text,
      translationText := OrElse(TextAt(translation.ayahs, index), NoTranslation),
      detailedTransliterationText := OrElse(detailed, NoDetailedTransliteration),
      simpleTransliterationText := Transliteration.SimplifyTransliteration(detailed),
      surahNumber := arabic.number,
      surahName := arabic.name)
  }

  /** The edition lookup and the ayah-by-ayah merge; a missing edition is the
      error the source throws. */
  function MergeEditions(editions: seq<SurahEditionData>): (r: Result<seq<ProcessedAyah>>)
    ensures r.Err? <==>
              !HasEdition(editions, ArabicId) || !HasEdition(editions, TranslationId)
              || !HasEdition(editions, TransliterationId)
    ensures r.Err? ==> r.message == IncompleteMessage
  {
    var arabic := FindEdition(editions, ArabicId);
    var translation := FindEdition(editions, TranslationId);
    var transliteration := FindEdition(editions, TransliterationId);
    if arabic.None? || translation.None? || transliteration.None? then
      Err(IncompleteMessage)
    else
      Ok(seq(|arabic.value.ayahs|, i requires 0 <= i < |arabic.value.ayahs| =>
        ProcessAyah(arabic.value, translation.value, transliteration.value, i)))
  }
}
