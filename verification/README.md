# Quran reader core in Dafny

This project models the pure logic of a Quran reading web app, in three parts:

- **The Tajweed colouring scanner** of the verse view (`colorizeArabicText`
  with its helpers `isArabicLetter` and `isHarokatChar`). It makes one
  left-to-right pass over an Arabic verse and cuts it into plain runs and
  tagged spans:
  - ghunnah: noon or meem with shadda, one 2-character span;
  - natural madd: letter, vowel and long letter, three 1-character spans;
  - compulsory stop and forbidden stop marks;
  - any other diacritic (harokat);
  - the other Quranic annotation ("blue") marks.

  Every other character joins the pending plain run, which is flushed
  before each span and at the end of the verse.
- **The simplification of the detailed Latin transliteration**
  (`simplifyTransliteration`). It is a chain of character replacements. It
  replaces macrons, underdots and circumflexes by the plain letter, the
  several ayn/hamza apostrophes by `'`, and acute vowels by their base
  letter.
- **The merge of the three editions** that `loadSurahData` performs after
  the fetch:
  - it looks up the Uthmani Arabic text, the Indonesian translation and the
    Latin transliteration by identifier;
  - a missing edition is an error;
  - otherwise it builds one display record per Arabic ayah, with fallbacks
    for missing or empty texts.

Modules:

| module | file | contents |
|---|---|---|
| `Wrappers` | `wrappers.dfy` | `Option` and `Result` |
| `Tajweed` | `tajweed.dfy` | character classes, the rule chain `RuleAt`, the segment datatype, the recursive reference segmentation `Colorize`, the cursor form `ColorizeFrom`, the scanner as written (`ColorizeArabicText`, a loop with the pending run), reconstruction and well-formedness |
| `TajweedLemmas` | `tajweed_lemmas.dfy` | per-character labels, what each rule yields at the cursor and everywhere in the verse, when a verse stays plain |
| `TajweedExamples` | `tajweed_examples.dfy` | concrete verses, including the full colouring of the bismillah the view shows above every surah |
| `Transliteration` | `transliteration.dfy` | the replacement passes and a one-entry-per-character reference table, with length, content and idempotence properties |
| `Editions` | `editions.dfy` | the API records and the merge |
| `EditionsLemmas` | `editions_lemmas.dfy` | what the merged records contain |

The helpers `Transliteration.Replace`, `Transliteration.ReplaceApostrophes`,
`Transliteration.ReplaceAcutes`, `Editions.TextAt` and `Editions.OrElse`
model the JavaScript built-ins `replace(/x/g, y)`, `?.text` and `||`. They
are specified by their definitions. What they mean for the application is
stated by `SimplifyTransliteration`, `PassesArePerCharacter`,
`MergeRecords`, `SimpleFollowsDetailed` and `MergedTextsNonEmpty`.

The datatypes of `Editions` mirror the records of `types.ts` field for field,
for completeness, although the merge reads only some of the fields. The
field `type` of an edition is called `kind`, because `type` is a keyword in
Dafny.

Three points of the code that a reader might not expect:

- A natural madd is pushed as three separate one-character spans (letter,
  vowel, long letter), never as one span of three characters.
  `Tajweed.Spans` does the same.
- The blue-mark rule excludes U+06D8 and U+06E2. U+06E2 is not in the blue
  list at all, and the compulsory-stop rule already takes both. So the
  exclusion changes nothing, and U+06D8, although listed, is never a Stop
  (`Tajweed.RuleAtSpec`).
- The madd vowel is rendered in the harokat colour but keyed as madd. The
  model gives it its own category, `MaddVowel`.

One observation follows from the bismillah as spelled in
`components/AyahView.tsx:192` (`TajweedExamples.BismillahColouring`). In
ar-Rahman a tatweel (U+0640) stands between the fatha and the superscript
alif. So the fatha-madd rule does not fire there, and its long vowel is
coloured as ordinary harokat. The only madd in the bismillah is the kasra and
ya of ar-Rahim.

## Model

| member | source | states |
|---|---|---|
| Tajweed.RuleAt | components/AyahView.tsx:35-116 | the rule chosen at a cursor never consumes characters past the end of the verse: lookahead beyond the end reads as absent, so a rule needing it does not fire |
| Tajweed.RuleAtSpec | components/AyahView.tsx:41-111 | although the rules are tried in order, each fires exactly when its own condition holds (both directions); U+06D8 is a compulsory stop and never a blue Stop; a character that falls through to the default is not a mark any single-character rule tags |
| Tajweed.SpansSound | components/AyahView.tsx:43-108 | the spans a firing rule pushes are tagged, each has the width and characters its category allows, and together they spell exactly the characters the rule consumes |
| Tajweed.ColorizeFlatten | components/AyahView.tsx:35-121 | reconstruction: the texts of the segments, concatenated in order, give back the verse |
| Tajweed.ColorizeFromSuffix | components/AyahView.tsx:35-116 | the output from cursor position i onwards is the segmentation of the rest of the verse from i: the scan has no memory beyond the cursor and the pending run |
| Tajweed.ColorizeWellFormed | components/AyahView.tsx:42-121 | every plain run is non-empty and free of marks, no two plain runs are adjacent (the pending run is flushed only when non-empty, before each span and at the end), and every span is a ghunnah pair or a single character of its category |
| Tajweed.ScanIteration | components/AyahView.tsx:36-115 | one pass of the loop body keeps the scan invariant (the pushed elements, followed by the pending run joined to the segmentation of the rest, are the segmentation of the whole verse) and advances the cursor by at least one character without passing the end |
| Tajweed.ColorizeArabicText | components/AyahView.tsx:11-122 | the loop with cursor, pending run and pushed elements computes the reference segmentation; its output spells the verse and is well formed |
| TajweedLemmas.TextLabels | components/AyahView.tsx:35-121 | partition completeness: the segments carry exactly one label per character of the verse |
| TajweedLemmas.MarksAlwaysTagged | components/AyahView.tsx:77-111 | wherever it stands, a compulsory-stop meem is labelled WaqfLazim, the lam-alef WaqfMamnu, another blue mark Stop, and a diacritic Harokat unless a ghunnah or madd took it; a character left in a plain run is never a mark |
| TajweedLemmas.GhunnahEverywhere | components/AyahView.tsx:40-46 | every noon or meem followed by a shadda, at any position, is labelled Ghunnah together with that shadda: no earlier rule can consume the noon or meem |
| TajweedLemmas.GhunnahLabelsAtCursor | components/AyahView.tsx:41-46 | a noon or meem with shadda at the start of the verse labels both characters Ghunnah |
| TajweedLemmas.NoonStartsNoSpanInterior | components/AyahView.tsx:41-75 | a noon or meem is never the second or third character consumed by the rule at the cursor |
| TajweedLemmas.MarkFreeIsPlain | components/AyahView.tsx:113-121 | a verse without marks is returned as one plain run (nothing for the empty verse) |
| TajweedLemmas.OnePlainRunIff | components/AyahView.tsx:35-121 | the verse comes back as one plain run exactly when it is non-empty and contains no mark |
| TajweedLemmas.GhunnahAtCursor | components/AyahView.tsx:41-46 | a noon or meem with shadda at the cursor is one two-character Ghunnah span followed by the segmentation of the rest |
| TajweedLemmas.MaddFathaAtCursor | components/AyahView.tsx:50-57 | a letter, a fatha and an alif, alif maqsura or superscript alif are three spans (letter, vowel, letter) followed by the rest |
| TajweedLemmas.MaddKasraYaAtCursor | components/AyahView.tsx:59-66 | a letter, a kasra and a ya, at the end of the verse or before a non-diacritic, are the three madd spans followed by the rest |
| TajweedLemmas.MaddDammaWawAtCursor | components/AyahView.tsx:68-75 | a letter, a damma and a waw, at the end of the verse or before a non-diacritic, are the three madd spans followed by the rest |
| TajweedLemmas.NoMaddBeforeMarkedLetter | components/AyahView.tsx:59-75 | when the ya after a kasra or the waw after a damma carries a diacritic, no madd starts at the letter |
| TajweedLemmas.KasraYaWithMarkIsNotMadd | components/AyahView.tsx:59-100 | a letter, kasra and ya whose ya carries a diacritic give a one-letter plain run and a Harokat span for the kasra, then the scan resumes at the ya |
| TajweedLemmas.DammaWawWithMarkIsNotMadd | components/AyahView.tsx:68-100 | a letter, damma and waw whose waw carries a diacritic give a one-letter plain run and a Harokat span for the damma, then the scan resumes at the waw |
| TajweedLemmas.LetterThenSign | components/AyahView.tsx:95-115 | a character no rule starts at, followed by a diacritic, is a one-character plain run followed by a Harokat span |
| TajweedLemmas.HarokatRuleAt | components/AyahView.tsx:95-100 | a diacritic at the cursor is always taken by the harokat rule, whatever follows it |
| TajweedLemmas.SingleMarkAtCursor | components/AyahView.tsx:77-111 | a compulsory-stop meem, the lam-alef, a diacritic or another blue mark at the cursor is a one-character span of its category followed by the rest |
| TajweedExamples.EmptyVerse | components/AyahView.tsx:118-121 | the empty verse yields no segment |
| TajweedExamples.LatinText | components/AyahView.tsx:113-121 | "Hello" is one plain run equal to the whole string |
| TajweedExamples.NoonShadda | components/AyahView.tsx:41-46 | noon and shadda are a single Ghunnah span |
| TajweedExamples.BaFathaAlif | components/AyahView.tsx:50-57 | ba, fatha and alif are three madd spans: letter, vowel, letter |
| TajweedExamples.BaKasraYa | components/AyahView.tsx:59-66 | ba, kasra and ya at the end of the verse are three madd spans |
| TajweedExamples.BaKasraYaShadda | components/AyahView.tsx:59-100 | ba, kasra, ya and shadda are a plain ba, a Harokat kasra, a plain ya and a Harokat shadda: no madd |
| TajweedExamples.ForbiddenStop | components/AyahView.tsx:86-91 | the lam-alef alone is one WaqfMamnu span |
| TajweedExamples.BismillahColouring | components/AyahView.tsx:192 | the complete segmentation of the bismillah, word by word: every vowel sign and shadda is a Harokat span, the only madd is the kasra and ya of ar-Rahim, and the tatweel keeps ar-Rahman's long vowel from being a madd |
| Transliteration.SimplifyTransliteration | App.tsx:11-42 | a missing or empty transliteration gives the placeholder; otherwise the result has the same length and each character is the reference table applied to the character at the same position |
| Transliteration.PassesArePerCharacter | App.tsx:15-39 | the sequence of replacement passes equals the reference table applied character by character: no pass produces a character a later pass rewrites |
| Transliteration.SimplifyCharSpec | App.tsx:15-39 | a character changes exactly when it belongs to the detailed spelling; it then becomes an ASCII letter or the apostrophe, and no result belongs to the detailed spelling |
| Transliteration.SimplifyResult | App.tsx:13-41 | a non-empty transliteration keeps its length and every character outside the detailed spelling; every detailed character turns into an ASCII letter or apostrophe |
| Transliteration.SimplifyFixesPlainText | App.tsx:13-41 | text without detailed characters comes back unchanged |
| Transliteration.PlaceholderIsPlain | App.tsx:12 | the placeholder contains no detailed character |
| Transliteration.SimplifyIdempotent | App.tsx:11-42 | simplifying a simplified transliteration (the placeholder included) changes nothing |
| Editions.FindEdition | App.tsx:81-83 | the lookup finds nothing exactly when no record carries the identifier; otherwise it returns the first record that does |
| Editions.MergeEditions | App.tsx:81-87 | the merge fails, with the "Data edisi tidak lengkap." message, exactly when one of the three editions is missing |
| EditionsLemmas.MergeRecords | App.tsx:89-99 | with all three editions present, there is one record per Arabic ayah, in order, with its number and text, the surah number and name, and the translation at the same position or its fallback |
| EditionsLemmas.SimpleFollowsDetailed | App.tsx:90-96 | both transliterations of a record come from the same ayah: the simple one is the detailed text simplified character by character, or both are their placeholders |
| EditionsLemmas.MergedTextsNonEmpty | App.tsx:94-96 | no merged record shows an empty translation or transliteration |
| EditionsLemmas.FindEditionAppend | App.tsx:81-83 | records after the first match do not change what the lookup finds |
| EditionsLemmas.ExtraEditionsIgnored | App.tsx:81-100 | once the response holds all three editions, extra records after them (duplicates or other editions) leave the merge unchanged |

## Left out

- Rendering: the React elements, their `key`s and the Tailwind colour
  classes are not modelled. Each span is represented by its category
  (`Tajweed.Category`) and each pushed string by a `Plain` segment.
- Text encoding: the source indexes text by UTF-16 code unit, and the model
  indexes it by `char`. Every code point the rules name is in the Basic
  Multilingual Plane. A character outside it would be two code units, and
  both would fall through to the default run. So the segments are the same
  either way.
- `isArabicLetter` and `isHarokatChar` on `undefined`: the model uses
  total predicates on `char`. Reading past the end is the false case of
  `CharAt`, `LetterAt` and `HarokatAt`.
- Transliteration.ReplaceAcutes: `normalize("NFD")` with the removal of
  U+0300..U+036F, and the `toUpperCase` of the capital pass, are modelled as
  a fixed table over the ten acute vowels the two patterns match. Unicode
  normalisation in general is not modelled.
- The fetch (`fetchSurahDetail`), the React state setters and the loading
  flag are left out. The model starts from the list of edition records the
  fetch returns.
- The `catch` at App.tsx:113-118 only turns any thrown error into a
  displayed message. The model returns the merge's own error as `Err`
  instead.
- The surah-information fallback at App.tsx:103-111 only copies header
  fields for display.
- Editions.ProcessAyah has no contract of its own. What it builds is stated
  by `EditionsLemmas.MergeRecords` and `EditionsLemmas.SimpleFollowsDetailed`.
- Numbers in the API records are JavaScript numbers; the model uses `int`.
  The merge only copies them.
- The rest of the application is not part of this model: the surah
  selector, the navigation bar, the AI commentary service, the loading and
  error components, and `constants.ts`.
