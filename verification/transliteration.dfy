/** Simplification of the detailed Latin transliteration into a plainer
    spelling: the macrons, underdots and circumflexes of the detailed edition,
    the several ayn/hamza apostrophes and acute vowels are replaced one
    character at a time. */
module Transliteration {
  import opened Wrappers

  /** What the simplification returns for a missing or empty transliteration. */
  const Placeholder: string := "Transliterasi Latin Umum tidak tersedia"

  /** `s.replace(/x/g, y)` for a one-character pattern `x`. */
  function Replace(s: string, x: char, y: char): (r: string)
    ensures |r| == |s|
    ensures forall k :: 0 <= k < |s| ==> r[k] == (if s[k] == x then y else s[k])
  {
    seq(|s|, k requires 0 <= k < |s| => if s[k] == x then y else s[k])
  }

  /** The five characters of the class `[ʿʻʽ`']`. */
  predicate IsApostropheLike(c: char) {
    c == '\U{02BF}' || c == '\U{02BB}' || c == '\U{02BD}' || c == '`' || c == '\''
  }

  /** The acute vowels of the classes `[áéíóú]` and `[ÁÉÍÓÚ]`. */
  predicate IsAcuteVowel(c: char) {
    || c == '\U{00E1}' || c == '\U{00E9}' || c == '\U{00ED}' || c == '\U{00F3}' || c == '\U{00FA}'
    || c == '\U{00C1}' || c == '\U{00C9}' || c == '\U{00CD}' || c == '\U{00D3}' || c == '\U{00DA}'
  }

  /** The effect, on an acute vowel, of decomposing it (NFD) and dropping the
      combining marks U+0300..U+036F: its base letter, case kept. Upper-casing
      the result of a capital, as the second acute pass does, changes nothing. */
  function AcuteBase(c: char): char
    requires IsAcuteVowel(c)
  {
    match c
    case '\U{00E1}' => 'a'
    case '\U{00E9}' => 'e'
    case '\U{00ED}' => 'i'
    case '\U{00F3}' => 'o'
    case '\U{00FA}' => 'u'
    case '\U{00C1}' => 'A'
    case '\U{00C9}' => 'E'
    case '\U{00CD}' => 'I'
    case '\U{00D3}' => 'O'
    case '\U{00DA}' => 'U'
  }

  /** `s.replace(/[ʿʻʽ`']/g, "'")`. */
  function ReplaceApostrophes(s: string): (r: string)
    ensures |r| == |s|
    ensures forall k :: 0 <= k < |s| ==> r[k] == (if IsApostropheLike(s[k]) then '\'' else s[k])
  {
    seq(|s|, k requires 0 <= k < |s| => if IsApostropheLike(s[k]) then '\'' else s[k])
  }

  /** The two acute-vowel passes, `replace(/[áéíóú]/g, …)` then
      `replace(/[ÁÉÍÓÚ]/g, …)`; they touch disjoint characters. */
  function ReplaceAcutes(s: string): (r: string)
    ensures |r| == |s|
    ensures forall k :: 0 <= k < |s| ==> r[k] == (if IsAcuteVowel(s[k]) then AcuteBase(s[k]) else s[k])
  {
    seq(|s|, k requires 0 <= k < |s| => if IsAcuteVowel(s[k]) then AcuteBase(s[k]) else s[k])
  }

  /** The substitution passes, in the order the source applies them. */
  function SimplifyPasses(s: string): string {
    var s1 := Replace(Replace(Replace(s, '\U{0101}', 'a'), '\U{012B}', 'i'), '\U{016B}', 'u');
    var s2 := Replace(Replace(Replace(s1, '\U{0100}', 'A'), '\U{012A}', 'I'), '\U{016A}', 'U');
    var s3 := Replace(Replace(s2, '\U{1E25}', 'h'), '\U{1E24}', 'H');
    var s4 := Replace(Replace(s3, '\U{0125}', 'h'), '\U{0124}', 'H');
    var s5 := Replace(Replace(s4, '\U{1E63}', 's'), '\U{1E62}', 'S');
    var s6 := Replace(Replace(s5, '\U{1E0D}', 'd'), '\U{1E0C}', 'D');
    var s7 := Replace(Replace(s6, '\U{1E6D}', 't'), '\U{1E6C}', 'T');
    var s8 := Replace(Replace(s7, '\U{1E93}', 'z'), '\U{1E92}', 'Z');
    var s9 := ReplaceApostrophes(s8);
    ReplaceAcutes(s9)
  }

  /** The simplification of a transliteration that may be `undefined`. */
  function SimplifyTransliteration(detailed: Option<string>): (r: string)
    ensures detailed == None || detailed == Some([]) ==> r == Placeholder
    ensures detailed.Some? && detailed.value != [] ==>
              |r| == |detailed.value|
              && forall k :: 0 <= k < |r| ==> r[k] == SimplifyChar(detailed.value[k])
  {
    if detailed.None? || detailed.value == [] then Placeholder
    else
      PassesArePerCharacter(detailed.value);
      SimplifyPasses(detailed.value)
  }

  // ---------------------------------------------------------------------
  // The per-character table
  // ---------------------------------------------------------------------

  /** One character as the simplification leaves it: the reference table,
      written as one entry per replaced character. */
  function SimplifyChar(c: char): char {
    match c
    case '\U{0101}' => 'a'  case '\U{012B}' => 'i'  case '\U{016B}' => 'u'
    case '\U{0100}' => 'A'  case '\U{012A}' => 'I'  case '\U{016A}' => 'U'
    case '\U{1E25}' => 'h'  case '\U{1E24}' => 'H'
    case '\U{0125}' => 'h'  case '\U{0124}' => 'H'
    case '\U{1E63}' => 's'  case '\U{1E62}' => 'S'
    case '\U{1E0D}' => 'd'  case '\U{1E0C}' => 'D'
    case '\U{1E6D}' => 't'  case '\U{1E6C}' => 'T'
    case '\U{1E93}' => 'z'  case '\U{1E92}' => 'Z'
    case '\U{02BF}' => '\''  case '\U{02BB}' => '\''  case '\U{02BD}' => '\''
    case '`' => '\''
    case '\U{00E1}' => 'a'  case '\U{00E9}' => 'e'  case '\U{00ED}' => 'i'
    case '\U{00F3}' => 'o'  case '\U{00FA}' => 'u'
    case '\U{00C1}' => 'A'  case '\U{00C9}' => 'E'  case '\U{00CD}' => 'I'
    case '\U{00D3}' => 'O'  case '\U{00DA}' => 'U'
    case _ => c
  }

  /** The passes of `SimplifyPasses` applied to a single character. */
  function PassesOnChar(c: char): char {
    var c1 := if c == '\U{0101}' then 'a' else if c == '\U{012B}' then 'i' else if c == '\U{016B}' then 'u' else c;
    var c2 := if c1 == '\U{0100}' then 'A' else if c1 == '\U{012A}' then 'I' else if c1 == '\U{016A}' then 'U' else c1;
    var c3 := if c2 == '\U{1E25}' then 'h' else if c2 == '\U{1E24}' then 'H' else c2;
    var c4 := if c3 == '\U{0125}' then 'h' else if c3 == '\U{0124}' then 'H' else c3;
    var c5 := if c4 == '\U{1E63}' then 's' else if c4 == '\U{1E62}' then 'S' else c4;
    var c6 := if c5 == '\U{1E0D}' then 'd' else if c5 == '\U{1E0C}' then 'D' else c5;
    var c7 := if c6 == '\U{1E6D}' then 't' else if c6 == '\U{1E6C}' then 'T' else c6;
    var c8 := if c7 == '\U{1E93}' then 'z' else if c7 == '\U{1E92}' then 'Z' else c7;
    var c9 := if IsApostropheLike(c8) then '\'' else c8;
    if IsAcuteVowel(c9) then AcuteBase(c9) else c9
  }

  /** Each replacement is an ASCII letter or the apostrophe. */
  predicate IsPlainTarget(c: char) {
    ('a' <= c <= 'z') || ('A' <= c <= 'Z') || c == '\''
  }

  /** The passes act on each character independently. */
  lemma PassesPointwise(s: string)
    ensures |SimplifyPasses(s)| == |s|
    ensures forall k :: 0 <= k < |s| ==> SimplifyPasses(s)[k] == PassesOnChar(s[k])
  {
  }

  /** No pass produces a character a later pass rewrites (the apostrophe
      rewrites to itself), so the passes in sequence amount to the table. */
  lemma PassesOnCharIsTable(c: char)
    ensures PassesOnChar(c) == SimplifyChar(c)
  {
  }

  /** The chain of passes is the table applied to every character. */
  lemma PassesArePerCharacter(s: string)
    ensures |SimplifyPasses(s)| == |s|
    ensures forall k :: 0 <= k < |s| ==> SimplifyPasses(s)[k] == SimplifyChar(s[k])
  {
    PassesPointwise(s);
    forall k | 0 <= k < |s| ensures SimplifyPasses(s)[k] == SimplifyChar(s[k]) {
      PassesOnCharIsTable(s[k]);
    }
  }

  // ---------------------------------------------------------------------
  // Properties of the simplification
  // ---------------------------------------------------------------------

  /** The characters of the detailed spelling that the simplification
      rewrites to a different character. */
  predicate IsDetailedChar(c: char) {
    || c == '\U{0101}' || c == '\U{012B}' || c == '\U{016B}'
    || c == '\U{0100}' || c == '\U{012A}' || c == '\U{016A}'
    || c == '\U{1E25}' || c == '\U{1E24}' || c == '\U{0125}' || c == '\U{0124}'
    || c == '\U{1E63}' || c == '\U{1E62}' || c == '\U{1E0D}' || c == '\U{1E0C}'
    || c == '\U{1E6D}' || c == '\U{1E6C}' || c == '\U{1E93}' || c == '\U{1E92}'
    || c == '\U{02BF}' || c == '\U{02BB}' || c == '\U{02BD}' || c == '`'
    || IsAcuteVowel(c)
  }

  /** A character changes exactly when it belongs to the detailed spelling;
      it then becomes an ASCII letter or the apostrophe, which the
      simplification leaves alone. */
  lemma SimplifyCharSpec(c: char)
    ensures SimplifyChar(c) != c <==> IsDetailedChar(c)
    ensures IsDetailedChar(c) ==> IsPlainTarget(SimplifyChar(c))
    ensures !IsDetailedChar(SimplifyChar(c))
  {
  }

  /** A present, non-empty transliteration keeps its length, keeps every
      character outside the detailed spelling, and loses every character of
      it. */
  lemma SimplifyResult(detailed: string)
    requires detailed != []
    ensures |SimplifyTransliteration(Some(detailed))| == |detailed|
    ensures forall k :: 0 <= k < |detailed| && !IsDetailedChar(detailed[k]) ==>
              SimplifyTransliteration(Some(detailed))[k] == detailed[k]
    ensures forall k :: 0 <= k < |detailed| && IsDetailedChar(detailed[k]) ==>
              IsPlainTarget(SimplifyTransliteration(Some(detailed))[k])
    ensures forall k :: 0 <= k < |detailed| ==>
              !IsDetailedChar(SimplifyTransliteration(Some(detailed))[k])
  {
    var r := SimplifyTransliteration(Some(detailed));
    forall k | 0 <= k < |detailed|
      ensures !IsDetailedChar(detailed[k]) ==> r[k] == detailed[k]
      ensures IsDetailedChar(detailed[k]) ==> IsPlainTarget(r[k])
      ensures !IsDetailedChar(r[k])
    {
      SimplifyCharSpec(detailed[k]);
    }
  }

  /** Text already free of the detailed spelling comes back unchanged. */
  lemma SimplifyFixesPlainText(detailed: string)
    requires detailed != []
    requires forall k :: 0 <= k < |detailed| ==> !IsDetailedChar(detailed[k])
    ensures SimplifyTransliteration(Some(detailed)) == detailed
  {
    SimplifyResult(detailed);
  }

  /** The placeholder is plain ASCII without a backtick. */
  lemma PlaceholderIsPlain()
    ensures forall k :: 0 <= k < |Placeholder| ==> !IsDetailedChar(Placeholder[k])
  {
    forall k | 0 <= k < |Placeholder| ensures !IsDetailedChar(Placeholder[k]) {
      AsciiIsNotDetailed(Placeholder[k]);
    }
  }

  lemma AsciiIsNotDetailed(c: char)
    requires ('a' <= c <= 'z') || ('A' <= c <= 'Z') || c == ' '
    ensures !IsDetailedChar(c)
  {
  }

  /** Simplifying an already simplified transliteration changes nothing,
      including when the first call produced the placeholder. */
  lemma SimplifyIdempotent(detailed: Option<string>)
    ensures SimplifyTransliteration(Some(SimplifyTransliteration(detailed)))
         == SimplifyTransliteration(detailed)
  {
    var r := SimplifyTransliteration(detailed);
    if detailed.None? || detailed.value == [] {
      PlaceholderIsPlain();
      SimplifyFixesPlainText(Placeholder);
    } else {
      SimplifyResult(detailed.value);
      SimplifyFixesPlainText(r);
    }
  }
}
