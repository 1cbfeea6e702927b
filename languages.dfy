/** The table of supported output languages (internal/ai/generator.go). */
module Languages {
  import opened Text

  // Go strings are byte sequences: the ASCII literals are taken byte for
  // byte, the others are given as their UTF-8 bytes and related to their
  // literals by the lemmas below.

  const EN: Bytes := AsciiBytes("en")
  const PT: Bytes := AsciiBytes("pt")
  const ES: Bytes := AsciiBytes("es")
  const FR: Bytes := AsciiBytes("fr")
  const DE: Bytes := AsciiBytes("de")
  const ZH: Bytes := AsciiBytes("zh")
  const JA: Bytes := AsciiBytes("ja")
  const RU: Bytes := AsciiBytes("ru")

  const English: Bytes := AsciiBytes("English")
  const Portuguese: Bytes := [0x50, 0x6F, 0x72, 0x74, 0x75, 0x67, 0x75, 0xC3, 0xAA, 0x73]
  const Spanish: Bytes := [0x45, 0x73, 0x70, 0x61, 0xC3, 0xB1, 0x6F, 0x6C]
  const French: Bytes := [0x46, 0x72, 0x61, 0x6E, 0xC3, 0xA7, 0x61, 0x69, 0x73]
  const German: Bytes := AsciiBytes("Deutsch")
  const Chinese: Bytes := [0xE4, 0xB8, 0xAD, 0xE6, 0x96, 0x87]
  const Japanese: Bytes := [0xE6, 0x97, 0xA5, 0xE6, 0x9C, 0xAC, 0xE8, 0xAA, 0x9E]
  const Russian: Bytes := [0xD0, 0xA0, 0xD1, 0x83, 0xD1, 0x81, 0xD1, 0x81, 0xD0, 0xBA, 0xD0, 0xB8, 0xD0, 0xB9]

  /** The names outside ASCII are the UTF-8 encodings of the source's
      literals. */
  lemma NamesAreUtf8()
    ensures Portuguese == Utf8("Português") && Spanish == Utf8("Español")
    ensures French == Utf8("Français") && Chinese == Utf8("中文")
    ensures Japanese == Utf8("日本語") && Russian == Utf8("Русский")
  {
    PortugueseIsUtf8();
    SpanishIsUtf8();
    FrenchIsUtf8();
    ChineseIsUtf8();
    JapaneseIsUtf8();
    RussianIsUtf8();
  }

  lemma PortugueseIsUtf8()
    ensures Portuguese == Utf8("Português")
  {
  }

  lemma SpanishIsUtf8()
    ensures Spanish == Utf8("Español")
  {
  }

  lemma FrenchIsUtf8()
    ensures French == Utf8("Français")
  {
  }

  lemma ChineseIsUtf8()
    ensures Chinese == Utf8("中文")
  {
  }

  lemma JapaneseIsUtf8()
    ensures Japanese == Utf8("日本語")
  {
  }

  lemma RussianIsUtf8()
    ensures Russian == Utf8("Русский")
  {
  }

  /** languageNames: code to the language's own name, UTF-8 encoded. */
  const LanguageNames: map<Bytes, Bytes> := map[
    EN := English, PT := Portuguese, ES := Spanish, FR := French,
    DE := German, ZH := Chinese, JA := Japanese, RU := Russian
  ]

  /** The codes' bytes. */
  lemma CodeBytes()
    ensures EN == [0x65, 0x6E] && PT == [0x70, 0x74] && ES == [0x65, 0x73] && FR == [0x66, 0x72]
    ensures DE == [0x64, 0x65] && ZH == [0x7A, 0x68] && JA == [0x6A, 0x61] && RU == [0x72, 0x75]
  {
  }

  /** The eight codes are distinct two-byte strings. */
  lemma CodesDistinct()
    ensures |{EN, PT, ES, FR, DE, ZH, JA, RU}| == 8
  {
    CodeBytes();
    var s: set<Bytes> := {EN};
    assert PT !in s; s := s + {PT};
    assert ES !in s; s := s + {ES};
    assert FR !in s; s := s + {FR};
    assert DE !in s; s := s + {DE};
    assert ZH !in s; s := s + {ZH};
    assert JA !in s; s := s + {JA};
    assert RU !in s; s := s + {RU};
    assert s == {EN, PT, ES, FR, DE, ZH, JA, RU};
  }

  /** GetSupportedLanguages: always the same fixed table of exactly eight
      codes, with "en" naming English. */
  function GetSupportedLanguages(): (languages: map<Bytes, Bytes>)
    ensures languages.Keys == {EN, PT, ES, FR, DE, ZH, JA, RU}
    ensures |languages| == 8
    ensures languages[EN] == English
  {
    CodesDistinct();
    LanguageNames
  }

  /** The name used in the prompt: the table's entry, English otherwise. */
  function LanguageName(code: Bytes): Bytes {
    if code in LanguageNames then LanguageNames[code] else English
  }

  /** A supported code gives its own name; any other code gives "English". */
  lemma LanguageNameLookup(code: Bytes)
    ensures code in LanguageNames ==> LanguageName(code) == LanguageNames[code]
    ensures code !in LanguageNames ==> LanguageName(code) == English
    ensures LanguageName(code) in LanguageNames.Values
  {
    CodeBytes();
    assert LanguageNames[EN] == English;
  }

  /** No language name contains a `$` or a `{` byte. */
  lemma NamesPlain(code: Bytes)
    ensures 0x24 !in LanguageName(code) && 0x7B !in LanguageName(code)
  {
    var n := LanguageName(code);
    LanguageNameLookup(code);
    assert n in [English, Portuguese, Spanish, French, German, Chinese, Japanese, Russian];
    AsciiBytesLack("English", '$'); AsciiBytesLack("English", '{');
    AsciiBytesLack("Deutsch", '$'); AsciiBytesLack("Deutsch", '{');
    OtherNamesPlain();
  }

  lemma OtherNamesPlain()
    ensures 0x24 !in Portuguese && 0x7B !in Portuguese && 0x24 !in Spanish && 0x7B !in Spanish
    ensures 0x24 !in French && 0x7B !in French && 0x24 !in Chinese && 0x7B !in Chinese
    ensures 0x24 !in Japanese && 0x7B !in Japanese && 0x24 !in Russian && 0x7B !in Russian
  {
  }
}
