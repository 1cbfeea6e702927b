/** The prompt built for the model (internal/ai/generator.go). */
module Generator {
  import opened Text
  import opened Languages

  // ---------------------------------------------------------------------
  // The prompt template: the raw string literal of generator.go, cut at its
  // three slots. The text before the first slot is kept as a list of
  // paragraphs so that facts about it can be established piece by piece.
  // Each line is further written as a concatenation of short literals: the
  // verifier establishes that a character is absent from a short literal,
  // but not from one that spans a whole line of the template, so the
  // `...Plain` lemmas below depend on this splitting. The concatenations
  // are, byte for byte, the lines of the Go raw string.

  /** The concatenation of a list of strings. */
  function Join(parts: seq<string>): string {
    if parts == [] then [] else parts[0] + Join(parts[1..])
  }

  /** A character that is in none of the parts is not in their join. */
  lemma {:induction false} JoinLacks(parts: seq<string>, c: char)
    requires forall i | 0 <= i < |parts| :: c !in parts[i]
    ensures c !in Join(parts)
  {
    if parts != [] {
      JoinLacks(parts[1..], c);
    }
  }

  const Intro: string :=
    "You are an AI" + " assistant that" + " generates" + " professional" + " and concise git" + " commit messages" + " following the" + " Conventional" + " Commits" + " specification.\n"
    + "\n"

  const TypesIntro: string :=
    "\tEach commit" + " message should" + " start with one" + " of the" + " following" + " types, with" + " their" + " meanings:\n"
    + "\n"

  const TypesFeatFixDocs: string :=
    "\t- feat: A new" + " feature\n"
    + "\t- fix: A bug" + " fix\n"
    + "\t- docs:" + " Documentation" + " only changes\n"

  const TypeStyle: string :=
    "\t- style:" + " Changes that do" + " not affect the" + " meaning of the" + " code" + " (white-space," + " formatting," + " missing" + " semi-colons," + " etc)\n"

  const TypeRefactor: string :=
    "\t- refactor: A" + " code change" + " that neither" + " fixes a bug nor" + " adds a feature\n"

  const TypesPerfTest: string :=
    "\t- perf: A code" + " change that" + " improves" + " performance\n"
    + "\t- test: Adding" + " missing tests" + " or correcting" + " existing tests\n"

  const TypeChore: string :=
    "\t- chore:" + " Changes to the" + " build process" + " or auxiliary" + " tools and" + " libraries such" + " as" + " documentation" + " generation\n"
    + "\n"

  const RulesIntro: string :=
    "\tGiven the code" + " changes in the" + " diff below," + " write a commit" + " message that:\n"
    + "\n"
    + "\t- Starts with" + " the appropriate" + " type from" + " above\n"
    + "\t- Uses the" + " present tense\n"

  const RulesSubject: string :=
    "\t- Is no longer" + " than 72" + " characters in" + " the subject" + " line\n"
    + "\t- Includes a" + " short summary" + " in the first" + " line\n"

  const RulesBody: string :=
    "\t- Optionally" + " adds a more" + " detailed" + " description" + " separated by a" + " blank line\n"
    + "\t- Clearly" + " describes what" + " has been" + " changed or" + " fixed\n"
    + "\n"

  const LanguageRule: string :=
    "\tIMPORTANT: You" + " must write the" + " entire commit" + " message in "

  const HeadParts: seq<string> := [
    Intro, TypesIntro, TypesFeatFixDocs, TypeStyle, TypeRefactor, TypesPerfTest,
    TypeChore, RulesIntro, RulesSubject, RulesBody, LanguageRule
  ]

  const HeadText: string := Join(HeadParts)

  const MidText: string :=
    ". Do not use" + " English if the" + " requested" + " language is" + " different.\n"
    + "\n"
    + "\tHere is the" + " code diff:\n"
    + "\n"
    + "\t"

  const TailText: string :=
    "\n"
    + "\n"
    + "\tGenerate the" + " commit message" + " entirely in "

  const EndText: string :=
    ":"

  const LangSlot: Bytes := AsciiBytes("${langName}")
  const DiffSlot: Bytes := AsciiBytes("{diff}")

  const Head: Bytes := Utf8(HeadText)
  const Mid: Bytes := Utf8(MidText)
  const Tail: Bytes := Utf8(TailText)
  const End: Bytes := Utf8(EndText)

  /** The template: two `${langName}` slots around one `{diff}` slot. */
  const PromptTemplate: Bytes := Head + LangSlot + Mid + DiffSlot + Tail + LangSlot + End

  /** The prompt sent for a diff and a language code: the name is looked up
      with a fallback, then `{diff}` is replaced, then `${langName}`. */
  function BuildPrompt(diff: Bytes, langCode: Bytes): Bytes {
    var langName := LanguageName(langCode);
    var prompt := ReplaceAll(PromptTemplate, DiffSlot, diff);
    ReplaceAll(prompt, LangSlot, langName)
  }

  /** GenerateCommitMessage: the model (always Gemini) is an oracle from
      prompt to answer; it is asked exactly the prompt described by
      `PromptShape`. */
  function GenerateCommitMessage(diff: Bytes, langCode: Bytes, gemini: Bytes -> Bytes): (answer: Bytes)
    ensures var n := LanguageName(langCode);
      answer == gemini(Head + n + Mid + ReplaceAll(diff, LangSlot, n) + Tail + n + End)
  {
    PromptShape(diff, langCode);
    gemini(BuildPrompt(diff, langCode))
  }

  // ---------------------------------------------------------------------
  // Facts about the fixed text.

  /** No paragraph of the text before the first slot holds a `{`. */
  lemma IntroPlain() ensures '{' !in Intro {}
  lemma TypesIntroPlain() ensures '{' !in TypesIntro {}
  lemma TypesFeatFixDocsPlain() ensures '{' !in TypesFeatFixDocs {}
  lemma TypeStylePlain() ensures '{' !in TypeStyle {}
  lemma TypeRefactorPlain() ensures '{' !in TypeRefactor {}
  lemma TypesPerfTestPlain() ensures '{' !in TypesPerfTest {}
  lemma TypeChorePlain() ensures '{' !in TypeChore {}
  lemma RulesIntroPlain() ensures '{' !in RulesIntro {}
  lemma RulesSubjectPlain() ensures '{' !in RulesSubject {}
  lemma RulesBodyPlain() ensures '{' !in RulesBody {}
  lemma LanguageRulePlain() ensures '{' !in LanguageRule {}

  /** The fixed text holds no `{`, and the pieces after the first slot no
      `$` either. */
  lemma MidPlain() ensures '$' !in MidText && '{' !in MidText {
    MidLacksDollar();
    MidLacksBrace();
  }
  lemma MidLacksDollar() ensures '$' !in MidText {}
  lemma MidLacksBrace() ensures '{' !in MidText {}
  lemma TailPlain() ensures '$' !in TailText && '{' !in TailText {}

  lemma FixedTextPlain()
    ensures '{' !in HeadText
    ensures '$' !in MidText && '{' !in MidText
    ensures '$' !in TailText && '{' !in TailText
    ensures '$' !in EndText && '{' !in EndText
  {
    MidPlain();
    TailPlain();
    IntroPlain();
    TypesIntroPlain();
    TypesFeatFixDocsPlain();
    TypeStylePlain();
    TypeRefactorPlain();
    TypesPerfTestPlain();
    TypeChorePlain();
    RulesIntroPlain();
    RulesSubjectPlain();
    RulesBodyPlain();
    LanguageRulePlain();
    JoinLacks(HeadParts, '{');
  }

  /** The same facts about the encoded bytes, and the bytes the pieces after
      the first slot start with. */
  lemma FixedBytesPlain()
    ensures 0x7B !in Head
    ensures 0x24 !in Mid && 0x7B !in Mid
    ensures 0x24 !in Tail && 0x7B !in Tail
    ensures 0x24 !in End && 0x7B !in End
    ensures Mid != [] && Mid[0] == '.' as int as byte
    ensures Tail != [] && Tail[0] == NL
    ensures End == [':' as int as byte]
  {
    FixedTextPlain();
    Utf8AsciiAbsent(HeadText, '{');
    Utf8AsciiAbsent(MidText, '$'); Utf8AsciiAbsent(MidText, '{');
    Utf8AsciiAbsent(TailText, '$'); Utf8AsciiAbsent(TailText, '{');
    Utf8AsciiAbsent(EndText, '$'); Utf8AsciiAbsent(EndText, '{');
  }

  /** The bytes that can start a piece after a split point: none of them
      occurs in a slot after the slot's first byte, so no occurrence of a
      slot can straddle the split. */
  predicate StartsSeparated(piece: Bytes) {
    piece != [] && piece[0] !in DiffSlot[1..] && piece[0] !in LangSlot[1..]
  }

  lemma SlotsSeparated()
    ensures StartsSeparated(LangSlot) && DiffSlot[0] !in DiffSlot[1..]
    ensures !Occurs(LangSlot, DiffSlot) && !Occurs(DiffSlot, LangSlot)
  {
    NotOccursWithoutByte(LangSlot, DiffSlot, 1);
    NotOccursWithoutByte(DiffSlot, LangSlot, 0);
  }

  lemma PiecesSeparated()
    ensures StartsSeparated(Mid) && StartsSeparated(Tail) && StartsSeparated(End)
  {
    FixedBytesPlain();
  }

  /** What the fixed pieces around the slots must satisfy for the two
      passes to act on the slots alone: no `{` anywhere, no `$` after the
      first slot, and each piece after a slot starts with a separating
      byte. */
  predicate FixedPieces(h: Bytes, m: Bytes, t: Bytes, e: Bytes) {
    0x7B !in h && 0x7B !in m && 0x7B !in t && 0x7B !in e && 0x24 !in m
    && StartsSeparated(m) && StartsSeparated(t) && StartsSeparated(e)
  }

  lemma TemplatePieces()
    ensures FixedPieces(Head, Mid, Tail, End)
  {
    FixedBytesPlain();
    PiecesSeparated();
  }

  /** A piece of text without `{` contains no slot, so neither pass
      changes it. */
  lemma FixedPieceUnchanged(piece: Bytes, rep: Bytes)
    requires 0x7B !in piece
    ensures ReplaceAll(piece, DiffSlot, rep) == piece && Count(piece, DiffSlot) == 0
    ensures ReplaceAll(piece, LangSlot, rep) == piece && Count(piece, LangSlot) == 0
  {
    NotOccursWithoutByte(piece, DiffSlot, 0);
    NotOccursWithoutByte(piece, LangSlot, 1);
    ReplaceAllIdentity(piece, DiffSlot, rep);
    ReplaceAllIdentity(piece, LangSlot, rep);
  }

  /** A slot on its own. */
  lemma SlotAlone(slot: Bytes, rep: Bytes)
    requires |slot| > 0
    ensures ReplaceAll(slot, slot, rep) == rep && Count(slot, slot) == 1
  {
    ReplaceAllFront(slot, rep, []);
    assert slot + [] == slot;
    assert rep + [] == rep;
  }

  /** The first pass on any template of this shape: the one `{diff}` is
      replaced by the diff and the `${langName}` slots are left for the
      second pass. */
  lemma {:induction false} FirstPassOn(h: Bytes, m: Bytes, t: Bytes, e: Bytes, diff: Bytes)
    requires FixedPieces(h, m, t, e)
    ensures ReplaceAll(h + LangSlot + m + DiffSlot + t + LangSlot + e, DiffSlot, diff)
         == h + LangSlot + m + diff + t + LangSlot + e
    ensures Count(h + LangSlot + m + DiffSlot + t + LangSlot + e, DiffSlot) == 1
  {
    SlotsSeparated();
    var d := DiffSlot;
    var x1 := h + LangSlot;
    var x2 := x1 + m;
    var x3 := x2 + DiffSlot;
    var x4 := x3 + t;
    var x5 := x4 + LangSlot;
    ReplaceAllSplit(x5, e, d, diff);   CountSplit(x5, e, d);
    ReplaceAllSplit(x4, LangSlot, d, diff); CountSplit(x4, LangSlot, d);
    ReplaceAllSplit(x3, t, d, diff);  CountSplit(x3, t, d);
    ReplaceAllSplit(x2, DiffSlot, d, diff); CountSplit(x2, DiffSlot, d);
    ReplaceAllSplit(x1, m, d, diff);   CountSplit(x1, m, d);
    ReplaceAllSplit(h, LangSlot, d, diff); CountSplit(h, LangSlot, d);
    FixedPieceUnchanged(h, diff);
    FixedPieceUnchanged(m, diff);
    FixedPieceUnchanged(t, diff);
    FixedPieceUnchanged(e, diff);
    ReplaceAllIdentity(LangSlot, d, diff);
    SlotAlone(d, diff);
  }

  /** Any template of this shape holds two `${langName}` slots. */
  lemma {:induction false} LangSlotsOn(h: Bytes, m: Bytes, t: Bytes, e: Bytes)
    requires FixedPieces(h, m, t, e)
    ensures Count(h + LangSlot + m + DiffSlot + t + LangSlot + e, LangSlot) == 2
  {
    SlotsSeparated();
    var l := LangSlot;
    var x1 := h + LangSlot;
    var x2 := x1 + (m + DiffSlot);
    var x3 := x2 + t;
    var x4 := x3 + LangSlot;
    assert h + LangSlot + m + DiffSlot + t + LangSlot + e == x4 + e;
    CountSplit(x4, e, l);
    CountSplit(x3, LangSlot, l);
    CountSplit(x2, t, l);
    assert (m + DiffSlot)[0] == m[0];
    CountSplit(x1, m + DiffSlot, l);
    CountSplit(h, LangSlot, l);
    FixedPieceUnchanged(h, []);
    FixedPieceUnchanged(t, []);
    FixedPieceUnchanged(e, []);
    assert 0x24 !in m + DiffSlot;
    NotOccursWithoutByte(m + DiffSlot, l, 0);
    ReplaceAllIdentity(m + DiffSlot, l, []);
    SlotAlone(l, []);
  }

  /** The second pass after the first: both `${langName}` slots receive the
      name, and so does every `${langName}` inside the diff. */
  lemma SecondPassOn(h: Bytes, m: Bytes, t: Bytes, e: Bytes, diff: Bytes, n: Bytes)
    requires FixedPieces(h, m, t, e)
    ensures ReplaceAll(h + LangSlot + m + diff + t + LangSlot + e, LangSlot, n)
         == h + n + m + ReplaceAll(diff, LangSlot, n) + t + n + e
  {
    var left := h + LangSlot + (m + diff);
    var right := t + LangSlot + e;
    Regroup(h, LangSlot, m, diff, t, LangSlot, e);
    ReplaceAllSplit(left, right, LangSlot, n);
    SecondPassLeft(h, m, diff, n);
    SecondPassRight(t, e, n);
    Regroup(h, n, m, ReplaceAll(diff, LangSlot, n), t, n, e);
  }

  lemma SecondPassLeft(h: Bytes, m: Bytes, diff: Bytes, n: Bytes)
    requires 0x7B !in h && 0x24 !in m && StartsSeparated(m)
    ensures ReplaceAll(h + LangSlot + (m + diff), LangSlot, n)
         == h + n + (m + ReplaceAll(diff, LangSlot, n))
  {
    SlotsSeparated();
    var x1 := h + LangSlot;
    assert (m + diff)[0] == m[0];
    ReplaceAllSplit(x1, m + diff, LangSlot, n);
    ReplaceAllSplit(h, LangSlot, LangSlot, n);
    ReplaceAllSkip(m, diff, LangSlot, n);
    FixedPieceUnchanged(h, n);
    SlotAlone(LangSlot, n);
  }

  lemma SecondPassRight(t: Bytes, e: Bytes, n: Bytes)
    requires 0x7B !in t && 0x7B !in e && StartsSeparated(e)
    ensures ReplaceAll(t + LangSlot + e, LangSlot, n) == t + n + e
  {
    SlotsSeparated();
    ReplaceAllSplit(t + LangSlot, e, LangSlot, n);
    ReplaceAllSplit(t, LangSlot, LangSlot, n);
    FixedPieceUnchanged(t, n);
    FixedPieceUnchanged(e, n);
    SlotAlone(LangSlot, n);
  }

  /** The template holds exactly one `{diff}` slot and two `${langName}`
      slots, counted as the scan of `ReplaceAll` finds them. */
  lemma TemplateSlots()
    ensures Count(PromptTemplate, DiffSlot) == 1
    ensures Count(PromptTemplate, LangSlot) == 2
  {
    TemplatePieces();
    FirstPassOn(Head, Mid, Tail, End, []);
    LangSlotsOn(Head, Mid, Tail, End);
  }

  /** The prompt for any diff: both template slots hold the language name,
      the diff sits where `{diff}` was, and inside the diff every literal
      `${langName}` has been replaced too (a `{diff}` in it is left alone,
      since that pass has already run). */
  lemma PromptShape(diff: Bytes, langCode: Bytes)
    ensures var n := LanguageName(langCode);
      BuildPrompt(diff, langCode) == Head + n + Mid + ReplaceAll(diff, LangSlot, n) + Tail + n + End
  {
    TemplatePieces();
    FirstPassOn(Head, Mid, Tail, End, diff);
    SecondPassOn(Head, Mid, Tail, End, diff, LanguageName(langCode));
  }

  /** With a diff that holds no `${langName}`, the prompt is the template
      with the diff and the name put into their slots, nothing else. */
  lemma PromptPlainDiff(diff: Bytes, langCode: Bytes)
    requires !Occurs(diff, LangSlot)
    ensures var n := LanguageName(langCode);
      BuildPrompt(diff, langCode) == Head + n + Mid + diff + Tail + n + End
  {
    PromptShape(diff, langCode);
    ReplaceAllIdentity(diff, LangSlot, LanguageName(langCode));
  }

  /** Every language name starts with a byte that no slot holds after its
      first byte, and holds neither `$` nor `{`. */
  lemma NameSeparated(code: Bytes)
    ensures var n := LanguageName(code); StartsSeparated(n) && 0x24 !in n && 0x7B !in n
  {
    NamesPlain(code);
    LanguageNameLookup(code);
    var n := LanguageName(code);
    assert n in [English, Portuguese, Spanish, French, German, Chinese, Japanese, Russian];
    assert English[0] == 0x45 && German[0] == 0x44;
    assert n[0] in {0x44, 0x45, 0x46, 0x50, 0xD0, 0xE4, 0xE6};
  }

  /** Whatever the diff, no `${langName}` is left in the prompt: the
      second pass leaves none of its own pattern behind, since no name
      holds a `$` and none starts with a byte of the slot after its `$`. */
  lemma PromptNoNameSlotLeft(diff: Bytes, langCode: Bytes)
    ensures !Occurs(BuildPrompt(diff, langCode), LangSlot)
  {
    NameSeparated(langCode);
    assert LangSlot[0] == 0x24;
    ReplaceAllAvoids(ReplaceAll(PromptTemplate, DiffSlot, diff), LangSlot, LanguageName(langCode), LangSlot);
  }

  /** No `{diff}` in text of the prompt's shape whose pieces lack `{`,
      other than the middle one, when the middle one has none and the piece
      after it starts with a separating byte. */
  lemma NoDiffSlotAround(h: Bytes, n: Bytes, m: Bytes, x: Bytes, t: Bytes, e: Bytes)
    requires 0x7B !in h && 0x7B !in n && 0x7B !in m && 0x7B !in t && 0x7B !in e
    requires StartsSeparated(t) && !Occurs(x, DiffSlot)
    ensures !Occurs(h + n + m + x + t + n + e, DiffSlot)
  {
    assert DiffSlot[0] == 0x7B;
    var front := h + n + m;
    var back := t + n + e;
    assert h + n + m + x + t + n + e == front + (x + back);
    OccursPastFront(front, x + back, DiffSlot);
    OccursNotAcross(x, back, DiffSlot);
    NotOccursWithoutByte(back, DiffSlot, 0);
  }

  /** A diff without `{diff}` gives a prompt without `{diff}`: the fixed
      text and the names lack `{`, and no `{diff}` can be made by the
      second pass or straddle the end of the diff. */
  lemma PromptNoDiffSlotLeft(diff: Bytes, langCode: Bytes)
    requires !Occurs(diff, DiffSlot)
    ensures !Occurs(BuildPrompt(diff, langCode), DiffSlot)
  {
    var n := LanguageName(langCode);
    PromptShape(diff, langCode);
    NameSeparated(langCode);
    TemplatePieces();
    assert DiffSlot[0] == 0x7B;
    ReplaceAllAvoids(diff, LangSlot, n, DiffSlot);
    NoDiffSlotAround(Head, n, Mid, ReplaceAll(diff, LangSlot, n), Tail, End);
  }

  /** A diff consisting of a literal `${langName}` comes out as the name; a
      literal `{diff}` stays as it is. */
  lemma PlaceholdersInDiff(langCode: Bytes)
    ensures var n := LanguageName(langCode);
      BuildPrompt(LangSlot, langCode) == Head + n + Mid + n + Tail + n + End
    ensures var n := LanguageName(langCode);
      BuildPrompt(DiffSlot, langCode) == Head + n + Mid + DiffSlot + Tail + n + End
  {
    PromptShape(LangSlot, langCode);
    SlotAlone(LangSlot, LanguageName(langCode));
    SlotsSeparated();
    PromptPlainDiff(DiffSlot, langCode);
  }
}
