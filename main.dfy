/** The command (cmd/git-ai-commit-genie/main.go): choosing the language,
    preparing the diff, asking for confirmation and committing. */
module Genie {
  import opened Text
  import opened Languages
  import opened Generator
  import opened GitCommit

  /** maxDiffLength: the most diff bytes sent to the model. */
  const MaxDiffLength: nat := 10000

  // ---------------------------------------------------------------------
  // determineLanguage.

  /** The empty string is not a language code. */
  lemma EmptyNotSupported()
    ensures [] !in GetSupportedLanguages() && EN in GetSupportedLanguages()
  {
    CodeBytes();
  }

  /** determineLanguage. `env` is the value of AI_COMMIT_LANG, empty when
      the variable is unset. Whatever the inputs, the result is a supported
      code. */
  function DetermineLanguage(langFlag: Bytes, env: Bytes): (lang: Bytes)
    ensures lang in GetSupportedLanguages()
  {
    EmptyNotSupported();
    if langFlag != [] && langFlag in GetSupportedLanguages() then langFlag
    else
      var fromEnv := if env == [] then EN else env;
      if fromEnv !in GetSupportedLanguages() then EN else fromEnv
  }

  /** A supported flag decides, whatever the environment says. */
  lemma FlagTakesPriority(langFlag: Bytes, env: Bytes)
    requires langFlag in GetSupportedLanguages()
    ensures DetermineLanguage(langFlag, env) == langFlag
  {
    EmptyNotSupported();
  }

  /** An empty or unsupported flag does not decide: the result is what the
      environment alone gives. */
  lemma UnsupportedFlagIgnored(langFlag: Bytes, env: Bytes)
    requires langFlag !in GetSupportedLanguages()
    ensures DetermineLanguage(langFlag, env) == DetermineLanguage([], env)
  {
  }

  /** Without a supported flag, a supported environment value is used. */
  lemma EnvironmentUsed(langFlag: Bytes, env: Bytes)
    requires langFlag !in GetSupportedLanguages()
    requires env in GetSupportedLanguages()
    ensures DetermineLanguage(langFlag, env) == env
  {
    EmptyNotSupported();
  }

  /** With neither a supported flag nor a supported environment value
      (an unset variable included) the result is "en". */
  lemma DefaultsToEnglish(langFlag: Bytes, env: Bytes)
    requires langFlag !in GetSupportedLanguages()
    requires env !in GetSupportedLanguages()
    ensures DetermineLanguage(langFlag, env) == EN
  {
  }

  // ---------------------------------------------------------------------
  // askForConfirmation. The reader is the whole input that will ever be
  // typed; bufio's ReadString('\n') returns the bytes up to and including
  // the next newline, or fails when the input ends before one.

  // The answers "y", "yes", "n" and "no" as bytes.
  const Y: Bytes := [0x79]
  const Yes: Bytes := [0x79, 0x65, 0x73]
  const N: Bytes := [0x6E]
  const No: Bytes := [0x6E, 0x6F]

  /** What one line of input answers: trimmed and lower-cased, "y" or "yes"
      is yes, "n" or "no" is no, and anything else is no answer. */
  function Answer(line: Bytes): Option<bool> {
    Classify(ToLower(TrimSpace(line)))
  }

  /** The answer a trimmed, lower-cased line gives. */
  function Classify(response: Bytes): Option<bool> {
    if response == Y || response == Yes then Some(true)
    else if response == N || response == No then Some(false)
    else None
  }

  /** The four answers and nothing else answer, whatever the white space
      around them and the case of their letters. */
  lemma AnswerMeaning(line: Bytes)
    ensures Answer(line) == Some(true) <==> ToLower(TrimSpace(line)) in {Y, Yes}
    ensures Answer(line) == Some(false) <==> ToLower(TrimSpace(line)) in {N, No}
    ensures Answer(line).None? <==> ToLower(TrimSpace(line)) !in {Y, Yes, N, No}
  {
  }

  /** The index of the first newline at or after `from`, if there is one. */
  function LineEnd(s: Bytes, from: nat): (k: Option<nat>)
    requires from <= |s|
    ensures k.Some? ==> from <= k.value < |s| && s[k.value] == NL
    ensures k.Some? ==> forall j | from <= j < k.value :: s[j] != NL
    ensures k.None? ==> forall j | from <= j < |s| :: s[j] != NL
    decreases |s| - from
  {
    if from == |s| then None
    else if s[from] == NL then Some(from)
    else LineEnd(s, from + 1)
  }

  // The rounds of questions are stated for any way `answer` of reading one
  // line; askForConfirmation's own is Answer.

  /** askForConfirmation on the input from `pos` on: the answer of the
      first complete line that is an answer; None, the fatal read error,
      when the input ends before such a line. */
  function ConfirmFrom(input: Bytes, pos: nat, answer: Bytes -> Option<bool>): Option<bool>
    requires pos <= |input|
    decreases |input| - pos, 1
  {
    match LineEnd(input, pos)
    case None => None
    case Some(k) => ConfirmRound(input, pos, k, answer)
  }

  /** The round whose line runs from `pos` to the newline at `end`: the
      line's answer, or the next round's. */
  function ConfirmRound(input: Bytes, pos: nat, end: nat, answer: Bytes -> Option<bool>): Option<bool>
    requires pos <= end < |input|
    decreases |input| - pos, 0
  {
    var a := answer(input[pos..end + 1]);
    if a.Some? then a else ConfirmFrom(input, end + 1, answer)
  }

  /** How many times the question is printed from `pos` on: once per line
      read, and once more before a read that fails. */
  function AttemptsFrom(input: Bytes, pos: nat, answer: Bytes -> Option<bool>): nat
    requires pos <= |input|
    decreases |input| - pos, 1
  {
    match LineEnd(input, pos)
    case None => 1
    case Some(k) => AttemptsRound(input, pos, k, answer)
  }

  /** The questions from the round whose line runs from `pos` to `end` on. */
  function AttemptsRound(input: Bytes, pos: nat, end: nat, answer: Bytes -> Option<bool>): nat
    requires pos <= end < |input|
    decreases |input| - pos, 0
  {
    var a := answer(input[pos..end + 1]);
    if a.Some? then 1 else 1 + AttemptsFrom(input, end + 1, answer)
  }

  /** What askForConfirmation returns on the whole input. */
  function Confirm(input: Bytes): Option<bool> {
    ConfirmFrom(input, 0, Answer)
  }

  /** How many times askForConfirmation prints its question. */
  function Attempts(input: Bytes): nat {
    AttemptsFrom(input, 0, Answer)
  }

  /** One round: when the next complete line runs from `pos` to the newline
      at `end`, its answer is the result, or the next round decides. */
  lemma ConfirmLine(input: Bytes, pos: nat, end: nat, answer: Bytes -> Option<bool>)
    requires pos <= end < |input| && input[end] == NL
    requires forall j | pos <= j < end :: input[j] != NL
    ensures var a := answer(input[pos..end + 1]);
      ConfirmFrom(input, pos, answer) == if a.Some? then a else ConfirmFrom(input, end + 1, answer)
  {
    assert LineEnd(input, pos) == Some(end);
  }

  /** One round asks once: it ends there if the line answers, and the
      next round's questions follow otherwise. */
  lemma AttemptsLine(input: Bytes, pos: nat, end: nat, answer: Bytes -> Option<bool>)
    requires pos <= end < |input| && input[end] == NL
    requires forall j | pos <= j < end :: input[j] != NL
    ensures var a := answer(input[pos..end + 1]);
      AttemptsFrom(input, pos, answer) == if a.Some? then 1 else 1 + AttemptsFrom(input, end + 1, answer)
  {
    assert LineEnd(input, pos) == Some(end);
  }

  /** Input that ends before a complete line never gives an answer, and
      the question is asked once more. */
  lemma NoLineNoAnswer(input: Bytes, pos: nat, answer: Bytes -> Option<bool>)
    requires pos <= |input|
    requires forall j | pos <= j < |input| :: input[j] != NL
    ensures ConfirmFrom(input, pos, answer) == None && AttemptsFrom(input, pos, answer) == 1
  {
  }

  /** reader.ReadString('\n') from `pos`: the index of the next newline,
      or the end of the input when there is none. */
  method ReadLine(input: Bytes, pos: nat) returns (end: nat)
    requires pos <= |input|
    ensures pos <= end <= |input|
    ensures end < |input| ==> input[end] == NL
    ensures forall j | pos <= j < end :: input[j] != NL
  {
    end := pos;
    while end < |input| && input[end] != NL
      invariant pos <= end <= |input|
      invariant forall j | pos <= j < end :: input[j] != NL
    {
      end := end + 1;
    }
  }

  /** One round of askForConfirmation's own: the trimmed, lower-cased line
      answers, or the next round decides. */
  lemma Round(input: Bytes, pos: nat, end: nat)
    requires pos <= end < |input| && input[end] == NL
    requires forall j | pos <= j < end :: input[j] != NL
    ensures var r := Classify(ToLower(TrimSpace(input[pos..end + 1])));
      (r.Some? ==> ConfirmFrom(input, pos, Answer) == r && AttemptsFrom(input, pos, Answer) == 1) &&
      (r.None? ==> ConfirmFrom(input, pos, Answer) == ConfirmFrom(input, end + 1, Answer) &&
                   AttemptsFrom(input, pos, Answer) == 1 + AttemptsFrom(input, end + 1, Answer))
  {
    ConfirmLine(input, pos, end, Answer);
    AttemptsLine(input, pos, end, Answer);
  }

  /** One round of askForConfirmation: read a line and classify it. At
      the end of the input (`end == |input|`) nothing more is ever
      answered; otherwise `verdict` is the line's answer, and when it is
      none the next round, from `end + 1`, decides. */
  method AskOnce(input: Bytes, pos: nat) returns (end: nat, verdict: Option<bool>)
    requires pos <= |input|
    ensures pos <= end <= |input|
    ensures end == |input| ==> ConfirmFrom(input, pos, Answer) == None && AttemptsFrom(input, pos, Answer) == 1
    ensures end < |input| && verdict.Some? ==>
      ConfirmFrom(input, pos, Answer) == verdict && AttemptsFrom(input, pos, Answer) == 1
    ensures end < |input| && verdict.None? ==>
      ConfirmFrom(input, pos, Answer) == ConfirmFrom(input, end + 1, Answer) &&
      AttemptsFrom(input, pos, Answer) == 1 + AttemptsFrom(input, end + 1, Answer)
  {
    end := ReadLine(input, pos);
    if end == |input| {
      NoLineNoAnswer(input, pos, Answer);
      return end, None;
    }
    var response := ToLower(TrimSpace(input[pos..end + 1]));
    Round(input, pos, end);
    if response == Y || response == Yes {
      verdict := Some(true);
    } else if response == N || response == No {
      verdict := Some(false);
    } else {
      verdict := None;
    }
  }

  /** askForConfirmation: ask, read a line, and either return its answer
      or ask again. `asked` counts how often the question is printed, and
      None stands for log.Fatalf on a failed read. */
  method AskForConfirmation(input: Bytes) returns (answer: Option<bool>, asked: nat)
    ensures answer == Confirm(input)
    ensures asked == Attempts(input)
  {
    var pos := 0;
    asked := 0;
    while true
      invariant pos <= |input|
      invariant ConfirmFrom(input, pos, Answer) == Confirm(input)
      invariant asked + AttemptsFrom(input, pos, Answer) == Attempts(input)
      decreases |input| - pos
    {
      asked := asked + 1;
      var end, verdict := AskOnce(input, pos);
      if end == |input| {
        return None, asked;
      }
      if verdict.Some? {
        return verdict, asked;
      }
      pos := end + 1;
    }
  }

  /** One complete line: bytes up to and including their only newline. */
  predicate IsLine(s: Bytes) {
    s != [] && s[|s| - 1] == NL && forall j | 0 <= j < |s| - 1 :: s[j] != NL
  }

  /** A single line that answers decides at once. */
  lemma OneLine(input: Bytes, answer: Bytes -> Option<bool>)
    requires IsLine(input) && answer(input).Some?
    ensures ConfirmFrom(input, 0, answer) == answer(input)
    ensures AttemptsFrom(input, 0, answer) == 1
  {
    ConfirmLine(input, 0, |input| - 1, answer);
    AttemptsLine(input, 0, |input| - 1, answer);
    assert input[0..|input|] == input;
  }

  /** The first of two lines ends where it ends on its own. */
  lemma FirstLine(first: Bytes, second: Bytes)
    requires IsLine(first)
    ensures var input := first + second;
      LineEnd(input, 0) == Some(|first| - 1) && input[0..|first|] == first
  {
    var input := first + second;
    forall j | 0 <= j < |first| ensures input[j] == first[j] {
    }
    assert input[0..|first|] == first;
  }

  /** A first line that answers decides, whatever follows it. */
  lemma FirstLineDecides(first: Bytes, rest: Bytes, answer: Bytes -> Option<bool>)
    requires IsLine(first) && answer(first).Some?
    ensures ConfirmFrom(first + rest, 0, answer) == answer(first)
    ensures AttemptsFrom(first + rest, 0, answer) == 1
  {
    FirstLine(first, rest);
    assert ConfirmFrom(first + rest, 0, answer) == ConfirmRound(first + rest, 0, |first| - 1, answer);
    assert AttemptsFrom(first + rest, 0, answer) == AttemptsRound(first + rest, 0, |first| - 1, answer);
  }

  /** A first line that is no answer is skipped: the rest of the input
      decides, after one more question. */
  lemma SkipLine(first: Bytes, rest: Bytes, answer: Bytes -> Option<bool>)
    requires IsLine(first) && answer(first).None?
    ensures ConfirmFrom(first + rest, 0, answer) == ConfirmFrom(first + rest, |first|, answer)
    ensures AttemptsFrom(first + rest, 0, answer) == 1 + AttemptsFrom(first + rest, |first|, answer)
  {
    FirstLine(first, rest);
    assert ConfirmFrom(first + rest, 0, answer) == ConfirmRound(first + rest, 0, |first| - 1, answer);
    assert AttemptsFrom(first + rest, 0, answer) == AttemptsRound(first + rest, 0, |first| - 1, answer);
  }

  /** The second of two lines ends at the end of both. */
  lemma SecondLine(first: Bytes, second: Bytes)
    requires IsLine(second)
    ensures var input := first + second;
      LineEnd(input, |first|) == Some(|input| - 1) && input[|first|..|input|] == second
  {
    var input := first + second;
    forall j | |first| <= j < |input| ensures input[j] == second[j - |first|] {
    }
    assert input[|first|..|input|] == second;
  }

  /** A line that is no answer makes the question come again, and the next
      line decides. */
  lemma TwoLines(first: Bytes, second: Bytes, answer: Bytes -> Option<bool>)
    requires IsLine(first) && IsLine(second)
    requires answer(first).None? && answer(second).Some?
    ensures ConfirmFrom(first + second, 0, answer) == answer(second)
    ensures AttemptsFrom(first + second, 0, answer) == 2
  {
    var input := first + second;
    FirstLine(first, second);
    SecondLine(first, second);
    assert ConfirmFrom(input, 0, answer) == ConfirmRound(input, 0, |first| - 1, answer);
    assert ConfirmFrom(input, |first|, answer) == ConfirmRound(input, |first|, |input| - 1, answer);
    assert AttemptsFrom(input, 0, answer) == AttemptsRound(input, 0, |first| - 1, answer);
    assert AttemptsFrom(input, |first|, answer) == AttemptsRound(input, |first|, |input| - 1, answer);
  }

  /** A word followed by its newline trims to the word. */
  lemma TrimLine(w: Bytes)
    requires w != [] && forall i | 0 <= i < |w| :: !IsSpace(w[i])
    ensures TrimSpace(w + [NL]) == w
  {
    var s := w + [NL];
    assert !IsSpace(s[0]);
    assert LeadingSpace(s) == 0;
    assert s[..|s| - 1] == w;
    assert TrailingSpace(w) == 0;
    assert TrailingSpace(s) == 1;
  }

  /** A line holding one word answers as the word in lower case. */
  lemma WordLine(line: Bytes)
    requires |line| >= 2 && line[|line| - 1] == NL
    requires forall i | 0 <= i < |line| - 1 :: !IsSpace(line[i])
    ensures Answer(line) == Classify(ToLower(line[..|line| - 1]))
  {
    var w := line[..|line| - 1];
    TrimLine(w);
    assert w + [NL] == line;
  }

  /** The inputs of main_test.go that confirm: "y\n", "yes\n" and "Y\n". */
  lemma TestInputsConfirm(input: Bytes)
    requires input == [0x79, 0x0A] || input == [0x79, 0x65, 0x73, 0x0A] || input == [0x59, 0x0A]
    ensures Confirm(input) == Some(true) && Attempts(input) == 1
  {
    assert IsLine(input);
    WordLine(input);
    var word := ToLower(input[..|input| - 1]);
    assert word == Y || word == Yes;
    OneLine(input, Answer);
  }

  /** The inputs of main_test.go that decline: "n\n", "no\n" and "N\n". */
  lemma TestInputsDecline(input: Bytes)
    requires input == [0x6E, 0x0A] || input == [0x6E, 0x6F, 0x0A] || input == [0x4E, 0x0A]
    ensures Confirm(input) == Some(false) && Attempts(input) == 1
  {
    assert IsLine(input);
    WordLine(input);
    var word := ToLower(input[..|input| - 1]);
    assert word == N || word == No;
    OneLine(input, Answer);
  }

  /** "y" without a newline is the fatal read error. */
  lemma UnfinishedLineExample(input: Bytes)
    requires input == [0x79]
    ensures Confirm(input) == None
  {
    NoLineNoAnswer(input, 0, Answer);
  }

  // ---------------------------------------------------------------------
  // The diff checks in main.

  /** The diff as sent: cut to its first maxDiffLength bytes. */
  function TruncatedDiff(diff: Bytes): (r: Bytes)
    ensures |r| <= MaxDiffLength && |r| <= |diff| && r == diff[..|r|]
    ensures |diff| <= MaxDiffLength ==> r == diff
    ensures |diff| > MaxDiffLength ==> |r| == MaxDiffLength
  {
    if |diff| > MaxDiffLength then diff[..MaxDiffLength] else diff
  }

  datatype DiffOutcome =
    | NoStagedChanges
      /** The diff to send, and whether it was cut. */
    | Proceed(diff: Bytes, truncated: bool)

  /** The empty-diff exit and the truncation, as main reassigns `diff`. */
  method PrepareDiff(staged: Bytes) returns (outcome: DiffOutcome)
    ensures staged == [] <==> outcome == NoStagedChanges
    ensures staged != [] ==>
      outcome == Proceed(TruncatedDiff(staged), |staged| > MaxDiffLength)
  {
    if staged == [] {
      return NoStagedChanges;
    }
    var diff := staged;
    var truncated := false;
    if |diff| > MaxDiffLength {
      diff := diff[..MaxDiffLength];
      truncated := true;
    }
    return Proceed(diff, truncated);
  }

  // ---------------------------------------------------------------------
  // main.

  datatype RunOutcome =
    | DiffFailed(err: Bytes)
    | NothingStaged
    | ReadFailed
    | Canceled(message: Bytes)
    | CommitRefused(output: Bytes)
    | Committed(output: Bytes)

  /** The message main shows for a staged diff. */
  function Suggestion(staged: Bytes, lang: Bytes, gemini: Bytes -> Bytes): Bytes {
    GenerateCommitMessage(TruncatedDiff(staged), lang, gemini)
  }

  /** main after flag parsing and configuration loading. The staged diff,
      the model, standard input and git are parameters; `command` is the
      argument vector git was started with, if any. */
  method Run(langFlag: Bytes, env: Bytes, staged: Bytes, stagedErr: Option<Bytes>,
             gemini: Bytes -> Bytes, stdin: Bytes, git: GitRunner)
    returns (outcome: RunOutcome, command: Option<seq<Bytes>>)
    ensures stagedErr.Some? ==> outcome == DiffFailed(stagedErr.value) && command == None
    ensures stagedErr.None? && staged == [] ==> outcome == NothingStaged && command == None
    ensures stagedErr.None? && staged != [] ==>
      var message := Suggestion(staged, DetermineLanguage(langFlag, env), gemini);
      (Confirm(stdin) == None ==> outcome == ReadFailed && command == None) &&
      (Confirm(stdin) == Some(false) ==> outcome == Canceled(message) && command == None) &&
      (Confirm(stdin) == Some(true) ==>
        var clean := Sanitized(message);
        var result := git(CommitArgs(clean));
        command == (if clean == [] then None else Some(CommitArgs(clean))) &&
        outcome == (if clean == [] then CommitRefused([])
                    else if result.failure.None? then Committed(result.output)
                    else CommitRefused(result.output)))
    ensures command.Some? ==> Confirm(stdin) == Some(true)
  {
    var lang := DetermineLanguage(langFlag, env);
    if stagedErr.Some? {
      return DiffFailed(stagedErr.value), None;
    }
    var prepared := PrepareDiff(staged);
    if prepared == NoStagedChanges {
      return NothingStaged, None;
    }
    var commitMsg := GenerateCommitMessage(prepared.diff, lang, gemini);
    assert commitMsg == Suggestion(staged, lang, gemini);
    var confirmed, _ := AskForConfirmation(stdin);
    if confirmed.None? {
      return ReadFailed, None;
    }
    if !confirmed.value {
      return Canceled(commitMsg), None;
    }
    var output, err, cmd := ExecuteCommit(commitMsg, git);
    command := cmd;
    if err.Some? {
      outcome := CommitRefused(output);
    } else {
      outcome := Committed(output);
    }
  }
}
