# ai-commit-genie, modelled in Dafny

A Dafny model of the deterministic core of `git-ai-commit-genie`. This command-line tool reads the staged git diff. It asks a language model for a Conventional-Commits message and shows the message. It asks the user to confirm, and on "yes" runs `git commit -m` with a sanitised copy of the message.

The model covers four parts, one Dafny module each, plus a shared `Text` module:

- `GitCommit` (`git_commit.dfy`) models `sanitizeCommitMessage` and `ExecuteCommit`. In order, sanitising deletes NUL, deletes ten shell metacharacters, collapses runs of six or more newlines to two, trims white space and cuts to 2000 bytes. `ExecuteCommit` refuses a blank result before any process is started. The `git` process is a parameter: a function from argument vector to output and failure.
- `Genie` (`main.dfy`) models `determineLanguage`, the `askForConfirmation` loop, the empty-diff exit and the 10000-byte diff cut of `main`, and `main`'s control flow after flag parsing.
  - The value of `AI_COMMIT_LANG` is a parameter.
  - Standard input is the whole byte sequence the user will ever type.
  - `log.Fatalf` is an error outcome, not a process exit.
- `Generator` and `Languages` (`generator.dfy`, `languages.dfy`) model the language table, the name lookup with its English fallback, and the prompt: the literal template with two successive `strings.ReplaceAll` substitutions. The call to Gemini is an oracle parameter.
- `SupportedLlms` (`supported_llms.dfy`) models the provider registry. It is a class whose `map` field `RegisterLLM` updates in place. It also models the name-to-name projection `GetSupportedLLMs`, the constant default provider, and the two `init` registrations.
- `Text` (`text.dfy`) holds ASCII `strings.TrimSpace` and `strings.ToLower`, `strings.ReplaceAll`, and the UTF-8 encoding of Go string literals. It also defines `Count`, the number of occurrences the `ReplaceAll` scan replaces. `Count` is a specification helper for stating how many slots the template holds; the program never calls `strings.Count`.

Go strings are byte strings, so every string of the program is a `seq<byte>`. The byte cuts at 2000 and 10000 are therefore exact. They may split a multi-byte UTF-8 character, as in Go.

## Model

| member | source | states |
|---|---|---|
| Text.TrimSpace | internal/git/git-commit.go:26 | the trimmed text is empty or starts and ends with a non-space byte |
| Text.TrimSpaceSlice | internal/git/git-commit.go:26 | the result is a slice of the input; everything before and after that slice is white space |
| Text.TrimSpaceEmpty | internal/git/git-commit.go:26 | trimming gives the empty text exactly when the input is all white space |
| Text.TrimSpaceIdentity | internal/git/git-commit.go:26 | a text with no white space at either end is left unchanged |
| Text.ToLower | cmd/git-ai-commit-genie/main.go:58 | same length; no upper-case ASCII letter remains; upper-case letters become their lower-case letter; every other byte is unchanged |
| Text.ReplaceAll | internal/ai/generator.go:63-64 | left-to-right replacement of non-overlapping occurrences, resuming after each one; it has no contract of its own, and the lemmas below state its properties |
| Text.Count | internal/ai/generator.go:63-64 | the number of occurrences that the same scan replaces; it is a specification helper with no contract of its own, tied to `ReplaceAll` by `ReplaceAllLength` |
| Text.ReplaceAllLength | internal/ai/generator.go:63-64 | the result's length is the input's, changed by the length difference of replacement and pattern once per counted occurrence |
| Text.ReplaceAllAvoids | internal/ai/generator.go:63-64 | a replacement that lacks the first byte of `q` and starts with a byte that `q` holds only at its front leaves no `q`: none of the pattern itself for any text, and none of another `q` that the text lacked |
| Text.ReplaceAllIdentity | internal/ai/generator.go:63-64 | a text without the pattern is unchanged, and the pattern's count in it is zero |
| Text.ReplaceAllSplit | internal/ai/generator.go:63-64 | replacing works piece by piece when the second piece cannot end a match started in the first |
| Text.NotOccursWithoutByte | internal/ai/generator.go:63-64 | a text lacking one byte of the pattern does not contain the pattern |
| GitCommit.DangerousCharsAreListed | internal/git/git-commit.go:16 | the ten deleted metacharacters are the source's list, in its order |
| GitCommit.ReplaceAllDeletesByte | internal/git/git-commit.go:13-18 | `ReplaceAll(s, c, "")` for a single byte `c` deletes exactly the occurrences of `c` |
| GitCommit.StripBytes | internal/git/git-commit.go:13-19 | the result is no longer than the input and holds none of the deleted bytes |
| GitCommit.StripBytesKeeps | internal/git/git-commit.go:13-19 | every byte not in the list, quotes included, keeps its number of occurrences |
| GitCommit.CollapseNewlines | internal/git/git-commit.go:22-23 | the result is never longer than the input; its other properties are in the lemmas below |
| GitCommit.CollapseNoLongRun | internal/git/git-commit.go:22-23 | after collapsing, no six consecutive newline bytes remain |
| GitCommit.CollapseMaximalRun | internal/git/git-commit.go:22-23 | each maximal run of newlines becomes two newlines if it is six or longer, and stays as it is if it is one to five; the text around it is collapsed independently |
| GitCommit.CollapseIdentity | internal/git/git-commit.go:22-23 | a text without six consecutive newlines is left unchanged |
| GitCommit.CollapseIdempotent | internal/git/git-commit.go:22-23 | collapsing twice gives the same result as collapsing once |
| GitCommit.CollapseKeeps | internal/git/git-commit.go:22-23 | collapsing removes only newline bytes |
| GitCommit.Cleaned | internal/git/git-commit.go:13-26 | the text before the length cut: NUL and the ten metacharacters deleted, long newline runs collapsed, white space trimmed. It has no contract of its own; `CleanedIsSubsequence` and the `Sanitized...` lemmas state its properties |
| GitCommit.Sanitized | internal/git/git-commit.go:11-32 | `sanitizeCommitMessage` as a function; the result is at most 2000 bytes long |
| GitCommit.SanitizeCommitMessage | internal/git/git-commit.go:11-32 | the step-by-step method, including the loop over the ten metacharacters, computes `Sanitized(message)` |
| GitCommit.SanitizedHasNoHazards | internal/git/git-commit.go:13-19 | no NUL byte and none of the ten listed metacharacters survives |
| GitCommit.SanitizedLength | internal/git/git-commit.go:27-29 | the result is at most 2000 bytes; a cleaned text of at most 2000 bytes is returned whole, and a longer one is cut to its first 2000 bytes |
| GitCommit.SanitizedNoLongRun | internal/git/git-commit.go:21-29 | no run of six or more newlines survives, even where deleting metacharacters joined shorter runs |
| GitCommit.SanitizedEnds | internal/git/git-commit.go:26-29 | the result never starts with white space; without a cut it never ends with white space either |
| GitCommit.CutExposesTrailingSpace | internal/git/git-commit.go:26-29 | a concrete 2001-byte message whose 2000-byte cut ends in a space |
| GitCommit.SanitizedIsSubsequence | internal/git/git-commit.go:13-29 | the result is a subsequence of the input: bytes are only deleted, and the rest keep their order |
| GitCommit.SanitizedEmptyIff | internal/git/git-commit.go:13-26 | the result is empty exactly when every input byte is NUL, a listed metacharacter or white space |
| GitCommit.SemicolonsSanitiseToNothing | internal/git/git-commit.go:16-18 | `";;;"` sanitises to the empty message |
| GitCommit.SanitizedIdentity | internal/git/git-commit.go:11-32 | an already clean message of at most 2000 bytes passes through unchanged |
| GitCommit.CommitArgs | internal/git/git-commit.go:45 | exactly four arguments: `git`, `commit`, `-m`, then the message as an argument of its own |
| GitCommit.ExecuteCommit | internal/git/git-commit.go:36-53 | a blank sanitised message gives the empty-after-sanitization error and starts no process; this happens exactly when every input byte is deleted or white space; otherwise git gets the sanitised message as one argument, and its output and failure are passed back |
| Languages.NamesAreUtf8 | internal/ai/generator.go:8-17 | the non-ASCII names are the UTF-8 bytes of the source's literals |
| Languages.CodesDistinct | internal/ai/generator.go:9-16 | the eight codes are distinct |
| Languages.GetSupportedLanguages | internal/ai/generator.go:19-22 | always the same table; its keys are exactly en, pt, es, fr, de, zh, ja and ru; it has eight entries; "en" maps to "English" |
| Languages.LanguageName | internal/ai/generator.go:26-29 | the name lookup with its English fallback; it has no contract of its own, and `LanguageNameLookup` states it |
| Languages.LanguageNameLookup | internal/ai/generator.go:26-29 | a supported code gives its table entry, and any other code gives "English" |
| Languages.NamesPlain | internal/ai/generator.go:8-17 | no language name contains `$` or `{`, so substituting a name cannot create a slot |
| Generator.BuildPrompt | internal/ai/generator.go:26-64 | the prompt: the name looked up, then `{diff}` replaced, then `${langName}`. It has no contract of its own; `PromptShape`, `PromptNoNameSlotLeft` and `PromptNoDiffSlotLeft` state what it gives |
| Generator.FixedTextPlain | internal/ai/generator.go:32-60 | the fixed text around the slots holds no `{`, and after the first slot no `$` either |
| Generator.TemplateSlots | internal/ai/generator.go:32-60 | the template holds exactly one `{diff}` and exactly two `${langName}` |
| Generator.FirstPassOn | internal/ai/generator.go:63 | the first `ReplaceAll` replaces just the template's one `{diff}` |
| Generator.SecondPassOn | internal/ai/generator.go:64 | the second `ReplaceAll` replaces both template slots, and every `${langName}` inside the diff text |
| Generator.PromptShape | internal/ai/generator.go:63-64 | the prompt for any diff: the name in both template slots, and the diff in its slot with its own `${langName}` replaced too |
| Generator.PromptPlainDiff | internal/ai/generator.go:32-64 | for a diff without `${langName}`, the prompt is the template with the diff and the name put into their slots |
| Generator.NameSeparated | internal/ai/generator.go:8-17 | no name holds `$` or `{`, and each starts with a byte that neither slot holds after its first byte |
| Generator.PromptNoNameSlotLeft | internal/ai/generator.go:54-64 | whatever the diff, no `${langName}` is left in the prompt |
| Generator.PromptNoDiffSlotLeft | internal/ai/generator.go:54-64 | a diff without `{diff}` gives a prompt without `{diff}`; the language pass creates none |
| Generator.PlaceholdersInDiff | internal/ai/generator.go:63-64 | a literal `${langName}` as the diff comes out as the name, and a literal `{diff}` stays as it is |
| Generator.GenerateCommitMessage | internal/ai/generator.go:24-68 | Gemini is asked exactly the prompt of `PromptShape`, and its answer is returned |
| SupportedLlms.GetDefaultProvider | internal/ai/supported-llms.go:24-26 | always "gemini" |
| SupportedLlms.Registered | internal/ai/supported-llms.go:9-11 | the name maps to the new strategy, the keys gain only that name, and every other entry is unchanged |
| SupportedLlms.ProviderNames | internal/ai/supported-llms.go:14-22 | its keys are exactly the given names, and each maps to itself |
| SupportedLlms.LastRegistrationWins | internal/ai/supported-llms.go:9-11 | a second registration under the same name overwrites the first |
| SupportedLlms.BuiltinsExactly | internal/ai/supported-llms.go:3 | after the two `init` registrations the registry holds exactly "openai" and "anthropic" with their strategies; "gemini" is not registered; the projection is `{openai: openai, anthropic: anthropic}` |
| SupportedLlms.Registry.constructor | internal/ai/anthropic.go:12-14 | the package's registry once anthropic.go's and then openai.go's `init` have run |
| SupportedLlms.Registry.RegisterLLM | internal/ai/supported-llms.go:9-11 | the field becomes `Registered(old(llms), name, strategy)` |
| SupportedLlms.Registry.GetSupportedLLMs | internal/ai/supported-llms.go:14-22 | the loop builds `ProviderNames(llms.Keys)` and changes nothing |
| Genie.EmptyNotSupported | internal/ai/generator.go:8-17 | "" is not a supported code, and "en" is |
| Genie.DetermineLanguage | cmd/git-ai-commit-genie/main.go:22-45 | whatever the flag and the environment, the result is a supported code |
| Genie.FlagTakesPriority | cmd/git-ai-commit-genie/main.go:24-26 | a supported flag is the result, whatever the environment says |
| Genie.UnsupportedFlagIgnored | cmd/git-ai-commit-genie/main.go:24-33 | an empty or unsupported flag gives what the environment alone gives |
| Genie.EnvironmentUsed | cmd/git-ai-commit-genie/main.go:33-44 | without a supported flag, a supported environment value is the result |
| Genie.DefaultsToEnglish | cmd/git-ai-commit-genie/main.go:33-42 | with neither a supported flag nor a supported environment value, unset included, the result is "en" |
| Genie.Classify | cmd/git-ai-commit-genie/main.go:59-64 | the three outcomes of one trimmed, lower-cased response. It has no contract of its own; `AnswerMeaning` states them |
| Genie.Answer | cmd/git-ai-commit-genie/main.go:58-64 | what one line answers, after trimming and lower-casing. It has no contract of its own; `AnswerMeaning` states it |
| Genie.AnswerMeaning | cmd/git-ai-commit-genie/main.go:58-64 | a line means yes exactly when it trims and lower-cases to "y" or "yes"; no exactly when it gives "n" or "no"; otherwise it is no answer |
| Genie.LineEnd | cmd/git-ai-commit-genie/main.go:53 | the index found is a newline with none before it from `from`; no index means no newline from `from` on |
| Genie.ReadLine | cmd/git-ai-commit-genie/main.go:53 | the scan stops at the first newline from `pos`, or at the end of the input |
| Genie.ConfirmFrom | cmd/git-ai-commit-genie/main.go:51-66 | the loop's result from `pos` on, round by round. It has no contract of its own; `ConfirmLine`, `NoLineNoAnswer` and `AskForConfirmation` relate it to the loop |
| Genie.Confirm | cmd/git-ai-commit-genie/main.go:49-67 | what `askForConfirmation` returns on the whole input, None being the fatal read error. It has no contract of its own; `AskForConfirmation` is proved to return it |
| Genie.Attempts | cmd/git-ai-commit-genie/main.go:49-67 | how often the question is printed. It has no contract of its own; `AskForConfirmation` is proved to print it this often |
| Genie.ConfirmLine | cmd/git-ai-commit-genie/main.go:51-66 | the round for a complete line ends with that line's answer, or else the next round decides |
| Genie.AttemptsLine | cmd/git-ai-commit-genie/main.go:51-52 | each round prints the question once |
| Genie.NoLineNoAnswer | cmd/git-ai-commit-genie/main.go:53-56 | input that ends before a newline is the fatal read error, after one more question |
| Genie.Round | cmd/git-ai-commit-genie/main.go:58-65 | for askForConfirmation's own reading of a line: an answer decides the round, and anything else hands over to the next line |
| Genie.AskOnce | cmd/git-ai-commit-genie/main.go:52-65 | one pass of the loop body: a failed read, an answer (the result), or no answer (continue after the newline) |
| Genie.AskForConfirmation | cmd/git-ai-commit-genie/main.go:49-67 | the result is `Confirm(input)` and the question is printed `Attempts(input)` times |
| Genie.OneLine | cmd/git-ai-commit-genie/main.go:58-64 | a single line that answers decides at once, after one question |
| Genie.FirstLineDecides | cmd/git-ai-commit-genie/main.go:58-64 | a first line that answers decides whatever follows |
| Genie.SkipLine | cmd/git-ai-commit-genie/main.go:65 | a first line that is no answer is skipped: the rest decides, after one more question |
| Genie.FirstLine | cmd/git-ai-commit-genie/main.go:53 | the first of two lines is read as itself |
| Genie.SecondLine | cmd/git-ai-commit-genie/main.go:53 | the second of two lines is read as itself |
| Genie.TwoLines | cmd/git-ai-commit-genie/main.go:51-66 | a non-answer followed by an answer: the second line decides, after two questions |
| Genie.TrimLine | cmd/git-ai-commit-genie/main.go:58 | a word and its newline trim to the word |
| Genie.WordLine | cmd/git-ai-commit-genie/main.go:58 | a one-word line answers as its lower-cased word |
| Genie.TestInputsConfirm | cmd/git-ai-commit-genie/main_test.go:16-18 | "y\n", "yes\n" and "Y\n" confirm, after one question |
| Genie.TestInputsDecline | cmd/git-ai-commit-genie/main_test.go:19-21 | "n\n", "no\n" and "N\n" decline, after one question |
| Genie.UnfinishedLineExample | cmd/git-ai-commit-genie/main.go:53-56 | "y" without a newline is the fatal read error, not a yes |
| Genie.TruncatedDiff | cmd/git-ai-commit-genie/main.go:106-109 | the diff sent is a prefix of at most 10000 bytes; a diff of at most 10000 bytes is sent whole; a longer one becomes exactly its first 10000 bytes |
| Genie.PrepareDiff | cmd/git-ai-commit-genie/main.go:100-109 | an empty diff, and only that, ends the run; otherwise the truncated diff and whether it was cut |
| Genie.Run | cmd/git-ai-commit-genie/main.go:90-132 | see below |

For `Genie.Run`:
- a diff error is fatal;
- an empty diff ends the run without generation;
- a failed read ends the run with no commit;
- "no" cancels and shows the suggestion;
- "yes" runs git with the sanitised suggestion as its one argument, or runs nothing when the sanitised suggestion is blank;
- after "yes", the outcome is a refusal with empty output for a blank sanitised suggestion, git's output as a commit when git does not fail, and git's output as a refusal when it fails;
- git is only ever started after a "yes".

## Left out

- Printing is not modelled: the warnings, the suggested-message frame, the spinner and the success and cancel texts. The question is also not modelled, beyond counting how often it is printed.
- Flag parsing is not modelled. The `--lang` value is a parameter. The `--list-languages` listing only prints the table, in Go's random map order.
- `config.Load` is not modelled. It works on the home directory and dotenv files, outside the core, and the model starts after it.
- The `git diff` and `git commit` subprocesses become parameters: the staged diff and its error, and the `git` runner.
- The LLM adapters in gemini.go, openai.go and anthropic.go make network calls. Gemini is an oracle parameter. The registered strategies are opaque function values. Generation never consults the registry.
- `langName` in `main` is only used for the spinner text and is not modelled.
- `Text.TrimSpace` and `Text.ToLower` cover ASCII only. Among white space, Go's Unicode spaces such as U+0085 and U+00A0 are not treated. Among letters, only A to Z are lowered.
- `Text.ReplaceAll` and `Text.Count` assume a non-empty pattern. Every call in the program passes a non-empty literal. Go's behaviour for an empty pattern is not modelled.
- `Genie.AskForConfirmation` does not model reader errors other than end of input, because the input is a finite byte sequence.
- `Genie.Run` treats the Gemini call as a total oracle. The `log.Fatal` exits of `NewGemini` are not outcomes of `Run`: a missing `.env` file (internal/ai/gemini.go:15-18), a client that cannot be created, and a failed generation (internal/ai/gemini.go:27-35).
- `"` and `'` are not deleted by the sanitiser: the list at internal/git/git-commit.go:16 does not hold them, and `GitCommit.StripBytesKeeps` states that they survive.
- main.go and generator.go have no provider-selection flag or variable, no registry lookup and no credential check. Generation always calls Gemini.
- The model's answer is used as it is: there is no sanitiser for markdown or back-ticks in the response.
- The comment at internal/git/git-commit.go:12 says that NUL and control characters are removed, but line 13 removes only NUL. The model follows the code: other control bytes such as ESC or BEL pass through, apart from the white space that trimming takes off the ends.
