/** The registry of LLM providers (internal/ai/supported-llms.go). */
module SupportedLlms {
  import opened Text

  /** A provider's strategy: from a prompt to the model's answer. */
  type LLMStrategy = Bytes -> Bytes

  const DefaultProvider: Bytes := AsciiBytes("gemini")
  const OpenAi: Bytes := AsciiBytes("openai")
  const Anthropic: Bytes := AsciiBytes("anthropic")

  /** GetDefaultProvider: always "gemini". */
  function GetDefaultProvider(): (name: Bytes)
    ensures name == Utf8("gemini")
  {
    AsciiIsUtf8("gemini");
    DefaultProvider
  }

  /** The registry after registering `strategy` under `name`: that name now
      maps to that strategy, and every other entry is as it was. */
  function Registered(llms: map<Bytes, LLMStrategy>, name: Bytes, strategy: LLMStrategy)
    : (r: map<Bytes, LLMStrategy>)
    ensures name in r && r[name] == strategy
    ensures r.Keys == llms.Keys + {name}
    ensures forall other | other in llms && other != name :: r[other] == llms[other]
  {
    llms[name := strategy]
  }

  /** The provider map handed out: each registered name maps to itself. */
  function ProviderNames(names: set<Bytes>): (providers: map<Bytes, Bytes>)
    ensures providers.Keys == names
    ensures forall p | p in providers :: providers[p] == p
  {
    map p | p in names :: p
  }

  /** The registry as the two `init` functions leave it. Go runs the
      package's `init` functions in file order, so anthropic.go's first. */
  function Builtins(openAi: LLMStrategy, anthropic: LLMStrategy): map<Bytes, LLMStrategy> {
    Registered(Registered(map[], Anthropic, anthropic), OpenAi, openAi)
  }

  /** A second registration under the same name overwrites the first. */
  lemma LastRegistrationWins(llms: map<Bytes, LLMStrategy>, name: Bytes, first: LLMStrategy, second: LLMStrategy)
    ensures Registered(Registered(llms, name, first), name, second) == Registered(llms, name, second)
  {
  }

  /** After start-up the registry holds exactly "openai" and "anthropic"
      with their strategies; the default "gemini" is not among them. */
  lemma BuiltinsExactly(openAi: LLMStrategy, anthropic: LLMStrategy)
    ensures Builtins(openAi, anthropic).Keys == {OpenAi, Anthropic}
    ensures Builtins(openAi, anthropic)[OpenAi] == openAi
    ensures Builtins(openAi, anthropic)[Anthropic] == anthropic
    ensures DefaultProvider !in Builtins(openAi, anthropic)
    ensures ProviderNames(Builtins(openAi, anthropic).Keys) == map[OpenAi := OpenAi, Anthropic := Anthropic]
  {
    assert OpenAi[0] != Anthropic[0];
    assert DefaultProvider[0] != OpenAi[0] && DefaultProvider[0] != Anthropic[0];
    var names := ProviderNames({OpenAi, Anthropic});
    assert names.Keys == map[OpenAi := OpenAi, Anthropic := Anthropic].Keys;
  }

  /** The package-level `supportedLLMs` map. */
  class Registry {
    var llms: map<Bytes, LLMStrategy>

    /** The registry once the package is initialised: the `init` functions
        of anthropic.go and openai.go have registered their strategies. */
    constructor (openAi: LLMStrategy, anthropic: LLMStrategy)
      ensures llms == Builtins(openAi, anthropic)
    {
      llms := map[];
      new;
      RegisterLLM(Anthropic, anthropic);
      RegisterLLM(OpenAi, openAi);
    }

    /** RegisterLLM: stores the strategy under the name, replacing any
        earlier one. */
    method RegisterLLM(name: Bytes, strategy: LLMStrategy)
      modifies this
      ensures llms == Registered(old(llms), name, strategy)
    {
      llms := llms[name := strategy];
    }

    /** GetSupportedLLMs: walks the registry (in no particular order) and
        builds a fresh map from each provider name to itself. The registry
        is only read. */
    method GetSupportedLLMs() returns (providers: map<Bytes, Bytes>)
      ensures providers == ProviderNames(llms.Keys)
    {
      providers := map[];
      var remaining := llms.Keys;
      while remaining != {}
        invariant remaining <= llms.Keys
        invariant providers.Keys == llms.Keys - remaining
        invariant forall p | p in providers :: providers[p] == p
        decreases |remaining|
      {
        var provider :| provider in remaining;
        providers := providers[provider := provider];
        remaining := remaining - {provider};
      }
    }
  }
}
