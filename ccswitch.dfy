/** ai/ccswitch.py: point the assistant's settings file at one of two model
    providers by writing a provider's environment block into its "env"
    object, key by key, and leaving everything else in the file as it was. */
module CcSwitch {
  import opened Strings

  // ---------------------------------------------------------------------
  // JSON values and ordered dictionaries
  // ---------------------------------------------------------------------

  /** A JSON value as `json.load` returns it; arrays, booleans and floats are
      `Other`, since nothing here looks inside them. */
  datatype Json = Null | Int(i: int) | Str(s: string) | Object(fields: map<string, Json>) | Other

  /** A Python dict literal: its items in insertion order. */
  type Dict = seq<(string, Json)>

  /** Where the dict keeps `k`: the last item with that key. */
  function IndexOf(d: Dict, k: string): (r: Option<nat>)
    ensures r.None? <==> forall j :: 0 <= j < |d| ==> d[j].0 != k
    ensures r.Some? ==> r.value < |d| && d[r.value].0 == k && forall j :: r.value < j < |d| ==> d[j].0 != k
  {
    if d == [] then None
    else
      var n := |d| - 1;
      if d[n].0 == k then Some(n) else IndexOf(d[..n], k)
  }

  /** `d.get(k)`. */
  function Lookup(d: Dict, k: string): (r: Option<Json>)
    ensures r.None? <==> forall j :: 0 <= j < |d| ==> d[j].0 != k
    ensures r.Some? ==> exists j :: 0 <= j < |d| && d[j] == (k, r.value)
  {
    match IndexOf(d, k)
    case None => None
    case Some(i) => Some(d[i].1)
  }

  /** The position `IndexOf` reports is the one after which the key does
      not occur again. */
  lemma {:induction false} IndexOfIs(d: Dict, k: string, i: nat)
    requires i < |d| && d[i].0 == k && forall j :: i < j < |d| ==> d[j].0 != k
    ensures IndexOf(d, k) == Some(i)
    decreases |d|
  {
    var n := |d| - 1;
    if i < n {
      IndexOfIs(d[..n], k, i);
    }
  }

  /** Dicts with the same keys at the same places find a key at the same place. */
  lemma {:induction false} IndexOfSameKeys(d: Dict, e: Dict, k: string)
    requires |d| == |e| && forall j :: 0 <= j < |d| ==> d[j].0 == e[j].0
    ensures IndexOf(d, k) == IndexOf(e, k)
    decreases |d|
  {
    if d != [] {
      var n := |d| - 1;
      IndexOfSameKeys(d[..n], e[..n], k);
    }
  }

  /** `d[k] = v` on a dict: an existing key keeps its place, a new one goes
      at the end. */
  function Assign(d: Dict, k: string, v: Json): (r: Dict)
    ensures IndexOf(d, k).Some? ==> |r| == |d| && forall j :: 0 <= j < |d| ==> r[j].0 == d[j].0
    ensures IndexOf(d, k).None? ==> r == d + [(k, v)]
  {
    match IndexOf(d, k)
    case None => d + [(k, v)]
    case Some(i) => d[i := (k, v)]
  }

  /** After `d[k] = v`, `k` reads `v` and every other key reads as before. */
  lemma AssignLookup(d: Dict, k: string, v: Json, k': string)
    ensures Lookup(Assign(d, k, v), k') == if k' == k then Some(v) else Lookup(d, k')
  {
    var r := Assign(d, k, v);
    match IndexOf(d, k)
    case None =>
      if k' == k {
        IndexOfIs(r, k, |d|);
      } else {
        assert r[..|d|] == d;
      }
    case Some(i) =>
      if k' == k {
        IndexOfIs(r, k, i);
      } else {
        IndexOfSameKeys(d, r, k');
      }
  }

  // ---------------------------------------------------------------------
  // the provider templates
  // ---------------------------------------------------------------------

  const Token := "ANTHROPIC_AUTH_TOKEN"

  /** `GLM_ENV`: the token is left `None` to be filled in. */
  const GlmEnv: Dict := [
    (Token, Null),
    ("ANTHROPIC_BASE_URL", Str("https://open.bigmodel.cn/api/anthropic")),
    ("API_TIMEOUT_MS", Str("3000000")),
    ("CLAUDE_CODE_DISABLE_NONESSENTIAL_TRAFFIC", Int(1)),
    ("ANTHROPIC_MODEL", Str("glm-4.7")),
    ("ANTHROPIC_SMALL_FAST_MODEL", Str("glm-4.5-air")),
    ("ANTHROPIC_DEFAULT_HAIKU_MODEL", Str("glm-4.5-air")),
    ("ANTHROPIC_DEFAULT_SONNET_MODEL", Str("glm-4.7")),
    ("ANTHROPIC_DEFAULT_OPUS_MODEL", Str("glm-4.7"))
  ]

  /** `MINIMAX_ENV`. */
  const MinimaxEnv: Dict := [
    (Token, Null),
    ("ANTHROPIC_BASE_URL", Str("https://api.minimax.io/anthropic")),
    ("API_TIMEOUT_MS", Str("3000000")),
    ("CLAUDE_CODE_DISABLE_NONESSENTIAL_TRAFFIC", Int(1)),
    ("ANTHROPIC_MODEL", Str("MiniMax-M2.1")),
    ("ANTHROPIC_SMALL_FAST_MODEL", Str("MiniMax-M2.1")),
    ("ANTHROPIC_DEFAULT_HAIKU_MODEL", Str("MiniMax-M2.1")),
    ("ANTHROPIC_DEFAULT_SONNET_MODEL", Str("MiniMax-M2.1")),
    ("ANTHROPIC_DEFAULT_OPUS_MODEL", Str("MiniMax-M2.1"))
  ]

  /** `env = TEMPLATE.copy(); env["ANTHROPIC_AUTH_TOKEN"] = api_key`. The
      template itself is a constant and stays as it is. */
  function WithToken(template: Dict, apiKey: string): (env: Dict)
  {
    Assign(template, Token, Str(apiKey))
  }

  /** The copy reads the key under the token and the template everywhere else. */
  lemma WithTokenLookup(template: Dict, apiKey: string, k: string)
    ensures Lookup(WithToken(template, apiKey), k) == if k == Token then Some(Str(apiKey)) else Lookup(template, k)
  {
    AssignLookup(template, Token, Str(apiKey), k);
  }

  /** `get_api_key`: a set, non-empty environment variable wins over the
      typed answer. */
  function GetApiKey(environ: map<string, string>, name: string, typed: string): (key: string)
    ensures name in environ && environ[name] != "" ==> key == environ[name]
    ensures !(name in environ && environ[name] != "") ==> key == typed
  {
    if name in environ && environ[name] != "" then environ[name] else typed
  }

  // ---------------------------------------------------------------------
  // update_settings_env
  // ---------------------------------------------------------------------

  /** `settings["env"][k] = v` for every item, in order. */
  function Merged(env: map<string, Json>, newEnv: Dict): (r: map<string, Json>)
    ensures r.Keys == env.Keys + set i | 0 <= i < |newEnv| :: newEnv[i].0
  {
    if newEnv == [] then env
    else
      var n := |newEnv| - 1;
      var r := Merged(env, newEnv[..n])[newEnv[n].0 := newEnv[n].1];
      assert (set i | 0 <= i < |newEnv| :: newEnv[i].0) == (set i | 0 <= i < n :: newEnv[..n][i].0) + {newEnv[n].0};
      r
  }

  /** The `for k, v in new_env.items()` loop over an existing "env" object. */
  method MergeInto(env: map<string, Json>, newEnv: Dict) returns (fields: map<string, Json>)
    ensures fields == Merged(env, newEnv)
  {
    fields := env;
    for i := 0 to |newEnv|
      invariant fields == Merged(env, newEnv[..i])
    {
      assert newEnv[..i + 1][..i] == newEnv[..i];
      fields := fields[newEnv[i].0 := newEnv[i].1];
    }
    TakeAll(newEnv);
  }

  /** A key of the new block reads its (last) value there; any other key
      reads what the old "env" held. */
  lemma {:induction false} MergedLookup(env: map<string, Json>, newEnv: Dict, k: string)
    ensures Lookup(newEnv, k).Some? ==> k in Merged(env, newEnv) && Merged(env, newEnv)[k] == Lookup(newEnv, k).value
    ensures Lookup(newEnv, k).None? ==> (k in Merged(env, newEnv) <==> k in env)
    ensures Lookup(newEnv, k).None? && k in env ==> Merged(env, newEnv)[k] == env[k]
    decreases |newEnv|
  {
    if newEnv != [] {
      MergedLookup(env, newEnv[..|newEnv| - 1], k);
    }
  }

  /** `settings.setdefault("env", {})` on a file without "env": the env
      written is the new block and nothing else. */
  lemma MissingEnvIsCreated(newEnv: Dict, k: string)
    ensures k in Merged(map[], newEnv) <==> Lookup(newEnv, k).Some?
  {
    MergedLookup(map[], newEnv, k);
  }

  /** The "env" object a settings file holds, `{}` when it has none. */
  function EnvOf(settings: map<string, Json>): map<string, Json>
  {
    if "env" in settings && settings["env"].Object? then settings["env"].fields else map[]
  }

  /** Where `update_settings_env` stops: no settings file, a file whose
      content or "env" cannot take the update (an `AttributeError` or
      `TypeError` before anything is written), or a written file. */
  datatype Update = NotFound | Crashed | Written

  /** The content goes through: an object, and an "env" that is an object,
      missing, or never indexed because the block is empty. */
  predicate Mergeable(content: Json, newEnv: Dict)
  {
    content.Object? && ("env" !in content.fields || content.fields["env"].Object? || newEnv == [])
  }

  /** The content `update_settings_env` writes back. */
  function Updated(content: Json, newEnv: Dict): (r: Json)
    requires Mergeable(content, newEnv)
  {
    if "env" in content.fields && !content.fields["env"].Object? then content
    else Object(content.fields["env" := Object(Merged(EnvOf(content.fields), newEnv))])
  }

  /** "Update only the relevant env fields": every top-level key other than
      "env" keeps its value, "env" is there afterwards, and inside it the new
      block's keys read the block's values while all other keys keep theirs. */
  lemma UpdatedTouchesOnlyEnv(content: Json, newEnv: Dict, k: string)
    requires Mergeable(content, newEnv)
    ensures Updated(content, newEnv).Object?
    ensures Updated(content, newEnv).fields.Keys == content.fields.Keys + {"env"}
    ensures k != "env" && k in content.fields ==> Updated(content, newEnv).fields[k] == content.fields[k]
    ensures newEnv != [] ==> Updated(content, newEnv).fields["env"] == Object(Merged(EnvOf(content.fields), newEnv))
    ensures newEnv != [] && Lookup(newEnv, k).Some? ==>
      k in Merged(EnvOf(content.fields), newEnv) && Merged(EnvOf(content.fields), newEnv)[k] == Lookup(newEnv, k).value
    ensures newEnv != [] && Lookup(newEnv, k).None? && k in EnvOf(content.fields) ==>
      k in Merged(EnvOf(content.fields), newEnv) && Merged(EnvOf(content.fields), newEnv)[k] == EnvOf(content.fields)[k]
  {
    MergedLookup(EnvOf(content.fields), newEnv, k);
  }

  /** The settings file. */
  class SettingsFile {
    var present: bool
    var content: Json

    constructor (present: bool, content: Json)
      ensures this.present == present && this.content == content
    {
      this.present := present;
      this.content := content;
    }

    /** `update_settings_env(new_env)`. */
    method UpdateSettingsEnv(newEnv: Dict) returns (r: Update)
      modifies this
      ensures present == old(present)
      ensures !old(present) ==> r == NotFound && content == old(content)
      ensures old(present) && !Mergeable(old(content), newEnv) ==> r == Crashed && content == old(content)
      ensures old(present) && Mergeable(old(content), newEnv) ==> r == Written && content == Updated(old(content), newEnv)
    {
      if !present {
        return NotFound;
      }
      if !content.Object? {
        return Crashed;
      }
      var settings := content.fields;
      if "env" !in settings {
        settings := settings["env" := Object(map[])];
      }
      var env := settings["env"];
      if !env.Object? && newEnv != [] {
        return Crashed;
      }
      if env.Object? {
        var fields := MergeInto(env.fields, newEnv);
        settings := settings["env" := Object(fields)];
      }
      content := Object(settings);
      return Written;
    }
  }

  // ---------------------------------------------------------------------
  // main
  // ---------------------------------------------------------------------

  /** The block `main()` writes for a menu answer, `None` for an invalid one. */
  function Chosen(choice: string, environ: map<string, string>, typed: string): (env: Option<Dict>)
    ensures env.Some? <==> Strip(choice) == "1" || Strip(choice) == "2"
    ensures Strip(choice) == "1" ==> env == Some(WithToken(GlmEnv, GetApiKey(environ, "GLM_API_KEY", typed)))
    ensures Strip(choice) == "2" ==> env == Some(WithToken(MinimaxEnv, GetApiKey(environ, "MINIMAX_API_KEY", typed)))
  {
    var c := Strip(choice);
    if c == "1" then Some(WithToken(GlmEnv, GetApiKey(environ, "GLM_API_KEY", typed)))
    else if c == "2" then Some(WithToken(MinimaxEnv, GetApiKey(environ, "MINIMAX_API_KEY", typed)))
    else None
  }

  /** `main()`: `choice` is the menu answer, `typed` the key typed at the
      prompt when the environment has none. Any other answer touches nothing. */
  method RunScript(file: SettingsFile, choice: string, environ: map<string, string>, typed: string) returns (r: Option<Update>)
    modifies file
    ensures r.None? <==> Chosen(choice, environ, typed).None?
    ensures r.None? ==> file.present == old(file.present) && file.content == old(file.content)
    ensures r.Some? ==> file.present == old(file.present)
    ensures r.Some? && !old(file.present) ==> r.value == NotFound && file.content == old(file.content)
    ensures r.Some? && old(file.present) && !Mergeable(old(file.content), Chosen(choice, environ, typed).value) ==>
      r.value == Crashed && file.content == old(file.content)
    ensures r.Some? && old(file.present) && Mergeable(old(file.content), Chosen(choice, environ, typed).value) ==>
      r.value == Written && file.content == Updated(old(file.content), Chosen(choice, environ, typed).value)
  {
    var env := Chosen(choice, environ, typed);
    if env.None? {
      return None;
    }
    var u := file.UpdateSettingsEnv(env.value);
    return Some(u);
  }

  lemma ChooseGlm(environ: map<string, string>, typed: string)
    ensures Chosen("1", environ, typed) == Some(WithToken(GlmEnv, GetApiKey(environ, "GLM_API_KEY", typed)))
  {
    assert Strip("1") == "1";
  }

  /** The GLM template holds its endpoint under "ANTHROPIC_BASE_URL". */
  lemma GlmBaseUrl()
    ensures Lookup(GlmEnv, "ANTHROPIC_BASE_URL") == Some(Str("https://open.bigmodel.cn/api/anthropic"))
  {
    IndexOfIs(GlmEnv, "ANTHROPIC_BASE_URL", 1);
  }

  /** Choosing GLM writes the key under the token and the GLM endpoint, and
      leaves a key outside the template as it was. */
  lemma GlmWritesTemplate(env: map<string, Json>, environ: map<string, string>, typed: string, k: string)
    ensures var m := Merged(env, Chosen("1", environ, typed).value);
      Token in m && m[Token] == Str(GetApiKey(environ, "GLM_API_KEY", typed)) &&
      "ANTHROPIC_BASE_URL" in m && m["ANTHROPIC_BASE_URL"] == Str("https://open.bigmodel.cn/api/anthropic") &&
      (Lookup(GlmEnv, k).None? && k in env ==> k in m && m[k] == env[k])
  {
    ChooseGlm(environ, typed);
    var key := GetApiKey(environ, "GLM_API_KEY", typed);
    var block := WithToken(GlmEnv, key);
    GlmBaseUrl();
    assert GlmEnv[0].0 == Token;
    WithTokenLookup(GlmEnv, key, Token);
    WithTokenLookup(GlmEnv, key, "ANTHROPIC_BASE_URL");
    WithTokenLookup(GlmEnv, key, k);
    MergedLookup(env, block, Token);
    MergedLookup(env, block, "ANTHROPIC_BASE_URL");
    MergedLookup(env, block, k);
  }
}
