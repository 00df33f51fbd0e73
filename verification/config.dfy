/** The configuration services of code/config.py: how a configured value
    is resolved (literally or from the environment), which embedding
    provider is chosen, where a relative path is resolved, and the mode
    predicates. The environment, the working directory and the loaded
    provider table are parameters; reading YAML and `.env` files is not
    modelled. */
module Config {
  import opened Wrappers
  import opened JsonValue
  import Text
  import PosixPath

  // ---------------------------------------------------------------- values

  predicate IsLowerChar(c: char) { 'a' <= c <= 'z' }
  predicate IsUpperChar(c: char) { 'A' <= c <= 'Z' }

  /** CPython's `str.isupper` loop: a lower-case character answers false
      at once; otherwise the answer is whether an upper-case one was seen. */
  function UpperScan(s: string, cased: bool): bool
    decreases |s|
  {
    if |s| == 0 then cased
    else if IsLowerChar(s[0]) then false
    else UpperScan(s[1..], cased || IsUpperChar(s[0]))
  }

  predicate IsUpper(s: string) {
    UpperScan(s, false)
  }

  /** `isupper` holds exactly when some character is upper case and none is
      lower case. */
  lemma IsUpperMeaning(s: string)
    ensures IsUpper(s) <==>
      (exists k :: 0 <= k < |s| && IsUpperChar(s[k])) && forall k :: 0 <= k < |s| ==> !IsLowerChar(s[k])
  {
    UpperScanMeaning(s, false);
  }

  lemma {:induction false} UpperScanMeaning(s: string, cased: bool)
    ensures UpperScan(s, cased) <==>
      (cased || exists k :: 0 <= k < |s| && IsUpperChar(s[k])) && forall k :: 0 <= k < |s| ==> !IsLowerChar(s[k])
    decreases |s|
  {
    if |s| > 0 {
      var rest := s[1..];
      UpperScanMeaning(rest, cased || IsUpperChar(s[0]));
      assert forall k :: 0 <= k < |rest| ==> rest[k] == s[k + 1];
      if exists k :: 0 <= k < |s| && IsUpperChar(s[k]) {
        var k :| 0 <= k < |s| && IsUpperChar(s[k]);
        if k > 0 {
          assert IsUpperChar(rest[k - 1]);
        }
      }
      if !IsLowerChar(s[0]) && forall k :: 0 <= k < |rest| ==> !IsLowerChar(rest[k]) {
        forall k | 0 <= k < |s| ensures !IsLowerChar(s[k]) {
          if k > 0 {
            assert s[k] == rest[k - 1];
          }
        }
      }
    }
  }

  /** A string `_get_config_value` reads as the name of an environment variable. */
  predicate NamesVariable(s: string) {
    Text.EndsWith(s, "_ENV") || IsUpper(s)
  }

  /** `_get_config_value(value, default)`: `None` gives the default; a
      string naming a variable is looked up in `env` with the default; any
      other value is used as it is. */
  function GetConfigValue(value: Json, default: Json, env: map<string, string>): (r: Json)
    ensures value.JNull? ==> r == default
    ensures value.JStr? && NamesVariable(value.s) ==>
      r == (if value.s in env then JStr(env[value.s]) else default)
    ensures !value.JNull? && !(value.JStr? && NamesVariable(value.s)) ==> r == value
  {
    match value
    case JNull => default
    case JStr(s) =>
      if NamesVariable(s) then (if s in env then JStr(env[s]) else default) else value
    case _ => value
  }

  /** A string with a lower-case letter that does not end in `_ENV` (a
      model name, say) is taken literally, whatever the environment holds. */
  lemma LowerCaseIsLiteral(s: string, default: Json, env: map<string, string>)
    requires exists k :: 0 <= k < |s| && IsLowerChar(s[k])
    requires !Text.EndsWith(s, "_ENV")
    ensures GetConfigValue(JStr(s), default, env) == JStr(s)
  {
    IsUpperMeaning(s);
  }

  /** An all-capitals name is read from the environment, falling back to
      the default when the variable is unset. */
  lemma CapitalsAreLookedUp(s: string, default: Json, env: map<string, string>)
    requires exists k :: 0 <= k < |s| && IsUpperChar(s[k])
    requires forall k :: 0 <= k < |s| ==> !IsLowerChar(s[k])
    ensures s in env ==> GetConfigValue(JStr(s), default, env) == JStr(env[s])
    ensures s !in env ==> GetConfigValue(JStr(s), default, env) == default
  {
    IsUpperMeaning(s);
  }

  /** A string without cased letters (digits, say) is literal unless it ends
      in `_ENV`. */
  lemma UncasedIsLiteral(s: string, default: Json, env: map<string, string>)
    requires forall k :: 0 <= k < |s| ==> !IsLowerChar(s[k]) && !IsUpperChar(s[k])
    requires !Text.EndsWith(s, "_ENV")
    ensures GetConfigValue(JStr(s), default, env) == JStr(s)
  {
    IsUpperMeaning(s);
  }

  // ---------------------------------------------------------------- providers

  datatype EmbeddingProviderConfig = EmbeddingProviderConfig(
    apiKey: Json, endpoint: Json, apiVersion: Json, model: Json, config: Json)

  /** `get_embedding_provider(name)`: `providers` is `None` when no provider
      table was loaded. A non-empty registered name wins; otherwise the
      preferred provider if it is registered; otherwise none. */
  function GetEmbeddingProvider(providers: Option<map<string, EmbeddingProviderConfig>>, preferred: string,
                                name: Option<string>): (r: Option<EmbeddingProviderConfig>)
    ensures providers.None? ==> r.None?
    ensures r.Some? ==> providers.Some? && r.value in providers.value.Values
    ensures providers.Some? && name.Some? && name.value != "" && name.value in providers.value ==>
      r == Some(providers.value[name.value])
    ensures r.None? <==> (providers.None? ||
      ((name.None? || name.value == "" || name.value !in providers.value) && preferred !in providers.value))
  {
    match providers
    case None => None
    case Some(table) =>
      if name.Some? && name.value != "" && name.value in table then Some(table[name.value])
      else if preferred in table then Some(table[preferred])
      else None
  }

  /** Without a usable name the preferred provider is chosen, and naming
      the preferred provider changes nothing. */
  lemma PreferredByDefault(table: map<string, EmbeddingProviderConfig>, preferred: string)
    requires preferred in table
    ensures GetEmbeddingProvider(Some(table), preferred, None) == Some(table[preferred])
    ensures GetEmbeddingProvider(Some(table), preferred, Some("")) == Some(table[preferred])
    ensures GetEmbeddingProvider(Some(table), preferred, Some(preferred)) == Some(table[preferred])
  {
  }

  /** An unregistered name falls back exactly as no name does. */
  lemma UnknownNameFallsBack(providers: Option<map<string, EmbeddingProviderConfig>>, preferred: string, name: string)
    requires providers.Some? ==> name !in providers.value
    ensures GetEmbeddingProvider(providers, preferred, Some(name)) == GetEmbeddingProvider(providers, preferred, None)
  {
  }

  // ---------------------------------------------------------------- paths

  /** `_resolve_path(path)`: an absolute path is kept; a relative one is
      made absolute under the base output directory when that is set and
      non-empty, else under the configuration directory. */
  function ResolvePath(path: string, baseOutput: Option<string>, configDir: string, cwd: string): (r: string)
    ensures PosixPath.IsAbs(path) ==> r == path
    ensures !PosixPath.IsAbs(path) && baseOutput.Some? && baseOutput.value != "" ==>
      r == PosixPath.Abspath(PosixPath.Join(baseOutput.value, path), cwd)
    ensures !PosixPath.IsAbs(path) && (baseOutput.None? || baseOutput.value == "") ==>
      r == PosixPath.Abspath(PosixPath.Join(configDir, path), cwd)
  {
    if PosixPath.IsAbs(path) then path
    else if baseOutput.Some? && baseOutput.value != "" then PosixPath.Abspath(PosixPath.Join(baseOutput.value, path), cwd)
    else PosixPath.Abspath(PosixPath.Join(configDir, path), cwd)
  }

  /** A relative path always resolves to an absolute, normalized one when
      the working directory is absolute, and resolving it again keeps it. */
  lemma ResolvedIsAbsolute(path: string, baseOutput: Option<string>, configDir: string, cwd: string)
    requires !PosixPath.IsAbs(path) && PosixPath.IsAbs(cwd)
    ensures var r := ResolvePath(path, baseOutput, configDir, cwd);
      && PosixPath.IsAbs(r)
      && PosixPath.Normpath(r) == r
      && ResolvePath(r, baseOutput, configDir, cwd) == r
  {
    var dir := if baseOutput.Some? && baseOutput.value != "" then baseOutput.value else configDir;
    var joined := PosixPath.Join(dir, path);
    PosixPath.AbspathNormal(joined, cwd);
  }

  /** With a base output directory set, the configuration directory plays
      no part. */
  lemma BaseOutputWins(path: string, base: string, configDir1: string, configDir2: string, cwd: string)
    requires base != ""
    ensures ResolvePath(path, Some(base), configDir1, cwd) == ResolvePath(path, Some(base), configDir2, cwd)
  {
  }

  // ---------------------------------------------------------------- modes

  /** `getattr(self, 'mode', 'production').lower()`. */
  function ModeName(mode: Option<string>): string {
    Text.Lower(mode.GetOr("production"))
  }

  predicate IsProductionMode(mode: Option<string>) { ModeName(mode) == "production" }
  predicate IsDevelopmentMode(mode: Option<string>) { ModeName(mode) == "development" }
  predicate IsTestingMode(mode: Option<string>) { ModeName(mode) == "testing" }

  /** Without a mode the system is in production, and at most one of the
      three modes holds. */
  lemma ModesExclusive(mode: Option<string>)
    ensures mode.None? ==> IsProductionMode(mode) && !IsDevelopmentMode(mode) && !IsTestingMode(mode)
    ensures !(IsProductionMode(mode) && IsDevelopmentMode(mode))
    ensures !(IsProductionMode(mode) && IsTestingMode(mode))
    ensures !(IsDevelopmentMode(mode) && IsTestingMode(mode))
  {
    if mode.None? {
      assert ModeName(mode) == "production";
    }
  }

  /** The comparison ignores case: two mode strings that agree once
      lower-cased select the same mode, so `Production` is production mode
      and `DEVELOPMENT` development mode. */
  lemma ModeIgnoresCase(a: string, b: string)
    requires Text.Lower(a) == Text.Lower(b)
    ensures IsProductionMode(Some(a)) <==> IsProductionMode(Some(b))
    ensures IsDevelopmentMode(Some(a)) <==> IsDevelopmentMode(Some(b))
    ensures IsTestingMode(Some(a)) <==> IsTestingMode(Some(b))
    ensures IsProductionMode(Some("Production")) && IsDevelopmentMode(Some("DEVELOPMENT"))
  {
    assert Text.Lower("Production") == "production";
    assert Text.Lower("DEVELOPMENT") == "development";
  }
}
