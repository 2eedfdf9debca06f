/**
 * `load_config`: the manifest's per-environment settings, looked up by the
 * (already upper-cased) environment name.
 */
module Config {
  import opened Wrappers
  import opened Text

  /** A scalar the manifest can bind a variable to. */
  datatype Value = Str(text: string) | Number(number: int) | Flag(flag: bool)

  /** One environment's settings: variable name to value. */
  type Configuration = map<string, Value>

  /** The parsed manifest; `configurations` is `None` when the document has no
    * such key. */
  datatype Manifest = Manifest(configurations: Option<map<string, Configuration>>)

  /** The `ValueError` raised for an unknown environment. */
  datatype ConfigError = EnvironmentNotFound(environment: string)

  const MessageStart: string := "Environment '"
  const MessageEnd: string := "' not found in manifest.yml"

  /** The text of that error: the environment name quoted inside a fixed frame. */
  function ErrorMessage(e: ConfigError): (m: string)
    ensures var n := |MessageStart|;
            && |m| == n + |e.environment| + |MessageEnd|
            && m[..n] == MessageStart
            && m[n..n + |e.environment|] == e.environment
            && m[n + |e.environment|..] == MessageEnd
  {
    var m := MessageStart + e.environment + MessageEnd;
    assert m[..|MessageStart|] == MessageStart;
    assert m[|MessageStart|..|MessageStart| + |e.environment|] == (MessageStart + e.environment)[|MessageStart|..];
    m
  }

  /** Distinct names give distinct messages. */
  lemma ErrorMessageInjective(e1: ConfigError, e2: ConfigError)
    ensures ErrorMessage(e1) == ErrorMessage(e2) <==> e1 == e2
  {
    if ErrorMessage(e1) == ErrorMessage(e2) {
      var m := ErrorMessage(e1);
      var n := |MessageStart|;
      assert |e1.environment| == |e2.environment|;
      assert e1.environment == m[n..n + |e1.environment|] == e2.environment;
    }
  }

  /** `manifest.get('configurations', {})` */
  function Environments(manifest: Manifest): (envs: map<string, Configuration>)
    ensures manifest.configurations.None? ==> envs == map[]
    ensures manifest.configurations.Some? ==> envs == manifest.configurations.value
  {
    match manifest.configurations
    case Some(envs) => envs
    case None => map[]
  }

  /** An environment that is present yields its own settings, untouched; any
    * other name, including every name when `configurations` is missing,
    * yields `EnvironmentNotFound`. */
  function LoadConfig(manifest: Manifest, env: string): (r: Result<Configuration, ConfigError>)
    ensures r.Ok? <==> manifest.configurations.Some? && env in manifest.configurations.value
    ensures r.Ok? ==> r.value == manifest.configurations.value[env]
    ensures r.Err? ==> r.error == EnvironmentNotFound(env)
  {
    if env !in Environments(manifest) then Err(EnvironmentNotFound(env))
    else Ok(Environments(manifest)[env])
  }

  /** No merging: the result depends on the requested environment's entry
    * only, whatever the other environments hold. */
  lemma LoadConfigIgnoresOtherEnvironments(m1: Manifest, m2: Manifest, env: string)
    requires env in Environments(m1) <==> env in Environments(m2)
    requires env in Environments(m1) ==> Environments(m1)[env] == Environments(m2)[env]
    ensures LoadConfig(m1, env) == LoadConfig(m2, env)
  {
  }

  /** A missing `configurations` key behaves as an empty one. */
  lemma MissingConfigurationsIsEmpty(env: string)
    ensures LoadConfig(Manifest(None), env) == LoadConfig(Manifest(Some(map[])), env)
                                            == Err(EnvironmentNotFound(env))
  {
  }

  /** The name given on the command line is upper-cased before the lookup, so
    * names that differ only in ASCII case select the same settings. */
  lemma LookupIgnoresCase(manifest: Manifest, a: string, b: string)
    requires EqualIgnoringCase(a, b)
    ensures LoadConfig(manifest, Upper(a)) == LoadConfig(manifest, Upper(b))
  {
    UpperEqualIff(a, b);
  }

  /** For instance `dev` and `DEV`. */
  lemma DevIsDEV(manifest: Manifest)
    ensures LoadConfig(manifest, Upper("dev")) == LoadConfig(manifest, Upper("DEV"))
  {
    LookupIgnoresCase(manifest, "dev", "DEV");
  }
}
