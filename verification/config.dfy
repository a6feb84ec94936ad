/**
 * Host, model and endpoint resolution (src/main.rs lines 37-47 and 55).
 * An environment variable is an `Option<string>`: `None` when it is unset
 * (or, as `env::var` also reports, not valid Unicode).
 */
module Config {
  import opened Wrappers
  import opened Text

  const DefaultHost: string := "http://localhost:11434"
  const DefaultModel: string := "dolphin3:8b"
  const GeneratePath: string := "/api/generate"

  /** A variable's value cleaned for use: the trimmed value when it has
      any non-whitespace, otherwise the default. */
  function Setting(value: Option<string>, default: string): (r: string)
    ensures r == default || (value.Some? && r == Trim(value.value) && r != [])
    ensures value.Some? && !All(value.value, IsWs) ==> r == Trim(value.value)
    ensures (value.None? || All(value.value, IsWs)) ==> r == default
  {
    match value
    case None => default
    case Some(v) =>
      var t := Trim(v);
      if t == [] then default else t
  }

  /** `OLLAMA_HOST`, else `OLLAMA_HOSTS`, cleaned as a setting. */
  function ResolveHost(host: Option<string>, hosts: Option<string>): (r: string)
    ensures r != [] && IsTrimmed(r)
    ensures host.Some? ==> r == Setting(host, DefaultHost)
    ensures host.None? ==> r == Setting(hosts, DefaultHost)
  {
    Setting(if host.Some? then host else hosts, DefaultHost)
  }

  /** `OLLAMA_MODEL` cleaned as a setting. */
  function ResolveModel(model: Option<string>): (r: string)
    ensures r != [] && IsTrimmed(r)
    ensures r == DefaultModel || (model.Some? && r == Trim(model.value))
    ensures model.Some? && !All(model.value, IsWs) ==> r == Trim(model.value)
    ensures model.None? || All(model.value, IsWs) ==> r == DefaultModel
  {
    Setting(model, DefaultModel)
  }

  predicate IsSlash(c: char) {
    c == '/'
  }

  /** The host without its trailing slashes, followed by `/api/generate`. */
  function GenerateUrl(host: string): (url: string)
    ensures |url| >= |GeneratePath| && url[|url| - |GeneratePath|..] == GeneratePath
    ensures var base := url[..|url| - |GeneratePath|];
              && base <= host
              && All(host[|base|..], IsSlash)
              && (base == [] || base[|base| - 1] != '/')
  {
    var base := TrimEndWhere(host, IsSlash);
    assert (base + GeneratePath)[..|base|] == base;
    base + GeneratePath
  }

  /** The endpoint the request is posted to. */
  function Endpoint(host: Option<string>, hosts: Option<string>): (url: string)
    ensures |url| >= |GeneratePath| && url[|url| - |GeneratePath|..] == GeneratePath
    ensures host.Some? ==> url == GenerateUrl(Setting(host, DefaultHost))
    ensures host.None? ==> url == GenerateUrl(Setting(hosts, DefaultHost))
  {
    GenerateUrl(ResolveHost(host, hosts))
  }

  /** A set `OLLAMA_HOST`, even a blank one, hides `OLLAMA_HOSTS`. */
  lemma HostHidesHosts(v: string, hosts1: Option<string>, hosts2: Option<string>)
    ensures ResolveHost(Some(v), hosts1) == ResolveHost(Some(v), hosts2)
    ensures All(v, IsWs) ==> ResolveHost(Some(v), hosts1) == DefaultHost
  {
  }

  /** Trailing slashes on the host do not change the endpoint. */
  lemma {:induction false} TrailingSlashIgnored(host: string)
    ensures GenerateUrl(host + "/") == GenerateUrl(host)
  {
    var base := TrimEndWhere(host, IsSlash);
    assert host + "/" == base + (host[|base|..] + "/");
    TrimEndWhereUnique(base, host[|base|..] + "/", IsSlash);
  }

  /** With nothing configured the endpoint is the local default. */
  lemma DefaultEndpoint()
    ensures Endpoint(None, None) == "http://localhost:11434/api/generate"
    ensures ResolveModel(None) == "dolphin3:8b"
  {
    assert DefaultHost == DefaultHost + [];
    TrimEndWhereUnique(DefaultHost, [], IsSlash);
    assert ResolveHost(None, None) == DefaultHost;
    assert GenerateUrl(DefaultHost) == DefaultHost + GeneratePath;
  }

  /** A blank `OLLAMA_HOST` yields the default endpoint whatever
      `OLLAMA_HOSTS` names. */
  lemma BlankHostEndpoint(v: string, hosts: Option<string>)
    requires All(v, IsWs)
    ensures Endpoint(Some(v), hosts) == Endpoint(None, None)
  {
    HostHidesHosts(v, hosts, None);
  }
}
