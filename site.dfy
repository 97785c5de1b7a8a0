/**
  The site's canonical URL: an environment value trimmed, given an
  `https://` scheme when it has none, with trailing slashes removed; a
  fixed fallback when no variable is set.
 */
module Site {
  import opened JsString

  /** `FALLBACK_SITE_URL`. */
  const FallbackSiteUrl: string := "https://rkmt-chronicle-viewer.vercel.app"

  /** The process environment: a variable that is absent reads as unset. */
  type Env = map<string, string>

  /** `process.env[name]`, with an absent variable as the empty string
      (both are falsy). */
  function Lookup(env: Env, name: string): string
  {
    if name in env then env[name] else ""
  }

  predicate HasScheme(s: string)
  {
    StartsWith(s, "http://") || StartsWith(s, "https://")
  }

  /** `withProtocol`: the trimmed value itself when it starts with a scheme,
      `https://` in front of it otherwise. */
  function WithProtocol(trimmed: string): (r: string)
    ensures HasScheme(r)
    ensures r == trimmed <==> HasScheme(trimmed)
    ensures !HasScheme(trimmed) ==> r == "https://" + trimmed
  {
    if HasScheme(trimmed) then trimmed
    else
      var r := "https://" + trimmed;
      assert r[..8] == "https://";
      r
  }

  /** `.replace(/\/+$/, "")`: the maximal trailing run of `/` is removed. */
  function StripTrailingSlashes(s: string): (r: string)
    ensures |r| <= |s| && r == s[..|r|]
    ensures forall i | |r| <= i < |s| :: s[i] == '/'
    ensures |r| > 0 ==> r[|r| - 1] != '/'
    decreases |s|
  {
    if |s| > 0 && s[|s| - 1] == '/' then StripTrailingSlashes(s[..|s| - 1]) else s
  }

  /** `normalizeUrl`. */
  function NormalizeUrl(value: string): string
  {
    StripTrailingSlashes(WithProtocol(Trim(value)))
  }

  /** The result is the trimmed value, with `https://` in front exactly when
      it has no scheme, cut before a trailing run of slashes; it never ends
      with `/`. */
  lemma NormalizeUrlShape(value: string)
    ensures var full := if HasScheme(Trim(value)) then Trim(value) else "https://" + Trim(value);
      var r := NormalizeUrl(value);
      && r == full[..|r|]
      && (forall i | |r| <= i < |full| :: full[i] == '/')
      && (|r| > 0 ==> r[|r| - 1] != '/')
  {
  }

  /** A URL with a scheme, no surrounding whitespace and no trailing slash
      is left as it is. */
  lemma NormalizeUrlOfNormal(s: string)
    requires HasScheme(s)
    requires !IsSpace(s[|s| - 1]) && s[|s| - 1] != '/'
    ensures NormalizeUrl(s) == s
  {
    assert !IsSpace(s[0]) by {
      assert s[0] == 'h';
    }
    assert TrimEnd(s) == s;
    assert TrimStart(s) == s;
  }

  /** Normalising twice is normalising once, as long as the first result
      keeps its scheme and does not end in whitespace (a value such as
      `"a /"` becomes `"https://a "`, which a second pass would trim). */
  lemma NormalizeUrlIdempotent(value: string)
    requires HasScheme(NormalizeUrl(value))
    requires !IsSpace(NormalizeUrl(value)[|NormalizeUrl(value)| - 1])
    ensures NormalizeUrl(NormalizeUrl(value)) == NormalizeUrl(value)
  {
    NormalizeUrlOfNormal(NormalizeUrl(value));
  }

  /** `NEXT_PUBLIC_SITE_URL || SITE_URL || VERCEL_PROJECT_PRODUCTION_URL`:
      the first of them that is set and non-empty, or "". */
  function Explicit(env: Env): (r: string)
    ensures r == "" <==>
      Lookup(env, "NEXT_PUBLIC_SITE_URL") == "" && Lookup(env, "SITE_URL") == ""
      && Lookup(env, "VERCEL_PROJECT_PRODUCTION_URL") == ""
  {
    if Lookup(env, "NEXT_PUBLIC_SITE_URL") != "" then Lookup(env, "NEXT_PUBLIC_SITE_URL")
    else if Lookup(env, "SITE_URL") != "" then Lookup(env, "SITE_URL")
    else Lookup(env, "VERCEL_PROJECT_PRODUCTION_URL")
  }

  /** `getSiteUrl`, with the environment as a parameter. */
  function GetSiteUrl(env: Env): string
  {
    var explicit := Explicit(env);
    if explicit != "" then NormalizeUrl(explicit)
    else if Lookup(env, "VERCEL_URL") != "" then NormalizeUrl(Lookup(env, "VERCEL_URL"))
    else FallbackSiteUrl
  }

  /** The precedence of the four variables: the first one set to a
      non-empty value is normalised and used, and with none set the
      fallback is returned as written. */
  lemma GetSiteUrlPrecedence(env: Env)
    ensures Lookup(env, "NEXT_PUBLIC_SITE_URL") != "" ==>
      GetSiteUrl(env) == NormalizeUrl(Lookup(env, "NEXT_PUBLIC_SITE_URL"))
    ensures Lookup(env, "NEXT_PUBLIC_SITE_URL") == "" && Lookup(env, "SITE_URL") != "" ==>
      GetSiteUrl(env) == NormalizeUrl(Lookup(env, "SITE_URL"))
    ensures (Lookup(env, "NEXT_PUBLIC_SITE_URL") == "" && Lookup(env, "SITE_URL") == ""
      && Lookup(env, "VERCEL_PROJECT_PRODUCTION_URL") != "") ==>
      GetSiteUrl(env) == NormalizeUrl(Lookup(env, "VERCEL_PROJECT_PRODUCTION_URL"))
    ensures Explicit(env) == "" && Lookup(env, "VERCEL_URL") != "" ==>
      GetSiteUrl(env) == NormalizeUrl(Lookup(env, "VERCEL_URL"))
    ensures Explicit(env) == "" && Lookup(env, "VERCEL_URL") == "" ==>
      GetSiteUrl(env) == FallbackSiteUrl
  {
  }

  /** The fallback is already in normal form, so returning it without
      `normalizeUrl` is harmless. */
  lemma FallbackIsNormal()
    ensures NormalizeUrl(FallbackSiteUrl) == FallbackSiteUrl
  {
    var f := FallbackSiteUrl;
    assert |f| == 40 && f[39] == 'p';
    assert !IsSpace(f[39]);
    assert f[..8] == "https://";
    NormalizeUrlOfNormal(f);
  }

  /** Whatever the environment, the site URL never ends with `/`. */
  lemma SiteUrlHasNoTrailingSlash(env: Env)
    ensures |GetSiteUrl(env)| > 0 ==> GetSiteUrl(env)[|GetSiteUrl(env)| - 1] != '/'
  {
    if Explicit(env) == "" && Lookup(env, "VERCEL_URL") == "" {
      FallbackIsNormal();
    }
  }
}
