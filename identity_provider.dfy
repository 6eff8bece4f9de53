/** The identity-provider URL that the client hands to its login options
    (`getIIUrl` in src/App.tsx), computed from the build environment. */
module IdentityProvider {
  import opened Wrappers

  /** The build-time `process.env` variables that are set. */
  type Env = map<string, string>

  const DFX_NETWORK: string := "DFX_NETWORK"
  const GITPOD_WORKSPACE_URL: string := "GITPOD_WORKSPACE_URL"
  const CANISTER_ID_INTERNET_IDENTITY: string := "CANISTER_ID_INTERNET_IDENTITY"

  const MAINNET_URL: string := "https://identity.ic0.app/#authorize"

  /** `${process.env.NAME}` in a template literal: the value, or the text
      "undefined" for a variable that is not set. */
  function Interpolated(env: Env, name: string): string {
    if name in env then env[name] else "undefined"
  }

  /** A variable that is set to a non-empty string is truthy. */
  predicate Truthy(env: Env, name: string) {
    name in env && env[name] != ""
  }

  predicate IsLocal(env: Env) {
    DFX_NETWORK in env && env[DFX_NETWORK] == "local"
  }

  predicate OccursAt(s: string, pattern: string, i: nat) {
    i + |pattern| <= |s| && s[i..i + |pattern|] == pattern
  }

  /** `s.replace(pattern, replacement)` with a string pattern: only the first
      occurrence is replaced. The replacement is inserted literally, which
      is what JavaScript does for a replacement without `$` patterns (such
      as the empty one used here). */
  function ReplaceFirst(s: string, pattern: string, replacement: string): string
    decreases |s|
  {
    if |s| < |pattern| then s
    else if s[..|pattern|] == pattern then replacement + s[|pattern|..]
    else [s[0]] + ReplaceFirst(s[1..], pattern, replacement)
  }

  /** Occurrences in the tail are occurrences in the string, one place on. */
  lemma OccursAtTail(s: string, pattern: string, j: nat)
    requires s != []
    ensures OccursAt(s[1..], pattern, j) <==> OccursAt(s, pattern, j + 1)
  {
    if j + 1 + |pattern| <= |s| {
      assert s[1..][j..j + |pattern|] == s[j + 1..j + 1 + |pattern|];
    }
  }

  /** Where the pattern does not start the string, the first character is kept. */
  lemma ReplaceFirstSkip(s: string, pattern: string, replacement: string)
    requires |s| >= |pattern| && !OccursAt(s, pattern, 0)
    ensures s != [] && ReplaceFirst(s, pattern, replacement) == [s[0]] + ReplaceFirst(s[1..], pattern, replacement)
  {
    assert s[..|pattern|] == s[0..|pattern|];
  }

  /** The first occurrence of the pattern, at `i`, is the one replaced. */
  lemma {:induction false} ReplaceFirstAt(s: string, pattern: string, replacement: string, i: nat)
    requires OccursAt(s, pattern, i)
    requires forall j :: 0 <= j < i ==> !OccursAt(s, pattern, j)
    ensures ReplaceFirst(s, pattern, replacement) == s[..i] + replacement + s[i + |pattern|..]
    decreases i
  {
    if i == 0 {
      assert s[..|pattern|] == s[0..|pattern|];
    } else {
      var t := s[1..];
      ReplaceFirstSkip(s, pattern, replacement);
      forall j | 0 <= j < i - 1 ensures !OccursAt(t, pattern, j) {
        OccursAtTail(s, pattern, j);
      }
      OccursAtTail(s, pattern, i - 1);
      ReplaceFirstAt(t, pattern, replacement, i - 1);
      assert s[..i] == [s[0]] + t[..i - 1];
      assert t[i - 1 + |pattern|..] == s[i + |pattern|..];
    }
  }

  /** A string without the pattern is returned as it is. */
  lemma {:induction false} ReplaceFirstAbsent(s: string, pattern: string, replacement: string)
    requires forall j :: 0 <= j <= |s| ==> !OccursAt(s, pattern, j)
    ensures ReplaceFirst(s, pattern, replacement) == s
    decreases |s|
  {
    if |s| >= |pattern| {
      ReplaceFirstSkip(s, pattern, replacement);
      forall j | 0 <= j <= |s| - 1 ensures !OccursAt(s[1..], pattern, j) {
        OccursAtTail(s, pattern, j);
      }
      ReplaceFirstAbsent(s[1..], pattern, replacement);
      assert s == [s[0]] + s[1..];
    }
  }

  /** `getIIUrl()` as written: on the local network the local replica's
      Internet Identity canister (through the Gitpod workspace host when
      there is one); elsewhere the mainnet URL is a bare expression
      statement, not a `return`, so the result is `undefined` (`None`). */
  function GetIIUrl(env: Env): (r: Option<string>)
    ensures r.Some? <==> IsLocal(env)
  {
    if IsLocal(env) then
      if Truthy(env, GITPOD_WORKSPACE_URL) then
        Some("https://4943-" + ReplaceFirst(env[GITPOD_WORKSPACE_URL], "https://", "")
             + "?canisterId=" + Interpolated(env, CANISTER_ID_INTERNET_IDENTITY) + "#authorize")
      else
        Some("http://localhost:4943?canisterId=" + Interpolated(env, CANISTER_ID_INTERNET_IDENTITY) + "#authorize")
    else
      None
  }

  /** Local with a Gitpod workspace URL `https://<host>`: the replica port is
      prefixed to the host and the scheme is not repeated. */
  lemma GetIIUrlGitpod(env: Env, host: string)
    requires IsLocal(env)
    requires GITPOD_WORKSPACE_URL in env && env[GITPOD_WORKSPACE_URL] == "https://" + host
    ensures GetIIUrl(env) == Some("https://4943-" + host + "?canisterId="
                                  + Interpolated(env, CANISTER_ID_INTERNET_IDENTITY) + "#authorize")
  {
    var url := env[GITPOD_WORKSPACE_URL];
    assert |url| >= |"https://"| && url[..|"https://"|] == "https://";
    assert url[|"https://"|..] == host;
    assert ReplaceFirst(url, "https://", "") == host;
    assert Truthy(env, GITPOD_WORKSPACE_URL);
  }

  /** Local with a Gitpod workspace URL that does not contain "https://":
      the URL is spliced in as it is. */
  lemma GetIIUrlGitpodVerbatim(env: Env)
    requires IsLocal(env) && Truthy(env, GITPOD_WORKSPACE_URL)
    requires forall j :: 0 <= j <= |env[GITPOD_WORKSPACE_URL]| ==> !OccursAt(env[GITPOD_WORKSPACE_URL], "https://", j)
    ensures GetIIUrl(env) == Some("https://4943-" + env[GITPOD_WORKSPACE_URL] + "?canisterId="
                                  + Interpolated(env, CANISTER_ID_INTERNET_IDENTITY) + "#authorize")
  {
    ReplaceFirstAbsent(env[GITPOD_WORKSPACE_URL], "https://", "");
  }

  /** Local without a (non-empty) Gitpod workspace URL: the localhost replica. */
  lemma GetIIUrlLocalhost(env: Env)
    requires IsLocal(env) && !Truthy(env, GITPOD_WORKSPACE_URL)
    ensures GetIIUrl(env) == Some("http://localhost:4943?canisterId="
                                  + Interpolated(env, CANISTER_ID_INTERNET_IDENTITY) + "#authorize")
  {
  }

  /** The evidently intended `getIIUrl()`: the same on the local network,
      and the mainnet Internet Identity URL everywhere else. */
  function IntendedIIUrl(env: Env): (r: string)
    ensures IsLocal(env) ==> Some(r) == GetIIUrl(env)
    ensures !IsLocal(env) ==> r == MAINNET_URL
  {
    if IsLocal(env) then GetIIUrl(env).value else MAINNET_URL
  }

  /** Off the local network the function as written yields no URL at all,
      where the intended one yields the mainnet URL. */
  lemma GetIIUrlOffLocalUndefined()
    ensures var env := map[DFX_NETWORK := "ic"];
      GetIIUrl(env) == None && IntendedIIUrl(env) == MAINNET_URL
  {
    var env := map[DFX_NETWORK := "ic"];
    assert env[DFX_NETWORK] != "local" by {
      assert env[DFX_NETWORK][0] != "local"[0];
    }
  }
}
