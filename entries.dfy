/**
 * The two server entries the installer writes, `install_gymhappy` and `install_metabase`,
 * and the in-memory config object they update in place.
 */
module Entries {

  import opened Wrappers
  import opened ConfigDoc
  import opened NodeLocator

  const GYMHAPPY_KEY := "gymhappy-support"
  const METABASE_KEY := "metabase"
  const GYMHAPPY_URL := "https://app.gymhappy.co/mcp/support?mcp_token="
  const METABASE_PACKAGE := "@cognitionai/metabase-mcp-server"
  const METABASE_URL := "https://pushpress.metabaseapp.com/"
  const SYSTEM_PATH := "/usr/local/bin:/usr/bin:/bin:/usr/sbin:/sbin"

  /** `token.replace("|", "%7C")`: a Sanctum `{id}|{secret}` token made safe for a query string. */
  function EncodeToken(token: string): string
    decreases |token|
  {
    if token == [] then []
    else (if token[0] == '|' then "%7C" else [token[0]]) + EncodeToken(token[1..])
  }

  /** The receiving side's decoding of `%7C` back to `|`. */
  function DecodePipes(s: string): string
    decreases |s|
  {
    if s == [] then []
    else if |s| >= 3 && s[..3] == "%7C" then "|" + DecodePipes(s[3..])
    else [s[0]] + DecodePipes(s[1..])
  }

  /** The encoded token never contains a bare `|`. */
  lemma {:induction false} EncodeHasNoPipe(token: string)
    ensures '|' !in EncodeToken(token)
    decreases |token|
  {
    if token != [] { EncodeHasNoPipe(token[1..]); }
  }

  /** A token without `|` is embedded verbatim. */
  lemma {:induction false} EncodeWithoutPipe(token: string)
    requires '|' !in token
    ensures EncodeToken(token) == token
    decreases |token|
  {
    if token != [] {
      assert '|' !in token[1..];
      EncodeWithoutPipe(token[1..]);
      assert token == [token[0]] + token[1..];
    }
  }

  /** Encoding works piece by piece: each `|` becomes `%7C` where it stood, and nothing else moves. */
  lemma {:induction false} EncodeAppend(a: string, b: string)
    ensures EncodeToken(a + b) == EncodeToken(a) + EncodeToken(b)
    decreases |a|
  {
    if a != [] {
      assert (a + b)[0] == a[0] && (a + b)[1..] == a[1..] + b;
      EncodeAppend(a[1..], b);
    } else {
      assert a + b == b;
    }
  }

  /** Nothing is lost: decoding the URL's token gives back the token, when it holds no `%` of its own. */
  lemma {:induction false} DecodeEncode(token: string)
    requires '%' !in token
    ensures DecodePipes(EncodeToken(token)) == token
    decreases |token|
  {
    if token != [] {
      var rest := EncodeToken(token[1..]);
      assert '%' !in token[1..];
      DecodeEncode(token[1..]);
      if token[0] == '|' {
        assert ("%7C" + rest)[..3] == "%7C" && ("%7C" + rest)[3..] == rest;
      } else {
        assert ([token[0]] + rest)[1..] == rest;
      }
      assert token == [token[0]] + token[1..];
    }
  }

  /** A Sanctum token `{id}|{secret}` travels as `{id}%7C{secret}`. */
  lemma EncodeSanctumToken(id: string, secret: string)
    requires '|' !in id && '|' !in secret
    ensures EncodeToken(id + "|" + secret) == id + "%7C" + secret
  {
    EncodeAppend(id + "|", secret);
    EncodeAppend(id, "|");
    EncodeWithoutPipe(id);
    EncodeWithoutPipe(secret);
  }

  /** The example token `123|abc` travels as `123%7Cabc`. */
  lemma ExampleEncoding()
    ensures EncodeToken("123|abc") == "123%7Cabc"
  {
    EncodeSanctumToken("123", "abc");
    assert "123" + "|" + "abc" == "123|abc";
  }

  /** The GymHappy Support definition for a token. */
  function GymHappyEntry(token: string): Value {
    Object(map[
      "command" := Str("npx"),
      "args" := List([Str("-y"), Str("mcp-remote"), Str(GYMHAPPY_URL + EncodeToken(token))])])
  }

  /** The `env` block of the Metabase definition; `PATH` is added for a non-empty bin directory. */
  function MetabaseEnv(apiKey: string, binDir: Option<string>): map<string, Value> {
    var base := map["METABASE_URL" := Str(METABASE_URL), "METABASE_API_KEY" := Str(apiKey)];
    if binDir.Some? && binDir.value != "" then base["PATH" := Str(binDir.value + ":" + SYSTEM_PATH)]
    else base
  }

  /** The Metabase definition for a located `npx` and an API key. */
  function MetabaseEntry(npx: string, apiKey: string, binDir: Option<string>): Value {
    Object(map[
      "command" := Str(npx),
      "args" := List([Str(METABASE_PACKAGE)]),
      "env" := Object(MetabaseEnv(apiKey, binDir))])
  }

  /**
   * The Metabase definition written for a lookup: the located command, the package as its only
   * argument, the fixed URL and the key, and `PATH` exactly when the lookup returned a bin
   * directory, listing it first.
   */
  lemma MetabaseEntryForLookup(p: Probes, apiKey: string)
    requires SelectNode(p).Found?
    ensures var node := SelectNode(p);
      var entry := MetabaseEntry(node.npx, apiKey, node.binDir);
      var env := entry.fields["env"].fields;
      && entry.fields.Keys == {"command", "args", "env"}
      && entry.fields["command"] == Str(node.npx)
      && entry.fields["args"] == List([Str(METABASE_PACKAGE)])
      && env["METABASE_URL"] == Str(METABASE_URL)
      && env["METABASE_API_KEY"] == Str(apiKey)
      && ("PATH" in env <==> node.binDir.Some?)
      && (node.binDir.Some? ==> env["PATH"] == Str(node.binDir.value + ":" + SYSTEM_PATH))
      && env.Keys <= {"METABASE_URL", "METABASE_API_KEY", "PATH"}
  {
    if SelectNode(p).binDir.Some? {
      BinDirNonEmpty(p);
    }
  }

  /** The token occurs, encoded, at the end of the GymHappy URL and nowhere unencoded. */
  lemma GymHappyEntryEmbedsToken(token: string)
    ensures var args := GymHappyEntry(token).fields["args"].items;
      && GymHappyEntry(token).fields["command"] == Str("npx")
      && |args| == 3 && args[0] == Str("-y") && args[1] == Str("mcp-remote")
      && args[2].s[..|GYMHAPPY_URL|] == GYMHAPPY_URL
      && args[2].s[|GYMHAPPY_URL|..] == EncodeToken(token)
      && '|' !in args[2].s[|GYMHAPPY_URL|..]
  {
    EncodeHasNoPipe(token);
    var url := GYMHAPPY_URL + EncodeToken(token);
    assert url[..|GYMHAPPY_URL|] == GYMHAPPY_URL && url[|GYMHAPPY_URL|..] == EncodeToken(token);
  }

  /** The document being edited (the `config` dict), updated in place by the installers. */
  class Config {
    var servers: Option<Servers>
    var rest: map<string, Value>

    constructor (doc: Doc)
      ensures Snapshot() == doc
    {
      servers := doc.servers;
      rest := doc.rest;
    }

    /** `copy.deepcopy(config)`: the document's current value. */
    function Snapshot(): Doc
      reads this
    {
      Doc(servers, rest)
    }

    /**
     * `install_gymhappy(config)` with the token the operator typed: skipped when the token is
     * empty, otherwise the GymHappy Support definition is written under its fixed key.
     */
    method InstallGymhappy(token: string) returns (installed: bool)
      modifies this
      ensures installed <==> token != ""
      ensures Snapshot() ==
        if installed then SetServer(old(Snapshot()), GYMHAPPY_KEY, GymHappyEntry(token))
        else old(Snapshot())
    {
      if token == "" {
        return false;
      }
      var encoded := EncodeToken(token);
      var entry := Object(map[
        "command" := Str("npx"),
        "args" := List([Str("-y"), Str("mcp-remote"), Str(GYMHAPPY_URL + encoded)])]);
      servers := Some(Put(servers.GetOr([]), GYMHAPPY_KEY, entry));
      return true;
    }

    /**
     * `install_metabase(config)` with the API key the operator typed: skipped when the key is
     * empty or no Node.js 20+ is found, otherwise the Metabase definition is written under its
     * fixed key.
     */
    method InstallMetabase(apiKey: string, probes: Probes) returns (installed: bool)
      modifies this
      ensures installed <==> apiKey != "" && SelectNode(probes).Found?
      ensures Snapshot() ==
        if installed then
          SetServer(old(Snapshot()), METABASE_KEY,
            MetabaseEntry(SelectNode(probes).npx, apiKey, SelectNode(probes).binDir))
        else old(Snapshot())
    {
      if apiKey == "" {
        return false;
      }
      var node := FindNodeV20(probes);
      if node.NotFound? {
        return false;
      }
      var env := map["METABASE_URL" := Str(METABASE_URL), "METABASE_API_KEY" := Str(apiKey)];
      if node.binDir.Some? && node.binDir.value != "" {
        env := env["PATH" := Str(node.binDir.value + ":" + SYSTEM_PATH)];
      }
      var entry := Object(map[
        "command" := Str(node.npx),
        "args" := List([Str(METABASE_PACKAGE)]),
        "env" := Object(env)]);
      servers := Some(Put(servers.GetOr([]), METABASE_KEY, entry));
      return true;
    }
  }
}
