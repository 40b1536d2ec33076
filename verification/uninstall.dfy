/**
 * The `uninstall` command. Only removal from Claude Desktop on macOS is
 * implemented; every other combination stops with an error.
 */
module Uninstall {
  import opened Json
  import opened Config
  import opened Install

  /** The `mcpServers` check, `delete config.mcpServers[name]`, and the
      document that is written afterwards. */
  function RemoveClaude(config: Json, name: string): (r: Result<Json>)
    ensures config.JNull? ==> r == Err(TypeError)
    ensures r.Err? ==> r.reason == NotInstalled || r.reason == TypeError
    ensures r.Ok? ==> Truthy(GetProp(config, ServersKey)) && Truthy(GetProp(GetProp(config, ServersKey).value, name))
  {
    if config.JNull? then Err(TypeError)
    else
      var servers := GetProp(config, ServersKey);
      if !Truthy(servers) || !Truthy(GetProp(servers.value, name)) then Err(NotInstalled)
      else
        match DeleteProp(servers.value, name)
        case Throw => Err(TypeError)
        case Normal(s1) =>
          match SetProp(config, ServersKey, s1)
          case Throw => Err(TypeError)
          case Normal(c) => Ok(c)
  }

  /** On a document whose `mcpServers` is an object (or missing), removal
      succeeds exactly when the server's entry is truthy; it then takes that
      one entry out of `mcpServers` and leaves every other property, and
      the order of the top-level keys, as they were. */
  lemma ClaudeUninstall(config: Json, name: string)
    requires IsClaudeDocument(config)
    ensures var r := RemoveClaude(config, name);
      && (r.Ok? <==> Truthy(Lookup(ClaudeServers(config), name)))
      && (r.Err? ==> r.reason == NotInstalled)
      && (r.Ok? ==>
            && IsClaudeDocument(r.value)
            && ClaudeServers(r.value) == Remove(ClaudeServers(config), name)
            && Keys(r.value.fields) == Keys(config.fields)
            && forall k :: k != ServersKey ==> GetProp(r.value, k) == GetProp(config, k))
  {
    var servers := GetProp(config, ServersKey);
    if Truthy(servers) {
      var fs := servers.value.fields;
      assert ClaudeServers(config) == fs;
      assert GetProp(servers.value, name) == Lookup(fs, name);
      if Truthy(Lookup(fs, name)) {
        var s1 := JObj(Remove(fs, name));
        assert DeleteProp(servers.value, name) == Normal(s1);
        var c := JObj(Put(config.fields, ServersKey, s1));
        assert RemoveClaude(config, name) == Ok(c);
        assert ServersKey in Keys(config.fields);
        assert GetProp(c, ServersKey) == Defined(s1);
      }
    } else {
      assert Lookup(ClaudeServers(config), name) == Undefined;
    }
  }

  /** `uninstall <name> --client <client>`: `read` is how reading Claude
      Desktop's file ends. The server name is not checked against the
      registry. */
  function RunUninstall(name: string, client: string, platform: Platform, home: string, read: ReadResult)
    : (o: Outcome)
    ensures platform == OtherPlatform ==> o == Fail(UnsupportedPlatform)
    ensures platform == Win32 || (platform == Darwin && client != ClaudeClient) ==> o == Fail(NotImplemented)
    ensures platform == Darwin && client == ClaudeClient && read.Absent? ==> o == Fail(ConfigNotFound)
    ensures o.Write? ==> platform == Darwin && client == ClaudeClient && read.Parsed? && o.path == ClaudeConfigPath(home)
    ensures platform == Darwin && client == ClaudeClient && read.Parsed? && RemoveClaude(read.doc, name).Ok? ==>
      o == Write(ClaudeConfigPath(home), RemoveClaude(read.doc, name).value)
  {
    match platform
    case OtherPlatform => Fail(UnsupportedPlatform)
    case Win32 => Fail(NotImplemented)
    case Darwin =>
      if client != ClaudeClient then Fail(NotImplemented)
      else
        match read
        case Absent => Fail(ConfigNotFound)
        case Malformed => Fail(ReadFailed)
        case Parsed(doc) =>
          match RemoveClaude(doc, name)
          case Err(f) => Fail(f)
          case Ok(d) => Write(ClaudeConfigPath(home), d)
  }

  /** What `uninstall --client claude` writes on macOS: with a readable
      file whose `mcpServers` is an object (or missing), it writes exactly
      when the server's entry is truthy, to Claude Desktop's path, a
      document with that one entry removed and every other property kept. */
  lemma ClaudeCommandRemoves(name: string, home: string, doc: Json)
    requires IsClaudeDocument(doc)
    ensures var o := RunUninstall(name, ClaudeClient, Darwin, home, Parsed(doc));
      && (o.Write? <==> Truthy(Lookup(ClaudeServers(doc), name)))
      && (o.Fail? ==> o.reason == NotInstalled)
      && (o.Write? ==>
            && o.path == ClaudeConfigPath(home)
            && IsClaudeDocument(o.doc)
            && ClaudeServers(o.doc) == Remove(ClaudeServers(doc), name)
            && forall k :: k != ServersKey ==> GetProp(o.doc, k) == GetProp(doc, k))
  {
    ClaudeUninstall(doc, name);
  }
}
