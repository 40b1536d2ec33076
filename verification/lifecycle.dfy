/**
 * How the three commands see each other's writes: what `install` writes,
 * `list` shows and `uninstall` takes out again.
 */
module Lifecycle {
  import opened Wrappers
  import opened Json
  import opened Types
  import opened Config
  import opened Install
  import opened Listing
  import opened Uninstall

  // ---------------------------------------------------------------------
  // Claude Desktop

  /** After installing a registered server into Claude Desktop's
      configuration, listing that configuration shows it. */
  lemma ClaudeInstallThenList(registry: seq<Server>, config: Json, name: string, entry: Json)
    requires IsClaudeDocument(config) && IsRegistered(registry, name)
    ensures MergeClaude(config, name, entry).Normal?
    ensures var scan := ClaudeIds(registry, Parsed(MergeClaude(config, name, entry).value));
      scan.Listed? && name in scan.ids
  {
    ClaudeInstall(config, name, entry);
  }

  /** Uninstalling what was just installed succeeds, and leaves the servers
      as they were with that one name taken out; when the name was not
      there before, exactly as they were. */
  lemma ClaudeInstallThenUninstall(config: Json, name: string, entry: Json)
    requires IsClaudeDocument(config) && UniqueKeys(ClaudeServers(config))
    requires Truthy(Defined(entry))
    ensures MergeClaude(config, name, entry).Normal?
    ensures var r := RemoveClaude(MergeClaude(config, name, entry).value, name);
      && r.Ok? && IsClaudeDocument(r.value)
      && ClaudeServers(r.value) == Remove(ClaudeServers(config), name)
      && (name !in Keys(ClaudeServers(config)) ==> ClaudeServers(r.value) == ClaudeServers(config))
      && forall k :: k != ServersKey ==> GetProp(r.value, k) == GetProp(config, k)
  {
    ClaudeInstall(config, name, entry);
    var once := MergeClaude(config, name, entry).value;
    ClaudeUninstall(once, name);
    RemovePut(ClaudeServers(config), name, entry);
  }

  /** After a successful uninstall, listing no longer shows the server. */
  lemma ClaudeUninstallThenList(registry: seq<Server>, config: Json, name: string)
    requires IsClaudeDocument(config)
    ensures RemoveClaude(config, name).Ok? ==>
      var scan := ClaudeIds(registry, Parsed(RemoveClaude(config, name).value));
      scan.Listed? && name !in scan.ids
  {
    ClaudeUninstall(config, name);
  }

  // ---------------------------------------------------------------------
  // Continue

  /** An entry both the install search and the listing can probe without
      throwing: an object whose `transport` is an object with an `args`
      array. */
  predicate Listable(e: Json) {
    && e.JObj?
    && var t := GetProp(e, "transport");
    && t.Defined? && t.value.JObj?
    && GetProp(t.value, "args").Defined? && GetProp(t.value, "args").value.JArr?
  }

  lemma ListableProbes(e: Json, command: string, args: seq<string>, finalArgs: seq<string>)
    requires Listable(e)
    ensures ListProbe(e, command, args) != Crash
    ensures InstallProbe(e, command, finalArgs) != Crash
  {
  }

  /** An entry carrying a transport written with arguments that start with
      a registry server's arguments is listed as that server. */
  lemma WrittenEntryListed(e: Json, finalArgs: seq<string>, command: string, env: seq<(string, Json)>, args: seq<string>)
    requires e.JObj? && GetProp(e, "transport") == Defined(Transport(finalArgs, command, env))
    requires |finalArgs| >= |args| && finalArgs[..|args|] == args
    ensures Listable(e) && ListProbe(e, command, args) == Hit
  {
    var t := Transport(finalArgs, command, env);
    TransportFields(finalArgs, command, env);
    var xs := StrArray(finalArgs).items;
    assert xs[..|args|] == StrArray(args).items;
    PrefixHit(e, t, command, xs, args);
  }

  /** The command and arguments a written transport carries. */
  lemma TransportFields(finalArgs: seq<string>, command: string, env: seq<(string, Json)>)
    ensures GetProp(Transport(finalArgs, command, env), "command") == Defined(JStr(command))
    ensures GetProp(Transport(finalArgs, command, env), "args") == Defined(StrArray(finalArgs))
  {
    var fs := Transport(finalArgs, command, env).fields;
    assert fs[0].0 != "command" by {
      assert fs[0].0[0] != "command"[0];
    }
    LookupCons(fs[0], fs[1..], "command");
    assert [fs[0]] + fs[1..] == fs;
  }

  /** The listing probe matches a transport with the command whose
      arguments start with the registry's. */
  lemma PrefixHit(e: Json, t: Json, command: string, xs: seq<Json>, args: seq<string>)
    requires e.JObj? && GetProp(e, "transport") == Defined(t) && t.JObj?
    requires GetProp(t, "command") == Defined(JStr(command)) && GetProp(t, "args") == Defined(JArr(xs))
    requires |xs| >= |args| && xs[..|args|] == StrArray(args).items
    ensures Listable(e) && ListProbe(e, command, args) == Hit
  {
    ListableOf(e, t, xs);
    ProbeHit(e, t, command, xs, args);
  }

  /** The probe's steps on an entry whose transport names `command` and
      whose arguments start with `args`. */
  lemma ProbeHit(e: Json, t: Json, command: string, xs: seq<Json>, args: seq<string>)
    requires Member(Defined(e), "transport") == Normal(Defined(t))
    requires Member(Defined(t), "command") == Normal(Defined(JStr(command)))
    requires GetProp(t, "args") == Defined(JArr(xs))
    requires |xs| >= |args| && xs[..|args|] == StrArray(args).items
    ensures ListProbe(e, command, args) == Hit
  {
    var n := if |args| < |xs| then |args| else |xs|;
    assert n == |args|;
  }

  /** After installing a registry server into a Continue configuration
      whose entries all have the usual shape, with arguments that start
      with the server's own (which is what the prompts produce), listing
      that configuration shows the server. */
  lemma ContinueInstallThenList(registry: seq<Server>, k: nat, config: Json, finalArgs: seq<string>, env: seq<(string, Json)>)
    requires IsContinueDocument(config)
    requires forall j :: 0 <= j < |Transports(config)| ==> Listable(Transports(config)[j])
    requires k < |registry|
    requires |finalArgs| >= |registry[k].config.args| && finalArgs[..|registry[k].config.args|] == registry[k].config.args
    ensures MergeContinue(config, registry[k].config.command, finalArgs, env).Normal?
    ensures var scan := ContinueIds(registry, Parsed(MergeContinue(config, registry[k].config.command, finalArgs, env).value));
      scan.Listed? && registry[k].id in scan.ids
  {
    var list := Transports(config);
    var command := registry[k].config.command;
    ListableNoCrash(list, command, finalArgs);
    InstalledTransports(config, command, finalArgs, env);
    var doc := MergeContinue(config, command, finalArgs, env).value;
    UpdatedListed(registry, k, list, finalArgs, env);
    assert ContinueIds(registry, Parsed(doc)) == MatchedIds(Transports(doc), registry);
  }

  /** The part of `ContinueInstall` the listing needs: the written document
      is again a Continue document, holding the updated server list. */
  lemma InstalledTransports(config: Json, command: string, finalArgs: seq<string>, env: seq<(string, Json)>)
    requires IsContinueDocument(config)
    requires !FindIndex(Transports(config), command, finalArgs).Crashed?
    ensures MergeContinue(config, command, finalArgs, env).Normal?
    ensures IsContinueDocument(MergeContinue(config, command, finalArgs, env).value)
    ensures Transports(MergeContinue(config, command, finalArgs, env).value)
      == UpdateTransports(JArr(Transports(config)), command, finalArgs, env).value.items
  {
    ContinueInstall(config, command, finalArgs, env);
  }

  /** The server list after the update, scanned for the registry. */
  lemma UpdatedListed(registry: seq<Server>, k: nat, list: seq<Json>, finalArgs: seq<string>, env: seq<(string, Json)>)
    requires forall j :: 0 <= j < |list| ==> Listable(list[j])
    requires k < |registry|
    requires |finalArgs| >= |registry[k].config.args| && finalArgs[..|registry[k].config.args|] == registry[k].config.args
    requires !FindIndex(list, registry[k].config.command, finalArgs).Crashed?
    ensures UpdateTransports(JArr(list), registry[k].config.command, finalArgs, env).Normal?
    ensures var scan := MatchedIds(UpdateTransports(JArr(list), registry[k].config.command, finalArgs, env).value.items, registry);
      scan.Listed? && registry[k].id in scan.ids
  {
    var command := registry[k].config.command;
    var w := WrittenAt(list, command, finalArgs, env);
    var list2 := UpdateTransports(JArr(list), command, finalArgs, env).value.items;
    WrittenEntryListed(list2[w], finalArgs, command, env, registry[k].config.args);
    ListedScan(list2, registry, k, w);
  }

  lemma ListableOf(e: Json, t: Json, xs: seq<Json>)
    requires e.JObj? && GetProp(e, "transport") == Defined(t) && t.JObj? && GetProp(t, "args") == Defined(JArr(xs))
    ensures Listable(e)
  {
  }

  /** The install search does not throw on listable entries. */
  lemma ListableNoCrash(list: seq<Json>, command: string, finalArgs: seq<string>)
    requires forall j :: 0 <= j < |list| ==> Listable(list[j])
    ensures !FindIndex(list, command, finalArgs).Crashed?
  {
    forall j | 0 <= j < |list|
      ensures InstallProbe(list[j], command, finalArgs) != Crash
    {
      ListableProbes(list[j], command, [], finalArgs);
    }
  }

  /** Where the update leaves the written transport, with every other entry
      as it was. */
  function WrittenAt(list: seq<Json>, command: string, finalArgs: seq<string>, env: seq<(string, Json)>): (w: nat)
    requires !FindIndex(list, command, finalArgs).Crashed?
    requires forall j :: 0 <= j < |list| ==> Listable(list[j])
    ensures UpdateTransports(JArr(list), command, finalArgs, env).Normal?
    ensures var list2 := UpdateTransports(JArr(list), command, finalArgs, env).value.items;
      && w < |list2| && list2[w].JObj?
      && GetProp(list2[w], "transport") == Defined(Transport(finalArgs, command, env))
      && forall j :: 0 <= j < |list2| ==> j == w || Listable(list2[j])
  {
    match FindIndex(list, command, finalArgs)
    case NotFound => |list|
    case Found(i) => i
  }

  /** A scan over entries that are all listable, one of which matches the
      server at `k`, completes and shows that server. */
  lemma ListedScan(installed: seq<Json>, registry: seq<Server>, k: nat, w: nat)
    requires k < |registry| && w < |installed|
    requires forall j :: 0 <= j < |installed| ==> j == w || Listable(installed[j])
    requires Listable(installed[w]) && ListProbe(installed[w], registry[k].config.command, registry[k].config.args) == Hit
    ensures MatchedIds(installed, registry).Listed? && registry[k].id in MatchedIds(installed, registry).ids
  {
    forall i | 0 <= i < |registry|
      ensures SomeFrom(installed, registry[i].config.command, registry[i].config.args, 0) != Crash
    {
      ListableScan(installed, w, registry[i].config.command, registry[i].config.args);
    }
    ListableScan(installed, w, registry[k].config.command, registry[k].config.args);
    MatchedIdsExact(installed, registry);
  }

  /** Over listable entries `some` does not throw, and it is true when the
      entry at `w` matches. */
  lemma ListableScan(installed: seq<Json>, w: nat, command: string, args: seq<string>)
    requires w < |installed|
    requires forall j :: 0 <= j < |installed| ==> Listable(installed[j])
    ensures SomeFrom(installed, command, args, 0) != Crash
    ensures ListProbe(installed[w], command, args) == Hit ==> SomeFrom(installed, command, args, 0) == Hit
  {
    forall j | 0 <= j < |installed|
      ensures ListProbe(installed[j], command, args) != Crash
    {
      ListableProbes(installed[j], command, args, []);
    }
    SomeFromExact(installed, command, args);
  }
}
