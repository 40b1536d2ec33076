/**
 * The `install` command: validate the server id, locate the client's
 * configuration, resolve the parameters, merge an entry into the document
 * and write it back.
 *
 * The merge is modelled on values: the nested objects the source mutates in
 * place are read out, updated and stored back, which is what serialising
 * the mutated document afterwards observes.
 */
module Install {
  import opened Wrappers
  import opened Json
  import opened Types
  import opened Params
  import opened Config

  const ServersKey := "mcpServers"
  const ExperimentalKey := "experimental"
  const TransportsKey := "modelContextProtocolServers"

  /** `validateServer`: the first registry entry with the id, unless that
      entry is a source distribution. */
  function ValidateServer(registry: seq<Server>, id: string): (r: Result<Server>)
    ensures !IsRegistered(registry, id) ==> r == Err(UnknownServer)
    ensures IsRegistered(registry, id) ==>
      (r.Err? <==> FindServer(registry, id).value.distribution.kind == Source)
    ensures r.Err? ==> r.reason == UnknownServer || r.reason == SourceDistribution
    ensures r.Ok? ==> r.value.id == id && r.value.distribution.kind != Source && r.value in registry
  {
    match FindServer(registry, id)
    case None => Err(UnknownServer)
    case Some(server) =>
      if server.distribution.kind == Source then Err(SourceDistribution) else Ok(server)
  }

  /** `getConfigPath`: only the two known clients have a configuration file. */
  function InstallConfigPath(client: string, home: string): (r: Result<Path>)
    ensures r.Ok? <==> IsKnownClient(client)
    ensures r.Err? ==> r.reason == UnsupportedClient
    ensures r.Ok? ==> |r.value| > 1 && r.value[0] == home
  {
    if client == ClaudeClient then Ok(ClaudeConfigPath(home))
    else if client == ContinueClient then Ok(ContinueConfigPath(home))
    else Err(UnsupportedClient)
  }

  /** The entry stored under the server id in Claude Desktop's configuration. */
  function ClaudeEntry(finalArgs: seq<string>, command: string, env: seq<(string, Json)>): Json {
    JObj([("args", StrArray(finalArgs)), ("command", JStr(command)), ("env", JObj(env))])
  }

  /** The transport stored in a Continue server entry. */
  function Transport(finalArgs: seq<string>, command: string, env: seq<(string, Json)>): Json {
    JObj([("args", StrArray(finalArgs)), ("command", JStr(command)), ("env", JObj(env)), ("type", JStr("stdio"))])
  }

  /** A new Continue server entry. */
  function TransportEntry(t: Json): Json {
    JObj([("transport", t)])
  }

  /** What the `findIndex` callback does with one element. */
  datatype Probe = Hit | Miss | Crash

  /** `s.transport.command === command && JSON.stringify(s.transport.args)
      === JSON.stringify(finalArgs)`: reading `transport.command` throws
      when the element or its transport is `undefined` or `null`; the
      serialisations agree exactly when the arguments are the same strings
      in the same order. */
  function InstallProbe(s: Json, command: string, finalArgs: seq<string>): (r: Probe)
    ensures r != Crash <==>
      !s.JNull? && GetProp(s, "transport").Defined? && !GetProp(s, "transport").value.JNull?
    ensures r == Hit <==>
      && r != Crash
      && GetProp(GetProp(s, "transport").value, "command") == Defined(JStr(command))
      && GetProp(GetProp(s, "transport").value, "args") == Defined(StrArray(finalArgs))
  {
    match Member(Defined(s), "transport")
    case Throw => Crash
    case Normal(t) =>
      match Member(t, "command")
      case Throw => Crash
      case Normal(c) =>
        if c == Defined(JStr(command)) && GetProp(t.value, "args") == Defined(StrArray(finalArgs)) then Hit else Miss
  }

  /** Only an object can have a `transport` to match. */
  lemma HitIsObject(s: Json, command: string, finalArgs: seq<string>)
    requires InstallProbe(s, command, finalArgs) == Hit
    ensures s.JObj?
  {
  }

  /** Every element in `[from, to)` is looked at without matching. */
  predicate AllMiss(list: seq<Json>, command: string, finalArgs: seq<string>, from: nat, to: nat)
    requires from <= to <= |list|
  {
    forall j :: from <= j < to ==> InstallProbe(list[j], command, finalArgs) == Miss
  }

  /** How `findIndex` ends: at the first match, without one, or by throwing. */
  datatype Search = Found(index: nat) | NotFound | Crashed

  /** `findIndex` from position `from` on. */
  function FindFrom(list: seq<Json>, command: string, finalArgs: seq<string>, from: nat): (r: Search)
    requires from <= |list|
    ensures r.Found? ==>
      from <= r.index < |list| && InstallProbe(list[r.index], command, finalArgs) == Hit
      && AllMiss(list, command, finalArgs, from, r.index)
    ensures r.NotFound? <==> AllMiss(list, command, finalArgs, from, |list|)
    ensures r.Crashed? ==>
      exists j :: from <= j < |list| && InstallProbe(list[j], command, finalArgs) == Crash
        && AllMiss(list, command, finalArgs, from, j)
    decreases |list| - from
  {
    if from == |list| then NotFound
    else
      match InstallProbe(list[from], command, finalArgs)
      case Hit => Found(from)
      case Crash => Crashed
      case Miss => FindFrom(list, command, finalArgs, from + 1)
  }

  function FindIndex(list: seq<Json>, command: string, finalArgs: seq<string>): Search {
    FindFrom(list, command, finalArgs, 0)
  }

  // ---------------------------------------------------------------------
  // Claude Desktop

  /** A document whose `mcpServers` is an object, or absent or falsy. */
  predicate IsClaudeDocument(doc: Json) {
    doc.JObj? && (var p := GetProp(doc, ServersKey); !Truthy(p) || p.value.JObj?)
  }

  /** The server entries of such a document; none when `mcpServers` is
      falsy. */
  function ClaudeServers(doc: Json): seq<(string, Json)>
    requires IsClaudeDocument(doc)
  {
    var p := GetProp(doc, ServersKey);
    if Truthy(p) then p.value.fields else []
  }

  /** `config.mcpServers = config.mcpServers || {}` followed by
      `config.mcpServers[name] = entry`. */
  function MergeClaude(config: Json, name: string, entry: Json): (r: Completion<Json>)
    ensures !config.JObj? && !config.JArr? ==> r == Throw
    ensures config.JArr? ==> r == Normal(config)
  {
    if config.JNull? then Throw
    else
      var servers := Or(GetProp(config, ServersKey), EmptyObject);
      match SetProp(config, ServersKey, servers)
      case Throw => Throw
      case Normal(c1) =>
        match SetProp(servers, name, entry)
        case Throw => Throw
        case Normal(s1) => SetProp(c1, ServersKey, s1)
  }

  /** On a document whose `mcpServers` is an object (or missing or falsy)
      the merge succeeds: the entry is stored under the server's id, every
      other property is kept, and `mcpServers` keeps its place among the
      top-level keys or is added last. */
  lemma ClaudeInstall(config: Json, name: string, entry: Json)
    requires IsClaudeDocument(config)
    ensures var r := MergeClaude(config, name, entry);
      && r.Normal? && IsClaudeDocument(r.value)
      && GetProp(r.value, ServersKey) == Defined(JObj(Put(ClaudeServers(config), name, entry)))
      && ClaudeServers(r.value) == Put(ClaudeServers(config), name, entry)
      && (forall k :: k != ServersKey ==> GetProp(r.value, k) == GetProp(config, k))
      && Keys(r.value.fields) ==
           if ServersKey in Keys(config.fields) then Keys(config.fields) else Keys(config.fields) + [ServersKey]
  {
    var fs := ClaudeServers(config);
    var servers := Or(GetProp(config, ServersKey), EmptyObject);
    var s1 := JObj(Put(fs, name, entry));
    var c2 := JObj(Put(Put(config.fields, ServersKey, servers), ServersKey, s1));
    assert servers == JObj(fs);
    MergeClaudeSteps(config, name, entry, fs);
    PutPut(config.fields, ServersKey, servers, s1);
    ServersOf(c2, s1);
  }

  /** The three assignments of the merge, on an object whose servers
      object (after defaulting) has entries `fs`. */
  lemma MergeClaudeSteps(config: Json, name: string, entry: Json, fs: seq<(string, Json)>)
    requires config.JObj? && Or(GetProp(config, ServersKey), EmptyObject) == JObj(fs)
    ensures MergeClaude(config, name, entry) ==
      Normal(JObj(Put(Put(config.fields, ServersKey, JObj(fs)), ServersKey, JObj(Put(fs, name, entry)))))
  {
  }

  lemma ServersOf(doc: Json, servers: Json)
    requires doc.JObj? && GetProp(doc, ServersKey) == Defined(servers) && servers.JObj?
    ensures IsClaudeDocument(doc) && ClaudeServers(doc) == servers.fields
  {
  }

  /** Two assignments to the same key: the second value wins, and the key
      sits where the first assignment put it. */
  lemma PutPut(fs: seq<(string, Json)>, k: string, v1: Json, v2: Json)
    ensures var r := Put(Put(fs, k, v1), k, v2);
      && Keys(r) == (if k in Keys(fs) then Keys(fs) else Keys(fs) + [k])
      && Lookup(r, k) == Defined(v2)
      && forall k' :: k' != k ==> Lookup(r, k') == Lookup(fs, k')
  {
  }

  /** A second install of the same entry leaves the document as the first
      one wrote it. */
  lemma ClaudeInstallIdempotent(config: Json, name: string, entry: Json)
    requires IsClaudeDocument(config)
    ensures MergeClaude(config, name, entry).Normal?
    ensures var once := MergeClaude(config, name, entry).value;
      MergeClaude(once, name, entry) == Normal(once)
  {
    ClaudeInstall(config, name, entry);
    var once := MergeClaude(config, name, entry).value;
    var fs := Put(ClaudeServers(config), name, entry);
    MergeClaudeSteps(once, name, entry, fs);
    PutSame(fs, name, entry);
    PutSame(once.fields, ServersKey, JObj(fs));
  }

  /** Assigning a property the value it already has leaves an object as
      it was. */
  lemma RewriteSame(doc: Json, k: string, v: Json)
    requires doc.JObj? && GetProp(doc, k) == Defined(v)
    ensures SetProp(doc, k, v) == Normal(doc)
  {
    PutSame(doc.fields, k, v);
  }

  // ---------------------------------------------------------------------
  // Continue

  /** A document whose `experimental` is an object (or absent or falsy)
      whose `modelContextProtocolServers` is an array (or absent or falsy). */
  predicate IsContinueDocument(doc: Json) {
    && doc.JObj?
    && var exp := GetProp(doc, ExperimentalKey);
       !Truthy(exp) ||
       (exp.value.JObj? && (var l := GetProp(exp.value, TransportsKey); !Truthy(l) || l.value.JArr?))
  }

  /** The Continue server entries of such a document. */
  function Transports(doc: Json): seq<Json>
    requires IsContinueDocument(doc)
  {
    var exp := GetProp(doc, ExperimentalKey);
    if !Truthy(exp) then []
    else
      var l := GetProp(exp.value, TransportsKey);
      if Truthy(l) then l.value.items else []
  }

  /** `list[i].transport = t` on an entry that matched. */
  function WithTransport(entry: Json, t: Json): Json
    requires entry.JObj?
  {
    JObj(Put(entry.fields, "transport", t))
  }

  /** The `findIndex` and the replace-or-push on the server list. */
  function UpdateTransports(list: Json, command: string, finalArgs: seq<string>, env: seq<(string, Json)>)
    : (r: Completion<Json>)
    ensures !list.JArr? ==> r == Throw
    ensures list.JArr? ==> (r.Throw? <==> FindIndex(list.items, command, finalArgs).Crashed?)
    ensures list.JArr? && FindIndex(list.items, command, finalArgs).NotFound? ==>
      r == Normal(JArr(list.items + [TransportEntry(Transport(finalArgs, command, env))]))
    ensures list.JArr? && FindIndex(list.items, command, finalArgs).Found? ==>
      var i := FindIndex(list.items, command, finalArgs).index;
      list.items[i].JObj? &&
      r == Normal(JArr(list.items[i := WithTransport(list.items[i], Transport(finalArgs, command, env))]))
  {
    if !list.JArr? then Throw
    else
      var t := Transport(finalArgs, command, env);
      match FindIndex(list.items, command, finalArgs)
      case Crashed => Throw
      case NotFound => Normal(JArr(list.items + [TransportEntry(t)]))
      case Found(i) =>
        HitIsObject(list.items[i], command, finalArgs);
        match SetProp(list.items[i], "transport", t)
        case Throw => Throw
        case Normal(e) => Normal(JArr(list.items[i := e]))
  }

  /** The server list as `experimental` holds it: the list, or a fresh
      empty one. */
  predicate HasServerList(exp: Json) {
    exp.JObj? && (var l := GetProp(exp, TransportsKey); !Truthy(l) || l.value.JArr?)
  }

  function ServerList(exp: Json): seq<Json>
    requires HasServerList(exp)
  {
    var l := GetProp(exp, TransportsKey);
    if Truthy(l) then l.value.items else []
  }

  /** `experimental.useTools = true`, the defaulting of the server list, and
      the update of that list, on the `experimental` value. */
  function UpdateExperimental(exp: Json, command: string, finalArgs: seq<string>, env: seq<(string, Json)>)
    : (r: Completion<Json>)
    ensures !exp.JObj? && !exp.JArr? ==> r == Throw
    ensures exp.JArr? ==> r == Normal(exp)
  {
    match SetProp(exp, "useTools", JBool(true))
    case Throw => Throw
    case Normal(e1) =>
      var list := Or(GetProp(e1, TransportsKey), JArr([]));
      match SetProp(e1, TransportsKey, list)
      case Throw => Throw
      case Normal(e2) =>
        match UpdateTransports(list, command, finalArgs, env)
        case Throw => Throw
        case Normal(list2) => SetProp(e2, TransportsKey, list2)
  }

  /** The assignments of `UpdateExperimental` on an object whose server
      list (after defaulting) is `items`. */
  lemma ExperimentalSteps(exp: Json, items: seq<Json>, command: string, finalArgs: seq<string>, env: seq<(string, Json)>)
    requires exp.JObj? && Or(GetProp(exp, TransportsKey), JArr([])) == JArr(items)
    ensures UpdateExperimental(exp, command, finalArgs, env) ==
      match UpdateTransports(JArr(items), command, finalArgs, env)
      case Throw => Throw
      case Normal(list2) =>
        Normal(JObj(Put(Put(Put(exp.fields, "useTools", JBool(true)), TransportsKey, JArr(items)), TransportsKey, list2)))
  {
    var e1 := JObj(Put(exp.fields, "useTools", JBool(true)));
    assert SetProp(exp, "useTools", JBool(true)) == Normal(e1);
    assert GetProp(e1, TransportsKey) == GetProp(exp, TransportsKey) by {
      assert TransportsKey != "useTools";
    }
    var e2 := JObj(Put(e1.fields, TransportsKey, JArr(items)));
    assert SetProp(e1, TransportsKey, JArr(items)) == Normal(e2);
    match UpdateTransports(JArr(items), command, finalArgs, env)
    case Throw =>
    case Normal(list2) =>
      assert SetProp(e2, TransportsKey, list2) == Normal(JObj(Put(e2.fields, TransportsKey, list2)));
  }

  /** On an `experimental` object whose server list is an array (or
      missing or falsy) the update throws exactly when the search does;
      otherwise `useTools` is `true` and the list is the updated one. */
  lemma ExperimentalUpdate(exp: Json, command: string, finalArgs: seq<string>, env: seq<(string, Json)>)
    requires HasServerList(exp)
    ensures var r := UpdateExperimental(exp, command, finalArgs, env);
      var list2 := UpdateTransports(JArr(ServerList(exp)), command, finalArgs, env);
      && (r.Throw? <==> list2.Throw?)
      && (r.Normal? ==>
            && HasServerList(r.value)
            && GetProp(r.value, TransportsKey) == Defined(list2.value)
            && GetProp(r.value, "useTools") == Defined(JBool(true)))
    ensures var r := UpdateExperimental(exp, command, finalArgs, env);
      r.Normal? ==> forall k :: k != TransportsKey && k != "useTools" ==> GetProp(r.value, k) == GetProp(exp, k)
  {
    var items := ServerList(exp);
    ExperimentalSteps(exp, items, command, finalArgs, env);
    var list2 := UpdateTransports(JArr(items), command, finalArgs, env);
    if list2.Normal? {
      var fs1 := Put(exp.fields, "useTools", JBool(true));
      PutPut(fs1, TransportsKey, JArr(items), list2.value);
      assert list2.value.JArr?;
    }
  }

  /** The Continue branch: create `experimental` when it is falsy, then
      update it. */
  function MergeContinue(config: Json, command: string, finalArgs: seq<string>, env: seq<(string, Json)>)
    : (r: Completion<Json>)
    ensures !config.JObj? && !config.JArr? ==> r == Throw
    ensures config.JArr? ==> r == Normal(config)
  {
    if config.JNull? then Throw
    else
      var exp0 := GetProp(config, ExperimentalKey);
      var c1 := if Truthy(exp0) then Normal(config) else SetProp(config, ExperimentalKey, EmptyObject);
      match c1
      case Throw => Throw
      case Normal(doc) =>
        match UpdateExperimental(Or(exp0, EmptyObject), command, finalArgs, env)
        case Throw => Throw
        case Normal(e3) => SetProp(doc, ExperimentalKey, e3)
  }

  /** The assignments of `MergeContinue` on an object. */
  lemma ContinueSteps(config: Json, command: string, finalArgs: seq<string>, env: seq<(string, Json)>)
    requires config.JObj?
    ensures var exp0 := GetProp(config, ExperimentalKey);
      var fs := if Truthy(exp0) then config.fields else Put(config.fields, ExperimentalKey, EmptyObject);
      MergeContinue(config, command, finalArgs, env) ==
        match UpdateExperimental(Or(exp0, EmptyObject), command, finalArgs, env)
        case Throw => Throw
        case Normal(e3) => Normal(JObj(Put(fs, ExperimentalKey, e3)))
  {
  }

  /** On a well-shaped document the Continue merge succeeds unless the
      search throws: it sets `useTools`, replaces or appends the entry as
      `UpdateTransports` does, and leaves every other top-level key alone. */
  lemma ContinueInstall(config: Json, command: string, finalArgs: seq<string>, env: seq<(string, Json)>)
    requires IsContinueDocument(config)
    requires !FindIndex(Transports(config), command, finalArgs).Crashed?
    ensures var r := MergeContinue(config, command, finalArgs, env);
      && r.Normal? && IsContinueDocument(r.value)
      && Transports(r.value) == UpdateTransports(JArr(Transports(config)), command, finalArgs, env).value.items
      && GetProp(GetProp(r.value, ExperimentalKey).value, "useTools") == Defined(JBool(true))
      && forall k :: k != ExperimentalKey ==> GetProp(r.value, k) == GetProp(config, k)
  {
    var exp0 := GetProp(config, ExperimentalKey);
    var exp := Or(exp0, EmptyObject);
    assert HasServerList(exp) && ServerList(exp) == Transports(config);
    ExperimentalUpdate(exp, command, finalArgs, env);
    ContinueSteps(config, command, finalArgs, env);
    var e3 := UpdateExperimental(exp, command, finalArgs, env).value;
    var fs := if Truthy(exp0) then config.fields else Put(config.fields, ExperimentalKey, EmptyObject);
    var result := JObj(Put(fs, ExperimentalKey, e3));
    assert forall k :: k != ExperimentalKey ==> Lookup(fs, k) == Lookup(config.fields, k);
    var list2 := UpdateTransports(JArr(Transports(config)), command, finalArgs, env).value;
    TransportsOf(result, e3, list2);
  }

  /** An existing `experimental` object keeps every property other than
      `useTools` and the server list. */
  lemma ContinueKeepsExperimental(config: Json, command: string, finalArgs: seq<string>, env: seq<(string, Json)>)
    requires IsContinueDocument(config) && Truthy(GetProp(config, ExperimentalKey))
    requires !FindIndex(Transports(config), command, finalArgs).Crashed?
    ensures MergeContinue(config, command, finalArgs, env).Normal?
    ensures var exp := GetProp(MergeContinue(config, command, finalArgs, env).value, ExperimentalKey);
      && exp.Defined?
      && forall k :: k != TransportsKey && k != "useTools" ==>
           GetProp(exp.value, k) == GetProp(GetProp(config, ExperimentalKey).value, k)
  {
    var exp := GetProp(config, ExperimentalKey).value;
    ExperimentalKeeps(exp, Transports(config), command, finalArgs, env);
    var e3 := UpdateExperimental(exp, command, finalArgs, env).value;
    assert MergeContinue(config, command, finalArgs, env) == Normal(JObj(Put(config.fields, ExperimentalKey, e3))) by {
      ContinueSteps(config, command, finalArgs, env);
      assert Or(GetProp(config, ExperimentalKey), EmptyObject) == exp;
    }
    StoredAt(config.fields, ExperimentalKey, e3);
  }

  lemma StoredAt(fs: seq<(string, Json)>, key: string, v: Json)
    ensures GetProp(JObj(Put(fs, key, v)), key) == Defined(v)
  {
  }

  /** The part of `ExperimentalUpdate` the lemma above needs. */
  lemma ExperimentalKeeps(exp: Json, list: seq<Json>, command: string, finalArgs: seq<string>, env: seq<(string, Json)>)
    requires HasServerList(exp) && ServerList(exp) == list
    requires !FindIndex(list, command, finalArgs).Crashed?
    ensures UpdateExperimental(exp, command, finalArgs, env).Normal?
    ensures forall k :: k != TransportsKey && k != "useTools" ==>
      GetProp(UpdateExperimental(exp, command, finalArgs, env).value, k) == GetProp(exp, k)
  {
    ExperimentalUpdate(exp, command, finalArgs, env);
  }

  lemma TransportsOf(doc: Json, exp: Json, list: Json)
    requires doc.JObj? && GetProp(doc, ExperimentalKey) == Defined(exp)
    requires exp.JObj? && GetProp(exp, TransportsKey) == Defined(list) && list.JArr?
    ensures IsContinueDocument(doc) && Transports(doc) == list.items
  {
  }

  /** When reading some entry's `transport.command` throws before a match is
      found, the whole install throws. */
  lemma ContinueCrash(config: Json, command: string, finalArgs: seq<string>, env: seq<(string, Json)>)
    requires IsContinueDocument(config)
    ensures FindIndex(Transports(config), command, finalArgs).Crashed? ==>
      MergeContinue(config, command, finalArgs, env) == Throw
  {
    var exp := Or(GetProp(config, ExperimentalKey), EmptyObject);
    assert HasServerList(exp) && ServerList(exp) == Transports(config);
    ExperimentalUpdate(exp, command, finalArgs, env);
    ContinueSteps(config, command, finalArgs, env);
  }

  /** The search stops at the first match when everything before it is
      looked at without matching. */
  lemma {:induction false} FirstHit(list: seq<Json>, command: string, finalArgs: seq<string>, from: nat, i: nat)
    requires from <= i < |list|
    requires AllMiss(list, command, finalArgs, from, i)
    requires InstallProbe(list[i], command, finalArgs) == Hit
    ensures FindFrom(list, command, finalArgs, from) == Found(i)
    decreases i - from
  {
    var p := InstallProbe(list[from], command, finalArgs);
    if from < i {
      assert p == Miss;
      assert FindFrom(list, command, finalArgs, from) == FindFrom(list, command, finalArgs, from + 1);
      assert AllMiss(list, command, finalArgs, from + 1, i);
      FirstHit(list, command, finalArgs, from + 1, i);
    } else {
      assert p == Hit;
    }
  }

  /** An entry carrying the transport just written matches it. */
  lemma WrittenTransportMatches(entry: Json, command: string, finalArgs: seq<string>, env: seq<(string, Json)>)
    requires entry.JObj?
    requires GetProp(entry, "transport") == Defined(Transport(finalArgs, command, env))
    ensures InstallProbe(entry, command, finalArgs) == Hit
  {
    var t := Transport(finalArgs, command, env);
    var fs := t.fields;
    assert fs[0].0 != "command" by {
      assert fs[0].0[0] != "command"[0];
    }
    LookupCons(fs[0], fs[1..], "command");
    assert [fs[0]] + fs[1..] == fs;
    assert GetProp(t, "command") == Defined(JStr(command));
  }

  /** An entry carrying the transport written for `a` misses any other
      argument list of the same command: the two lists serialise apart. */
  lemma WrittenTransportMissesOther(entry: Json, command: string, a: seq<string>, b: seq<string>, env: seq<(string, Json)>)
    requires entry.JObj? && a != b
    requires GetProp(entry, "transport") == Defined(Transport(a, command, env))
    ensures InstallProbe(entry, command, b) == Miss
  {
    WrittenTransportMatches(entry, command, a, env);
    if InstallProbe(entry, command, b) == Hit {
      StrArrayInjective(a, b);
    }
  }

  /** A list without a match for `b` still has none once the entry for `a`
      is written into it. */
  lemma UpdatedListMisses(list: seq<Json>, command: string, a: seq<string>, b: seq<string>, env: seq<(string, Json)>)
    requires a != b
    requires !FindIndex(list, command, a).Crashed?
    requires FindIndex(list, command, b).NotFound?
    ensures UpdateTransports(JArr(list), command, a, env).Normal?
    ensures FindIndex(UpdateTransports(JArr(list), command, a, env).value.items, command, b).NotFound?
  {
    var t := Transport(a, command, env);
    var once := UpdateTransports(JArr(list), command, a, env).value.items;
    var i := if FindIndex(list, command, a).Found? then FindIndex(list, command, a).index else |list|;
    assert i < |once| && once[i].JObj? && GetProp(once[i], "transport") == Defined(t);
    assert |once| == |list| || |once| == |list| + 1;
    assert forall j :: 0 <= j < |once| && j != i ==> once[j] == list[j];
    WrittenTransportMissesOther(once[i], command, a, b, env);
    assert AllMiss(list, command, b, 0, |list|);
    assert AllMiss(once, command, b, 0, |once|);
  }

  /** Updating the list a second time finds the entry the first update
      wrote, at the same position, and rewrites it unchanged. */
  lemma UpdateTransportsIdempotent(list: seq<Json>, command: string, finalArgs: seq<string>, env: seq<(string, Json)>)
    requires !FindIndex(list, command, finalArgs).Crashed?
    ensures UpdateTransports(JArr(list), command, finalArgs, env).Normal?
    ensures var once := UpdateTransports(JArr(list), command, finalArgs, env).value;
      UpdateTransports(once, command, finalArgs, env) == Normal(once)
  {
    var t := Transport(finalArgs, command, env);
    var once := UpdateTransports(JArr(list), command, finalArgs, env).value.items;
    var i := if FindIndex(list, command, finalArgs).Found? then FindIndex(list, command, finalArgs).index else |list|;
    assert i < |once| && once[i].JObj? && GetProp(once[i], "transport") == Defined(t);
    assert AllMiss(list, command, finalArgs, 0, i);
    assert forall j :: 0 <= j < i ==> once[j] == list[j];
    assert AllMiss(once, command, finalArgs, 0, i);
    UpdateWritten(once, i, command, finalArgs, env);
  }

  /** A list whose first match carries the transport just written is left
      as it is by another update. */
  lemma UpdateWritten(list: seq<Json>, i: nat, command: string, finalArgs: seq<string>, env: seq<(string, Json)>)
    requires i < |list| && list[i].JObj?
    requires GetProp(list[i], "transport") == Defined(Transport(finalArgs, command, env))
    requires AllMiss(list, command, finalArgs, 0, i)
    ensures UpdateTransports(JArr(list), command, finalArgs, env) == Normal(JArr(list))
  {
    var t := Transport(finalArgs, command, env);
    WrittenTransportMatches(list[i], command, finalArgs, env);
    FirstHit(list, command, finalArgs, 0, i);
    RewriteSame(list[i], "transport", t);
    assert list[i := list[i]] == list;
  }

  /** A second install of the same server into Continue's configuration
      leaves the document as the first one wrote it. */
  lemma ContinueInstallIdempotent(config: Json, command: string, finalArgs: seq<string>, env: seq<(string, Json)>)
    requires IsContinueDocument(config)
    requires !FindIndex(Transports(config), command, finalArgs).Crashed?
    ensures MergeContinue(config, command, finalArgs, env).Normal?
    ensures var once := MergeContinue(config, command, finalArgs, env).value;
      MergeContinue(once, command, finalArgs, env) == Normal(once)
  {
    ContinueInstall(config, command, finalArgs, env);
    var once := MergeContinue(config, command, finalArgs, env).value;
    var exp := GetProp(once, ExperimentalKey).value;
    var list := UpdateTransports(JArr(Transports(config)), command, finalArgs, env).value;
    assert exp.JObj? && GetProp(exp, TransportsKey) == Defined(list);
    UpdateTransportsIdempotent(Transports(config), command, finalArgs, env);
    UpdateExperimentalSame(exp, list, command, finalArgs, env);
    ContinueSteps(once, command, finalArgs, env);
    PutSame(once.fields, ExperimentalKey, exp);
  }

  /** Installing the same command with another argument list, as a server
      whose runtime arguments resolve differently does, adds a second
      entry: the list the first install wrote is kept as it is and the new
      transport is appended after it. */
  lemma ContinueSecondEntry(config: Json, command: string, a: seq<string>, b: seq<string>,
                            env1: seq<(string, Json)>, env2: seq<(string, Json)>)
    requires IsContinueDocument(config) && a != b
    requires !FindIndex(Transports(config), command, a).Crashed?
    requires FindIndex(Transports(config), command, b).NotFound?
    ensures var once := MergeContinue(config, command, a, env1);
      && once.Normal? && IsContinueDocument(once.value)
      && var twice := MergeContinue(once.value, command, b, env2);
      && twice.Normal? && IsContinueDocument(twice.value)
      && Transports(twice.value) == Transports(once.value) + [TransportEntry(Transport(b, command, env2))]
  {
    ContinueInstall(config, command, a, env1);
    var once := MergeContinue(config, command, a, env1).value;
    UpdatedListMisses(Transports(config), command, a, b, env1);
    ContinueInstall(once, command, b, env2);
  }

  /** Updating an `experimental` object that already holds what the update
      would write leaves it as it is. */
  lemma UpdateExperimentalSame(exp: Json, list: Json, command: string, finalArgs: seq<string>, env: seq<(string, Json)>)
    requires exp.JObj? && GetProp(exp, "useTools") == Defined(JBool(true))
    requires GetProp(exp, TransportsKey) == Defined(list) && list.JArr?
    ensures UpdateTransports(list, command, finalArgs, env) == Normal(list) ==>
      UpdateExperimental(exp, command, finalArgs, env) == Normal(exp)
  {
    assert Or(GetProp(exp, TransportsKey), JArr([])) == JArr(list.items);
    ExperimentalSteps(exp, list.items, command, finalArgs, env);
    PutSame(exp.fields, "useTools", JBool(true));
    PutSame(exp.fields, TransportsKey, list);
    var fs := Put(Put(Put(exp.fields, "useTools", JBool(true)), TransportsKey, list), TransportsKey, list);
    assert fs == exp.fields;
    if UpdateTransports(list, command, finalArgs, env) == Normal(list) {
      assert UpdateExperimental(exp, command, finalArgs, env) == Normal(JObj(fs));
    }
  }


  // ---------------------------------------------------------------------
  // The command

  /** The merge for the chosen client. */
  function Merge(client: string, config: Json, server: Server, c: Collected): Completion<Json> {
    if client == ClaudeClient then MergeClaude(config, server.id, ClaudeEntry(c.finalArgs, server.config.command, c.env))
    else MergeContinue(config, server.config.command, c.finalArgs, c.env)
  }

  /** `installMCPServer` once the file has been read: the prompts, the
      merge, and the write. */
  function InstallInto(server: Server, client: string, path: Path, config: Json, user: string, responses: seq<string>)
    : (o: Outcome)
    ensures o.Write? ==> o.path == path
    ensures o.Fail? ==> o.reason == PromptAborted || o.reason == TypeError
    ensures o.Write? <==>
      Collect(server, user, responses).Some? && Merge(client, config, server, Collect(server, user, responses).value).Normal?
    ensures o.Write? ==> o.doc == Merge(client, config, server, Collect(server, user, responses).value).value
  {
    match Collect(server, user, responses)
    case None => Fail(PromptAborted)
    case Some(c) =>
      match Merge(client, config, server, c)
      case Throw => Fail(TypeError)
      case Normal(doc) => Write(path, doc)
  }

  /** Everything `install` checks before the first prompt: the id, the
      platform, the client, and the file. A missing file stands for an
      empty document. */
  function Preflight(registry: seq<Server>, id: string, client: string, platform: Platform, home: string, read: ReadResult)
    : (r: Result<(Server, Path, Json)>)
    ensures !IsRegistered(registry, id) ==> r == Err(UnknownServer)
    ensures ValidateServer(registry, id).Ok? && platform == OtherPlatform ==> r == Err(UnsupportedPlatform)
    ensures ValidateServer(registry, id).Ok? && platform == Win32 ==> r == Err(NotImplemented)
    ensures r.Ok? ==>
      && ValidateServer(registry, id) == Ok(r.value.0) && platform == Darwin && IsKnownClient(client)
      && r.value.1 == (if client == ClaudeClient then ClaudeConfigPath(home) else ContinueConfigPath(home))
      && !read.Malformed? && r.value.2 == (if read.Parsed? then read.doc else EmptyObject)
  {
    match ValidateServer(registry, id)
    case Err(f) => Err(f)
    case Ok(server) =>
      match platform
      case OtherPlatform => Err(UnsupportedPlatform)
      case Win32 => Err(NotImplemented)
      case Darwin =>
        match InstallConfigPath(client, home)
        case Err(f) => Err(f)
        case Ok(path) =>
          match read
          case Malformed => Err(ReadFailed)
          case Absent => Ok((server, path, EmptyObject))
          case Parsed(doc) => Ok((server, path, doc))
  }

  /** `install <id> --client <client>`: `read` is how reading the client's
      file ends, `home` and `user` are the OS home directory and user name,
      and `responses` are the submissions typed at the prompts. */
  function RunInstall(
    registry: seq<Server>, id: string, client: string, platform: Platform,
    home: string, user: string, read: ReadResult, responses: seq<string>): (o: Outcome)
    ensures !IsRegistered(registry, id) ==> o == Fail(UnknownServer)
    ensures o.Write? ==>
      && ValidateServer(registry, id).Ok? && platform == Darwin && IsKnownClient(client) && !read.Malformed?
      && o.path == if client == ClaudeClient then ClaudeConfigPath(home) else ContinueConfigPath(home)
  {
    match Preflight(registry, id, client, platform, home, read)
    case Err(f) => Fail(f)
    case Ok((server, path, config)) => InstallInto(server, client, path, config, user, responses)
  }

  /** What `install --client claude` writes: once the server is valid, the
      platform is macOS, the file was readable and the prompts were
      answered, the merged document goes to Claude Desktop's path, with the
      new entry under the server's id and every other property kept. */
  lemma ClaudeCommandWrites(
    registry: seq<Server>, id: string, platform: Platform,
    home: string, user: string, read: ReadResult, responses: seq<string>)
    requires read.Parsed? ==> IsClaudeDocument(read.doc)
    ensures var o := RunInstall(registry, id, ClaudeClient, platform, home, user, read, responses);
      var doc := if read.Parsed? then read.doc else EmptyObject;
      && (o.Write? <==>
            && ValidateServer(registry, id).Ok? && platform == Darwin && !read.Malformed?
            && Collect(ValidateServer(registry, id).value, user, responses).Some?)
      && (o.Write? ==>
            var server := ValidateServer(registry, id).value;
            var c := Collect(server, user, responses).value;
            && o.path == ClaudeConfigPath(home)
            && IsClaudeDocument(o.doc)
            && ClaudeServers(o.doc) == Put(ClaudeServers(doc), id, ClaudeEntry(c.finalArgs, server.config.command, c.env))
            && forall k :: k != ServersKey ==> GetProp(o.doc, k) == GetProp(doc, k))
  {
    var doc := if read.Parsed? then read.doc else EmptyObject;
    if ValidateServer(registry, id).Ok? && platform == Darwin && !read.Malformed? {
      var server := ValidateServer(registry, id).value;
      assert Preflight(registry, id, ClaudeClient, platform, home, read) == Ok((server, ClaudeConfigPath(home), doc));
      if Collect(server, user, responses).Some? {
        var c := Collect(server, user, responses).value;
        ClaudeInstall(doc, id, ClaudeEntry(c.finalArgs, server.config.command, c.env));
      }
    }
  }

  /** What `install --client continue` writes: once the server is valid,
      the platform is macOS, the file was readable, the prompts were
      answered and the search did not throw, the merged document goes to
      Continue's path, with the updated server list and every other
      top-level property kept. */
  lemma ContinueCommandWrites(
    registry: seq<Server>, id: string, platform: Platform,
    home: string, user: string, read: ReadResult, responses: seq<string>)
    requires read.Parsed? ==> IsContinueDocument(read.doc)
    ensures var o := RunInstall(registry, id, ContinueClient, platform, home, user, read, responses);
      var doc := if read.Parsed? then read.doc else EmptyObject;
      && (o.Write? <==>
            && ValidateServer(registry, id).Ok? && platform == Darwin && !read.Malformed?
            && Collect(ValidateServer(registry, id).value, user, responses).Some?
            && !FindIndex(Transports(doc), ValidateServer(registry, id).value.config.command,
                          Collect(ValidateServer(registry, id).value, user, responses).value.finalArgs).Crashed?)
      && (o.Write? ==>
            var server := ValidateServer(registry, id).value;
            var c := Collect(server, user, responses).value;
            && o.path == ContinueConfigPath(home)
            && IsContinueDocument(o.doc)
            && Transports(o.doc) == UpdateTransports(JArr(Transports(doc)), server.config.command, c.finalArgs, c.env).value.items
            && forall k :: k != ExperimentalKey ==> GetProp(o.doc, k) == GetProp(doc, k))
  {
    var doc := if read.Parsed? then read.doc else EmptyObject;
    if ValidateServer(registry, id).Ok? && platform == Darwin && !read.Malformed? {
      var server := ValidateServer(registry, id).value;
      assert Preflight(registry, id, ContinueClient, platform, home, read) == Ok((server, ContinueConfigPath(home), doc));
      if Collect(server, user, responses).Some? {
        var c := Collect(server, user, responses).value;
        if FindIndex(Transports(doc), server.config.command, c.finalArgs).Crashed? {
          ContinueCrash(doc, server.config.command, c.finalArgs, c.env);
        } else {
          ContinueInstall(doc, server.config.command, c.finalArgs, c.env);
        }
      }
    }
  }
}
