/**
 * The `list` command: which registry servers each client's configuration
 * holds, and the tree of lines printed for them.
 *
 * The two clients are recognised differently. For Claude Desktop a server
 * is listed when its id is a key of `mcpServers`. For Continue a registry
 * server is listed when some stored transport has its command and starts
 * with its static arguments.
 */
module Listing {
  import opened Wrappers
  import opened Json
  import opened Types
  import opened Config
  import opened Install

  /** How one client's scan ends: with the ids to show, or by throwing. */
  datatype Scan = Listed(ids: seq<string>) | Raised

  /** `keys.filter(id => servers.some(s => s.id === id))`. */
  function RegisteredOnly(keys: seq<string>, registry: seq<Server>): (r: seq<string>)
    ensures |r| <= |keys|
    ensures forall k :: k in r <==> k in keys && IsRegistered(registry, k)
  {
    if |keys| == 0 then []
    else
      var rest := RegisteredOnly(keys[1..], registry);
      assert forall k :: k in keys <==> k == keys[0] || k in keys[1..];
      if IsRegistered(registry, keys[0]) then [keys[0]] + rest else rest
  }

  /** `listClaudeServers`: the registered keys of `mcpServers || {}`. A
      missing file lists nothing; an unreadable one, or a `null` document,
      throws. */
  function ClaudeIds(registry: seq<Server>, read: ReadResult): (r: Scan)
    ensures read.Absent? ==> r == Listed([])
    ensures read.Malformed? || (read.Parsed? && read.doc.JNull?) ==> r == Raised
    ensures read.Parsed? && IsClaudeDocument(read.doc) ==>
      r.Listed? && forall id :: id in r.ids <==> id in Keys(ClaudeServers(read.doc)) && IsRegistered(registry, id)
  {
    match read
    case Absent => Listed([])
    case Malformed => Raised
    case Parsed(doc) =>
      if doc.JNull? then Raised
      else Listed(RegisteredOnly(OwnKeys(Or(GetProp(doc, ServersKey), EmptyObject)), registry))
  }

  /** The `some` callback on one stored entry, for one registry server:
      `installed.transport.command === command &&
      JSON.stringify(installed.transport.args.slice(0, n)) ===
      JSON.stringify(args)` with `n` the length of the registry arguments.
      `slice` of a string gives a string, which never serialises like an
      array; on anything but an array or a string it throws. */
  function ListProbe(installed: Json, command: string, args: seq<string>): (r: Probe)
    ensures r != Crash && !installed.JNull? ==>
      GetProp(installed, "transport").Defined? && !GetProp(installed, "transport").value.JNull?
    ensures r == Hit ==>
      && !installed.JNull? && GetProp(installed, "transport").Defined?
      && var t := GetProp(installed, "transport").value;
      && GetProp(t, "command") == Defined(JStr(command))
      && GetProp(t, "args").Defined? && GetProp(t, "args").value.JArr?
      && |GetProp(t, "args").value.items| >= |args|
      && GetProp(t, "args").value.items[..|args|] == StrArray(args).items
  {
    match Member(Defined(installed), "transport")
    case Throw => Crash
    case Normal(t) =>
      match Member(t, "command")
      case Throw => Crash
      case Normal(c) =>
        if c != Defined(JStr(command)) then Miss
        else
          match GetProp(t.value, "args")
          case Undefined => Crash
          case Defined(a) =>
            match a
            case JArr(xs) =>
              var n := if |args| < |xs| then |args| else |xs|;
              if xs[..n] == StrArray(args).items then Hit else Miss
            case JStr(_) => Miss
            case _ => Crash
  }

  /** Every entry in `[from, to)` is looked at without matching. */
  predicate AllMissed(installed: seq<Json>, command: string, args: seq<string>, from: nat, to: nat)
    requires from <= to <= |installed|
  {
    forall j :: from <= j < to ==> ListProbe(installed[j], command, args) == Miss
  }

  /** `installed.some(callback)` from position `from` on: true at the first
      match, a throw at the first entry whose probe throws before one. */
  function SomeFrom(installed: seq<Json>, command: string, args: seq<string>, from: nat): (r: Probe)
    requires from <= |installed|
    ensures r == Hit ==>
      exists j :: from <= j < |installed| && ListProbe(installed[j], command, args) == Hit
        && AllMissed(installed, command, args, from, j)
    ensures r == Crash ==>
      exists j :: from <= j < |installed| && ListProbe(installed[j], command, args) == Crash
        && AllMissed(installed, command, args, from, j)
    ensures r == Miss <==> AllMissed(installed, command, args, from, |installed|)
    decreases |installed| - from
  {
    if from == |installed| then Miss
    else
      match ListProbe(installed[from], command, args)
      case Hit => Hit
      case Crash => Crash
      case Miss => SomeFrom(installed, command, args, from + 1)
  }

  /** `servers.filter(s => installed.some(...)).map(s => s.id)`: the scan
      completes unless the search throws for some registry server. Which
      ids it shows is stated by `MatchedIdsExact`. */
  function MatchedIds(installed: seq<Json>, registry: seq<Server>): (r: Scan)
    ensures r.Listed? ==> |r.ids| <= |registry|
    ensures r.Listed? <==> forall i :: 0 <= i < |registry| ==>
      SomeFrom(installed, registry[i].config.command, registry[i].config.args, 0) != Crash
  {
    if |registry| == 0 then Listed([])
    else
      var s := registry[0];
      var probe := SomeFrom(installed, s.config.command, s.config.args, 0);
      var rest := MatchedIds(installed, registry[1..]);
      assert forall i :: 1 <= i < |registry| ==> registry[i] == registry[1..][i - 1];
      if probe == Crash || rest.Raised? then Raised
      else Listed(if probe == Hit then [s.id] + rest.ids else rest.ids)
  }

  /** When no entry's probe throws, `some` is true exactly when some entry
      matches. */
  lemma SomeFromExact(installed: seq<Json>, command: string, args: seq<string>)
    requires forall j :: 0 <= j < |installed| ==> ListProbe(installed[j], command, args) != Crash
    ensures SomeFrom(installed, command, args, 0) != Crash
    ensures SomeFrom(installed, command, args, 0) == Hit <==>
      exists j :: 0 <= j < |installed| && ListProbe(installed[j], command, args) == Hit
  {
  }

  /** A completed scan shows a registry server exactly when some stored
      entry matches it. */
  lemma {:induction false} MatchedIdsExact(installed: seq<Json>, registry: seq<Server>)
    requires MatchedIds(installed, registry).Listed?
    ensures forall i :: 0 <= i < |registry| && Matches(installed, registry[i]) ==>
      registry[i].id in MatchedIds(installed, registry).ids
    ensures forall id :: id in MatchedIds(installed, registry).ids ==>
      exists i :: 0 <= i < |registry| && registry[i].id == id && Matches(installed, registry[i])
  {
    if |registry| > 0 {
      var rest := MatchedIds(installed, registry[1..]);
      assert rest.Listed?;
      MatchedIdsExact(installed, registry[1..]);
      var ids := MatchedIds(installed, registry).ids;
      assert ids == if Matches(installed, registry[0]) then [registry[0].id] + rest.ids else rest.ids;
      MatchedIdsStepShown(installed, registry, rest.ids, ids);
      MatchedIdsStepOnly(installed, registry, rest.ids, ids);
    }
  }

  /** A registry server whose command and arguments some entry has. */
  predicate Matches(installed: seq<Json>, s: Server) {
    SomeFrom(installed, s.config.command, s.config.args, 0) == Hit
  }

  lemma MatchedIdsStepShown(installed: seq<Json>, registry: seq<Server>, rest: seq<string>, ids: seq<string>)
    requires |registry| > 0
    requires ids == if Matches(installed, registry[0]) then [registry[0].id] + rest else rest
    requires forall i :: 0 <= i < |registry[1..]| && Matches(installed, registry[1..][i]) ==> registry[1..][i].id in rest
    ensures forall i :: 0 <= i < |registry| && Matches(installed, registry[i]) ==> registry[i].id in ids
  {
    forall i | 0 <= i < |registry| && Matches(installed, registry[i])
      ensures registry[i].id in ids
    {
      if i == 0 {
        assert ids[0] == registry[0].id;
      } else {
        var t := registry[1..];
        assert registry[i] == t[i - 1];
        assert t[i - 1].id in rest;
      }
    }
  }

  lemma MatchedIdsStepOnly(installed: seq<Json>, registry: seq<Server>, rest: seq<string>, ids: seq<string>)
    requires |registry| > 0
    requires ids == if Matches(installed, registry[0]) then [registry[0].id] + rest else rest
    requires forall id :: id in rest ==>
      exists i :: 0 <= i < |registry[1..]| && registry[1..][i].id == id && Matches(installed, registry[1..][i])
    ensures forall id :: id in ids ==>
      exists i :: 0 <= i < |registry| && registry[i].id == id && Matches(installed, registry[i])
  {
    forall id | id in ids
      ensures exists i :: 0 <= i < |registry| && registry[i].id == id && Matches(installed, registry[i])
    {
      if id !in rest {
        assert registry[0].id == id;
      } else {
        var i :| 0 <= i < |registry[1..]| && registry[1..][i].id == id && Matches(installed, registry[1..][i]);
        assert registry[i + 1] == registry[1..][i];
      }
    }
  }

  /** The server list `config.experimental?.modelContextProtocolServers || []`. */
  function InstalledList(doc: Json): Json
    requires !doc.JNull?
  {
    var exp := GetProp(doc, ExperimentalKey);
    if exp.Undefined? || exp.value.JNull? then JArr([])
    else Or(GetProp(exp.value, TransportsKey), JArr([]))
  }

  /** `listContinueServers`. With a non-empty registry, a server list that
      is not an array throws, since it has no `some`. */
  function ContinueIds(registry: seq<Server>, read: ReadResult): (r: Scan)
    ensures read.Absent? ==> r == Listed([])
    ensures read.Malformed? || (read.Parsed? && read.doc.JNull?) ==> r == Raised
    ensures read.Parsed? && IsContinueDocument(read.doc) ==> r == MatchedIds(Transports(read.doc), registry)
  {
    match read
    case Absent => Listed([])
    case Malformed => Raised
    case Parsed(doc) =>
      if doc.JNull? then Raised
      else
        var installed := InstalledList(doc);
        if |registry| == 0 then Listed([])
        else if !installed.JArr? then Raised
        else MatchedIds(installed.items, registry)
  }

  // ---------------------------------------------------------------------
  // Order of the listed ids

  /** `a` is `b` with some elements left out, the rest in their order. */
  predicate Subsequence<T(==)>(a: seq<T>, b: seq<T>)
    decreases |b|
  {
    if |b| == 0 then |a| == 0
    else (|a| > 0 && a[0] == b[0] && Subsequence(a[1..], b[1..])) || Subsequence(a, b[1..])
  }

  predicate Distinct<T(==)>(s: seq<T>) {
    forall i, j :: 0 <= i < j < |s| ==> s[i] != s[j]
  }

  lemma {:induction false} SubsequenceMembers<T>(a: seq<T>, b: seq<T>)
    requires Subsequence(a, b)
    ensures forall x :: x in a ==> x in b
    decreases |b|
  {
    if |b| > 0 {
      if |a| > 0 && a[0] == b[0] && Subsequence(a[1..], b[1..]) {
        SubsequenceMembers(a[1..], b[1..]);
        assert forall x :: x in a ==> x == a[0] || x in a[1..];
      } else {
        SubsequenceMembers(a, b[1..]);
      }
    }
  }

  /** Leaving elements out of a sequence without repetitions cannot create
      one. */
  lemma {:induction false} SubsequenceDistinct<T>(a: seq<T>, b: seq<T>)
    requires Subsequence(a, b) && Distinct(b)
    ensures Distinct(a)
    decreases |b|
  {
    if |b| > 0 {
      assert Distinct(b[1..]) by {
        forall i, j | 0 <= i < j < |b| - 1
          ensures b[1..][i] != b[1..][j]
        {
          assert b[1..][i] == b[i + 1] && b[1..][j] == b[j + 1];
        }
      }
      if |a| > 0 && a[0] == b[0] && Subsequence(a[1..], b[1..]) {
        SubsequenceDistinct(a[1..], b[1..]);
        SubsequenceMembers(a[1..], b[1..]);
        assert b[0] !in b[1..] by {
          forall j | 0 <= j < |b| - 1
            ensures b[1..][j] != b[0]
          {
            assert b[1..][j] == b[j + 1];
          }
        }
        forall i, j | 0 <= i < j < |a|
          ensures a[i] != a[j]
        {
          assert a[j] == a[1..][j - 1];
          if i > 0 {
            assert a[i] == a[1..][i - 1];
          }
        }
      } else {
        SubsequenceDistinct(a, b[1..]);
      }
    }
  }

  /** Claude Desktop's servers are listed in the order of the keys of
      `mcpServers`. */
  lemma {:induction false} RegisteredInKeyOrder(keys: seq<string>, registry: seq<Server>)
    ensures Subsequence(RegisteredOnly(keys, registry), keys)
    decreases |keys|
  {
    if |keys| > 0 {
      var rest := RegisteredOnly(keys[1..], registry);
      RegisteredInKeyOrder(keys[1..], registry);
      if IsRegistered(registry, keys[0]) {
        assert ([keys[0]] + rest)[1..] == rest;
      }
    }
  }

  /** The Claude Desktop listing in full: key order, and no id twice. */
  lemma ClaudeInKeyOrder(registry: seq<Server>, doc: Json)
    requires IsClaudeDocument(doc) && UniqueKeys(ClaudeServers(doc))
    ensures var scan := ClaudeIds(registry, Parsed(doc));
      && scan.Listed?
      && Subsequence(scan.ids, Keys(ClaudeServers(doc)))
      && Distinct(scan.ids)
  {
    var keys := Keys(ClaudeServers(doc));
    assert OwnKeys(Or(GetProp(doc, ServersKey), EmptyObject)) == keys;
    RegisteredInKeyOrder(keys, registry);
    SubsequenceDistinct(RegisteredOnly(keys, registry), keys);
  }

  /** The ids of the registry, in its order. */
  function RegistryIds(registry: seq<Server>): (ids: seq<string>)
    ensures |ids| == |registry| && forall i :: 0 <= i < |registry| ==> ids[i] == registry[i].id
  {
    seq(|registry|, i requires 0 <= i < |registry| => registry[i].id)
  }

  /** Continue's servers are listed in registry order, so each at most once
      when the registry's ids are distinct. */
  lemma MatchedInRegistryOrder(installed: seq<Json>, registry: seq<Server>)
    requires MatchedIds(installed, registry).Listed?
    ensures Subsequence(MatchedIds(installed, registry).ids, RegistryIds(registry))
    ensures Distinct(RegistryIds(registry)) ==> Distinct(MatchedIds(installed, registry).ids)
  {
    MatchedSubsequence(installed, registry);
    if Distinct(RegistryIds(registry)) {
      SubsequenceDistinct(MatchedIds(installed, registry).ids, RegistryIds(registry));
    }
  }

  lemma {:induction false} MatchedSubsequence(installed: seq<Json>, registry: seq<Server>)
    requires MatchedIds(installed, registry).Listed?
    ensures Subsequence(MatchedIds(installed, registry).ids, RegistryIds(registry))
    decreases |registry|
  {
    if |registry| > 0 {
      var ids := MatchedIds(installed, registry).ids;
      var rest := MatchedIds(installed, registry[1..]);
      assert rest.Listed?;
      MatchedSubsequence(installed, registry[1..]);
      assert RegistryIds(registry)[1..] == RegistryIds(registry[1..]);
      if Matches(installed, registry[0]) {
        assert ids == [registry[0].id] + rest.ids;
        assert ids[1..] == rest.ids;
      } else {
        assert ids == rest.ids;
      }
    }
  }

  // ---------------------------------------------------------------------
  // Output

  /** The tree prefixes "├── " and "└── ". */
  datatype Branch = Tee | Corner

  /** A printed line: a client heading, a listed server, or the closing
      message naming the client when a flag chose one. */
  datatype Line = Heading(client: string) | Item(branch: Branch, id: string) | NoServers(named: Option<string>)

  function DisplayName(client: string): string {
    if client == ClaudeClient then "Claude Desktop" else "Continue"
  }

  /** A heading and one line per id, the last one with the corner; nothing
      when there are no ids. */
  function Tree(client: string, ids: seq<string>): (lines: seq<Line>)
    ensures |ids| == 0 <==> lines == []
    ensures |ids| > 0 ==> |lines| == |ids| + 1 && lines[0] == Heading(DisplayName(client))
  {
    if |ids| == 0 then []
    else
      [Heading(DisplayName(client))]
        + seq(|ids|, i requires 0 <= i < |ids| => Item(if i == |ids| - 1 then Corner else Tee, ids[i]))
  }

  /** The ids a block of lines shows, in order. */
  function ItemIds(lines: seq<Line>): seq<string> {
    if |lines| == 0 then []
    else (if lines[0].Item? then [lines[0].id] else []) + ItemIds(lines[1..])
  }

  lemma {:induction false} ItemIdsAppend(a: seq<Line>, b: seq<Line>)
    ensures ItemIds(a + b) == ItemIds(a) + ItemIds(b)
    decreases |a|
  {
    if |a| == 0 {
      assert a + b == b;
    } else {
      assert (a + b)[0] == a[0];
      assert (a + b)[1..] == a[1..] + b;
      ItemIdsAppend(a[1..], b);
    }
  }

  lemma {:induction false} ItemIdsOfItems(ids: seq<string>, n: nat, k: nat)
    requires k <= |ids| <= n
    ensures ItemIds(seq(|ids| - k, i requires 0 <= i < |ids| - k => Item(if i + k == n - 1 then Corner else Tee, ids[i + k]))) == ids[k..]
    decreases |ids| - k
  {
    var items := seq(|ids| - k, i requires 0 <= i < |ids| - k => Item(if i + k == n - 1 then Corner else Tee, ids[i + k]));
    if k == |ids| {
      assert items == [];
    } else {
      ItemIdsOfItems(ids, n, k + 1);
      var tail := seq(|ids| - (k + 1), i requires 0 <= i < |ids| - (k + 1) => Item(if i + (k + 1) == n - 1 then Corner else Tee, ids[i + (k + 1)]));
      assert items[1..] == tail;
      assert items[0].Item? && items[0].id == ids[k];
      assert ids[k..] == [ids[k]] + ids[k + 1..];
    }
  }

  /** The tree shows exactly the ids it was given, in order, and only its
      last line has the corner. */
  lemma TreeShowsIds(client: string, ids: seq<string>)
    ensures ItemIds(Tree(client, ids)) == ids
    ensures forall i :: 1 <= i < |Tree(client, ids)| ==>
      Tree(client, ids)[i].Item? && (Tree(client, ids)[i].branch == Corner <==> i == |ids|)
  {
    if |ids| > 0 {
      var items := seq(|ids|, i requires 0 <= i < |ids| => Item(if i == |ids| - 1 then Corner else Tee, ids[i]));
      ItemIdsAppend([Heading(DisplayName(client))], items);
      ItemIdsOfItems(ids, |ids|, 0);
      assert items == seq(|ids| - 0, i requires 0 <= i < |ids| - 0 => Item(if i + 0 == |ids| - 1 then Corner else Tee, ids[i + 0]));
    }
  }

  /** What `list` prints, or `None` when it stops with an error. `flag` is
      the `--client` value, which the flag parser restricts to the two
      clients. */
  function RunList(registry: seq<Server>, flag: Option<string>, claudeRead: ReadResult, continueRead: ReadResult)
    : (r: Option<seq<Line>>)
    requires flag.Some? ==> IsKnownClient(flag.value)
    ensures flag.None? ==> r.Some?
    ensures flag == Some(ClaudeClient) ==> (r.None? <==> ClaudeIds(registry, claudeRead).Raised?)
    ensures flag == Some(ContinueClient) ==> (r.None? <==> ContinueIds(registry, continueRead).Raised?)
  {
    match flag
    case Some(client) =>
      var scan := if client == ClaudeClient then ClaudeIds(registry, claudeRead) else ContinueIds(registry, continueRead);
      (match scan
       case Raised => None
       case Listed(ids) => Some(Tree(client, ids) + if ids == [] then [NoServers(Some(DisplayName(client)))] else []))
    case None =>
      var a := match ClaudeIds(registry, claudeRead) case Raised => [] case Listed(ids) => ids;
      var b := match ContinueIds(registry, continueRead) case Raised => [] case Listed(ids) => ids;
      Some(Tree(ClaudeClient, a) + Tree(ContinueClient, b) + if a == [] && b == [] then [NoServers(None)] else [])
  }

  /** Without a flag, errors are swallowed: the closing message appears
      exactly when neither client shows a server, and the ids shown are the
      Claude ones followed by the Continue ones. */
  lemma ListAllShows(registry: seq<Server>, claudeRead: ReadResult, continueRead: ReadResult)
    ensures var lines := RunList(registry, None, claudeRead, continueRead).value;
      var a := if ClaudeIds(registry, claudeRead).Listed? then ClaudeIds(registry, claudeRead).ids else [];
      var b := if ContinueIds(registry, continueRead).Listed? then ContinueIds(registry, continueRead).ids else [];
      && ItemIds(lines) == a + b
      && (NoServers(None) in lines <==> a == [] && b == [])
  {
    var a := if ClaudeIds(registry, claudeRead).Listed? then ClaudeIds(registry, claudeRead).ids else [];
    var b := if ContinueIds(registry, continueRead).Listed? then ContinueIds(registry, continueRead).ids else [];
    assert RunList(registry, None, claudeRead, continueRead).value ==
      Tree(ClaudeClient, a) + Tree(ContinueClient, b) + if a == [] && b == [] then [NoServers(None)] else [];
    BothTrees(a, b);
  }

  /** The output of both trees and the closing message. */
  lemma BothTrees(a: seq<string>, b: seq<string>)
    ensures var lines := Tree(ClaudeClient, a) + Tree(ContinueClient, b) + if a == [] && b == [] then [NoServers(None)] else [];
      && ItemIds(lines) == a + b
      && (NoServers(None) in lines <==> a == [] && b == [])
  {
    var ta := Tree(ClaudeClient, a);
    var tb := Tree(ContinueClient, b);
    var tail: seq<Line> := if a == [] && b == [] then [NoServers(None)] else [];
    TreeShowsIds(ClaudeClient, a);
    TreeShowsIds(ContinueClient, b);
    ItemIdsAppend(ta, tb);
    ItemIdsAppend(ta + tb, tail);
    assert ItemIds(tail) == [] by {
      if tail != [] {
        assert tail[1..] == [];
      }
    }
    assert NoServers(None) !in ta + tb by {
      forall i | 0 <= i < |ta + tb|
        ensures (ta + tb)[i] != NoServers(None)
      {
        if i < |ta| {
          assert i == 0 || ta[i].Item?;
        } else {
          assert i - |ta| == 0 || tb[i - |ta|].Item?;
        }
      }
    }
  }

  /** With a flag, an error stops the command; otherwise the chosen
      client's ids are shown, and the closing message naming that client
      appears exactly when there are none. */
  lemma ListOneShows(registry: seq<Server>, client: string, claudeRead: ReadResult, continueRead: ReadResult)
    requires IsKnownClient(client)
    ensures var scan := if client == ClaudeClient then ClaudeIds(registry, claudeRead) else ContinueIds(registry, continueRead);
      var r := RunList(registry, Some(client), claudeRead, continueRead);
      && (r.None? <==> scan.Raised?)
      && (scan.Listed? ==>
            && ItemIds(r.value) == scan.ids
            && (NoServers(Some(DisplayName(client))) in r.value <==> scan.ids == []))
  {
    var scan := if client == ClaudeClient then ClaudeIds(registry, claudeRead) else ContinueIds(registry, continueRead);
    if scan.Listed? {
      var ids := scan.ids;
      var t := Tree(client, ids);
      var tail: seq<Line> := if ids == [] then [NoServers(Some(DisplayName(client)))] else [];
      assert RunList(registry, Some(client), claudeRead, continueRead) == Some(t + tail);
      TreeShowsIds(client, ids);
      ItemIdsAppend(t, tail);
      assert ItemIds(tail) == [] by {
        if tail != [] {
          assert tail[1..] == [];
        }
      }
      assert NoServers(Some(DisplayName(client))) !in t by {
        forall i | 0 <= i < |t|
          ensures t[i] != NoServers(Some(DisplayName(client)))
        {
          assert i == 0 || t[i].Item?;
        }
      }
    }
  }
}
