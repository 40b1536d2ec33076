/**
 * Two registry servers taken through the commands with concrete answers.
 */
module Scenarios {
  import opened Wrappers
  import opened Json
  import opened Types
  import opened Strings
  import opened Params
  import opened Config
  import opened Install
  import opened Listing
  import opened Lifecycle
  import opened Samples

  /** The filesystem server's default path for a user. */
  function Desktop(user: string): string {
    "/Users/" + user + "/Desktop"
  }

  /** Installing the reference filesystem server into a Claude Desktop
      configuration that does not exist yet, accepting the offered path and
      then ending the list with a blank answer, writes a document holding
      just that server, with the user name put into the default path. A
      user name with a comma in it would be split into two paths. */
  lemma FilesystemFirstInstall(home: string, user: string)
    requires ',' !in user
    ensures RunInstall([FilesystemRef], "filesystem-ref", ClaudeClient, Darwin, home, user, Absent, ["", ""]) ==
      Write(ClaudeConfigPath(home),
        JObj([(ServersKey, JObj([("filesystem-ref",
          ClaudeEntry(FilesystemRef.config.args + [Desktop(user)], "npx", [])
        )]))]))
  {
    var finalArgs := FilesystemRef.config.args + [Desktop(user)];
    AcceptsDefault(FilesystemRef, user);
    assert Preflight([FilesystemRef], "filesystem-ref", ClaudeClient, Darwin, home, Absent) ==
      Ok((FilesystemRef, ClaudeConfigPath(home), EmptyObject));
    var entry := ClaudeEntry(finalArgs, "npx", []);
    FirstClaudeEntry(FilesystemRef.id, entry);
  }

  /** A filesystem server offering the usual default path: accepting the
      offered path, with the user name put in, and then ending the list. */
  lemma AcceptsDefault(server: Server, user: string)
    requires server.id == FilesystemServerId && server.config.env == []
    requires server.config.runtimeArgs.Some? && server.config.runtimeArgs.value.multiple
    requires server.config.runtimeArgs.value.default == List([DefaultDesktop])
    requires ',' !in user
    ensures Collect(server, user, ["", ""]) == Some(Collected(server.config.args + [Desktop(user)], []))
  {
    var shown := Desktop(user);
    UserDesktop(user);
    DesktopPlain(user);
    OneDefaultPath(server, user, shown);
  }

  /** The path has a comma only where the user name has one, and nothing to
      trim at either end. */
  lemma DesktopPlain(user: string)
    requires ',' !in user
    ensures ',' !in Desktop(user) && Desktop(user)[0] == '/' && Desktop(user)[|Desktop(user)| - 1] == 'p'
  {
    var shown := Desktop(user);
    forall i | 0 <= i < |shown|
      ensures shown[i] != ','
    {
      if i < 7 {
        assert shown[i] == "/Users/"[i];
      } else if i < 7 + |user| {
        assert shown[i] == user[i - 7];
      } else {
        assert shown[i] == "/Desktop"[i - 7 - |user|];
      }
    }
    assert shown[0] == '/' && shown[|shown| - 1] == 'p';
  }

  /** A string that starts and ends with something other than white space
      is its own trim. */
  lemma TrimKeeps(s: string)
    requires |s| > 0 && !IsSpace(s[0]) && !IsSpace(s[|s| - 1])
    ensures Trim(s) == s
  {
    assert TrimStart(s) == s;
    assert TrimEnd(s) == s;
  }

  /** A server asking for a list of paths, with no environment variables
      and one default path: accepting the default and ending the list
      gives the server's arguments followed by that path. */
  lemma OneDefaultPath(server: Server, user: string, shown: string)
    requires server.config.runtimeArgs.Some? && server.config.runtimeArgs.value.multiple && server.config.env == []
    requires server.config.runtimeArgs.value.default.List? && |server.config.runtimeArgs.value.default.entries| >= 1
    requires ShownDefault(server.id, server.config.runtimeArgs.value.default, user) == List([shown])
    requires ',' !in shown && |shown| > 0 && !IsSpace(shown[0]) && !IsSpace(shown[|shown| - 1])
    ensures Collect(server, user, ["", ""]) == Some(Collected(server.config.args + [shown], []))
  {
    var ra := server.config.runtimeArgs.value;
    TrimKeeps(shown);
    OneDefaultValues(server.id, ra, user, shown);
    assert AskAll(server.config.env, [], 0) == Some(([], []));
    CollectSteps(server, ra, user, ["", ""]);
    assert BuildEnv([], []) == [];
  }

  lemma OneDefaultValues(serverId: string, ra: RuntimeArgs, user: string, shown: string)
    requires ra.multiple && ra.default.List? && |ra.default.entries| >= 1
    requires ShownDefault(serverId, ra.default, user) == List([shown])
    requires ',' !in shown && Trim(shown) == shown
    ensures RuntimeValues(serverId, ra, user, ["", ""]) == Some(([shown], []))
  {
    var responses := ["", ""];
    assert Trim(responses[1]) == "";
    DefaultRuntimeValues(serverId, ra, user, responses);
    assert TrimAll([shown]) == [shown];
    assert responses[2..] == [];
  }

  /** The path the reference filesystem server offers. */
  const DefaultDesktop := "/Users/username/Desktop"

  /** The offered path: the first `username` in it is the one after
      `/Users/`. */
  lemma UserDesktop(user: string)
    ensures ShownDefault(FilesystemServerId, List([DefaultDesktop]), user) == List([Desktop(user)])
  {
    var path := DefaultDesktop;
    assert ReplaceFirst(path, UserPlaceholder, user) == Desktop(user) by {
      assert path == "/Users/" + UserPlaceholder + "/Desktop";
      assert path[7..15] == UserPlaceholder;
      assert OccursAt(path, UserPlaceholder, 7);
      forall j: nat | j < 7
        ensures !OccursAt(path, UserPlaceholder, j)
      {
        assert path[j..j + 8][0] == path[j];
      }
      assert IsFirstOccurrence(path, UserPlaceholder, 7);
      assert path[..7] == "/Users/";
      assert path[15..] == "/Desktop";
    }
  }

  /** Installing into an empty document gives a document with just that
      server. */
  lemma FirstClaudeEntry(name: string, entry: Json)
    ensures MergeClaude(EmptyObject, name, entry) == Normal(JObj([(ServersKey, JObj([(name, entry)]))]))
  {
    ClaudeInstall(EmptyObject, name, entry);
    var doc := MergeClaude(EmptyObject, name, entry).value;
    assert Put([], name, entry) == [(name, entry)];
    assert |doc.fields| == 1 && doc.fields[0].0 == ServersKey;
    assert Lookup(doc.fields, ServersKey) == Defined(doc.fields[0].1);
    assert doc.fields == [doc.fields[0]];
  }

  /** The Continue entry the git server gets for a repository. */
  function GitEntry(repo: string): Json {
    TransportEntry(Transport(GitRef.config.args + [repo], GitRef.config.command, []))
  }

  /** Installing the git server for a second repository adds a second
      entry, because the install search compares the whole argument list,
      while listing already shows the server after the first one, because it
      compares only the registry's own arguments. */
  lemma GitSecondRepository(first: string, second: string)
    requires first != second
    ensures MatchedIds([GitEntry(first)], [GitRef]) == Listed([GitRef.id])
    ensures UpdateTransports(JArr([GitEntry(first)]), GitRef.config.command, GitRef.config.args + [second], []) ==
      Normal(JArr([GitEntry(first), GitEntry(second)]))
  {
    GitListed(first);
    GitMiss(first, second);
    var a := GitRef.config.args + [first];
    var b := GitRef.config.args + [second];
    var e := GitEntry(first);
    assert FindFrom([e], GitRef.config.command, b, 1) == NotFound;
    assert FindIndex([e], GitRef.config.command, b) == NotFound;
    assert [e] + [GitEntry(second)] == [e, GitEntry(second)];
  }

  lemma GitListed(repo: string)
    ensures MatchedIds([GitEntry(repo)], [GitRef]) == Listed([GitRef.id])
  {
    var a := GitRef.config.args + [repo];
    assert a[..|GitRef.config.args|] == GitRef.config.args;
    WrittenEntryListed(GitEntry(repo), a, GitRef.config.command, [], GitRef.config.args);
    assert SomeFrom([GitEntry(repo)], GitRef.config.command, GitRef.config.args, 0) == Hit;
    assert [GitRef][1..] == [];
  }

  lemma GitMiss(first: string, second: string)
    requires first != second
    ensures InstallProbe(GitEntry(first), GitRef.config.command, GitRef.config.args + [second]) == Miss
  {
    var a := GitRef.config.args + [first];
    var b := GitRef.config.args + [second];
    assert a != b by {
      assert a[|GitRef.config.args|] != b[|GitRef.config.args|];
    }
    WrittenTransportMissesOther(GitEntry(first), GitRef.config.command, a, b, []);
  }

  /** The registry's Artemis descriptor is outside the schema: its publisher
      id has an upper-case letter. */
  lemma ArtemisOutsideSchema()
    ensures !SatisfiesSchema(Artemis)
  {
    UpperCaseRejected();
  }

  /** The Artemis server's one variable is required: an empty submission is
      asked again, and the next one is kept only when it is not blank. */
  lemma ArtemisKey(user: string, key: string)
    requires key != ""
    ensures Collect(Artemis, user, ["", key]) ==
      Some(Collected(Artemis.config.args, if Trim(key) != "" then [("ARTEMIS_API_KEY", JStr(key))] else []))
  {
    OneRequiredVariable(Artemis, user, key);
  }

  /** A server with no runtime argument and one required variable. */
  lemma OneRequiredVariable(server: Server, user: string, key: string)
    requires server.config.runtimeArgs.None? && |server.config.env| == 1 && IsRequired(server.config.env[0].1)
    requires key != ""
    ensures var name := server.config.env[0].0;
      Collect(server, user, ["", key]) ==
        Some(Collected(server.config.args, if Trim(key) != "" then [(name, JStr(key))] else []))
  {
    var vars := server.config.env;
    var responses := ["", key];
    assert AcceptedAt(vars[0].1, responses, 0) == Some(1) by {
      assert !Accepts(vars[0].1, responses[0]);
      assert Accepts(vars[0].1, responses[1]);
    }
    assert AskAll(vars, responses, 0) == Some(([key], [])) by {
      assert vars[1..] == [] && responses[2..] == [];
      assert AskAll([], responses, 2) == Some(([], []));
      assert [key] + [] == [key];
    }
    assert BuildEnv(vars, [key]) == EnvStep([], vars[0].0, key) by {
      assert vars[..0] == [] && [key][..0] == [];
    }
  }
}
