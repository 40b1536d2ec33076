/**
 * Install-time parameter resolution: the runtime argument appended to the
 * static arguments, and the environment variables collected one prompt at a
 * time. The terminal is a sequence of submissions; each prompt consumes
 * submissions from its front, and running out of them is the user aborting
 * the prompt.
 */
module Params {
  import opened Wrappers
  import opened Strings
  import opened Json
  import opened Types

  /** The one server whose default paths are personalised. */
  const FilesystemServerId := "filesystem-ref"

  /** The token in its default paths that stands for the OS user name. */
  const UserPlaceholder := "username"

  /** What a text prompt resolves to: the submission, or the default when the
      submission is empty. A list default comes back as the list itself. */
  datatype Answer = Single(text: string) | Many(entries: seq<string>)

  function Prompt(typed: string, default: DefaultValue): (a: Answer)
    ensures typed != "" ==> a == Single(typed)
    ensures typed == "" && default.Text? ==> a == Single(default.text)
    ensures typed == "" && default.List? ==> a == Many(default.entries)
  {
    if typed != "" then Single(typed)
    else match default
      case Text(t) => Single(t)
      case List(es) => Many(es)
  }

  /** The default offered for the runtime argument: for the reference
      filesystem server, each default path has its first `username` replaced
      by the OS user name. */
  function ShownDefault(serverId: string, d: DefaultValue, user: string): (r: DefaultValue)
    ensures serverId != FilesystemServerId || d.Text? ==> r == d
    ensures serverId == FilesystemServerId && d.List? ==>
      r.List? && |r.entries| == |d.entries| &&
      forall i :: 0 <= i < |d.entries| ==> r.entries[i] == ReplaceFirst(d.entries[i], UserPlaceholder, user)
  {
    if serverId == FilesystemServerId && d.List? then
      List(seq(|d.entries|, i requires 0 <= i < |d.entries| => ReplaceFirst(d.entries[i], UserPlaceholder, user)))
    else d
  }

  /** The text default of the first prompt in multiple mode: a list default
      is joined with ", ". */
  function JoinedDefault(d: DefaultValue): string {
    match d
    case Text(t) => t
    case List(es) => Join(es, ", ")
  }

  /** `extra` holds the trimmed submissions before the first blank one,
      and `responses` has that blank one right after them. */
  predicate PathsPrefix(responses: seq<string>, extra: seq<string>)
  {
    |extra| < |responses| && Trim(responses[|extra|]) == "" &&
    forall i :: 0 <= i < |extra| ==> extra[i] == Trim(responses[i]) && extra[i] != ""
  }

  /** The follow-up prompts of multiple mode: each submission is trimmed and
      appended, until the first one that is blank after trimming. */
  function MorePaths(responses: seq<string>): (r: Option<(seq<string>, seq<string>)>)
    ensures r.Some? ==> PathsPrefix(responses, r.value.0) && r.value.1 == responses[|r.value.0| + 1..]
  {
    if |responses| == 0 then None
    else if Trim(responses[0]) == "" then Some(([], responses[1..]))
    else
      match MorePaths(responses[1..])
      case None => None
      case Some((extra, rest)) =>
        var e := [Trim(responses[0])] + extra;
        PathsCons(responses, extra);
        assert responses[1..][|extra| + 1..] == responses[|e| + 1..];
        Some((e, rest))
  }

  lemma PathsCons(responses: seq<string>, extra: seq<string>)
    requires |responses| > 0 && Trim(responses[0]) != ""
    requires PathsPrefix(responses[1..], extra)
    ensures PathsPrefix(responses, [Trim(responses[0])] + extra)
  {
    var e := [Trim(responses[0])] + extra;
    var tail := responses[1..];
    assert Trim(responses[|e|]) == "" by {
      assert tail[|extra|] == responses[|e|];
    }
    forall i | 0 <= i < |e|
      ensures e[i] == Trim(responses[i]) && e[i] != ""
    {
      if i > 0 {
        assert e[i] == extra[i - 1];
        assert extra[i - 1] == Trim(tail[i - 1]) && extra[i - 1] != "";
        assert tail[i - 1] == responses[i];
      }
    }
  }

  /** The follow-up prompts run out exactly when no submission is blank. */
  lemma {:induction false} MorePathsAborted(responses: seq<string>)
    ensures MorePaths(responses).None? <==> forall i :: 0 <= i < |responses| ==> Trim(responses[i]) != ""
  {
    if |responses| > 0 && Trim(responses[0]) != "" {
      MorePathsAborted(responses[1..]);
      assert forall i :: 1 <= i < |responses| ==> responses[i] == responses[1..][i - 1];
    }
  }

  /** The values the runtime argument appends to the static arguments, and
      the submissions left over. */
  function RuntimeValues(serverId: string, ra: RuntimeArgs, user: string, responses: seq<string>)
    : (r: Option<(seq<string>, seq<string>)>)
    ensures r.Some? ==> |responses| > 0 && |r.value.1| < |responses|
    ensures r.Some? ==> r.value.1 == responses[|responses| - |r.value.1|..]
    ensures !ra.multiple ==> (r.Some? <==> |responses| > 0)
    ensures !ra.multiple && |responses| > 0 && responses[0] != "" ==> r == Some(([responses[0]], responses[1..]))
  {
    if |responses| == 0 then None
    else
      var d := ShownDefault(serverId, ra.default, user);
      if ra.multiple then
        var paths := FirstPieces(serverId, ra, user, responses[0]);
        match MorePaths(responses[1..])
        case None => None
        case Some((extra, rest)) =>
          assert responses[1..][|extra| + 1..] == responses[|extra| + 2..];
          Some((paths + extra, rest))
      else
        match Prompt(responses[0], d)
        case Single(t) => Some(([t], responses[1..]))
        case Many(es) => Some((es, responses[1..]))
  }

  /** The `validate` callback of an env prompt: a required variable rejects
      the empty submission. */
  predicate Accepts(v: EnvVariable, input: string) {
    !(IsRequired(v) && input == "")
  }

  /** The position, at or after `from`, of the submission an env prompt
      finally accepts; rejected submissions are asked again. */
  function AcceptedAt(v: EnvVariable, responses: seq<string>, from: nat): (r: Option<nat>)
    ensures r.Some? ==> from <= r.value < |responses| && Accepts(v, responses[r.value])
    ensures r.Some? ==> forall j :: from <= j < r.value ==> !Accepts(v, responses[j])
    ensures r.None? ==> forall j :: from <= j < |responses| ==> !Accepts(v, responses[j])
    decreases |responses| - from
  {
    if from >= |responses| then None
    else if Accepts(v, responses[from]) then Some(from)
    else AcceptedAt(v, responses, from + 1)
  }

  /** One accepted answer per declared variable, asked in declaration order
      on the submissions from position `from` on; the second component is
      what is left for later prompts. */
  function AskAll(vars: seq<(string, EnvVariable)>, responses: seq<string>, from: nat)
    : (r: Option<(seq<string>, seq<string>)>)
    requires from <= |responses|
    ensures r.Some? ==> |r.value.0| == |vars|
    ensures r.Some? ==> forall i :: 0 <= i < |vars| ==> Accepts(vars[i].1, r.value.0[i])
    ensures r.Some? ==> |r.value.1| <= |responses| - from && r.value.1 == responses[|responses| - |r.value.1|..]
    decreases |vars|
  {
    if |vars| == 0 then Some(([], responses[from..]))
    else
      match AcceptedAt(vars[0].1, responses, from)
      case None => None
      case Some(n) =>
        match AskAll(vars[1..], responses, n + 1)
        case None => None
        case Some((raw, rest)) =>
          var all := [responses[n]] + raw;
          assert forall i :: 1 <= i < |vars| ==> all[i] == raw[i - 1] && vars[i] == vars[1..][i - 1];
          Some((all, rest))
  }

  /** `ps` are the positions of the answers the env prompts take, searching
      from `from`: the first variable takes the first submission at or after
      `from` that its validation accepts, and each later variable the first
      one it accepts after the previous variable's answer. */
  predicate AnswerChain(vars: seq<(string, EnvVariable)>, responses: seq<string>, from: nat, ps: seq<nat>)
    decreases |vars|
  {
    |ps| == |vars|
    && (|vars| > 0 ==>
      AcceptedAt(vars[0].1, responses, from) == Some(ps[0])
      && AnswerChain(vars[1..], responses, ps[0] + 1, ps[1..]))
  }

  /** Every position is one of a list of `n` submissions. */
  predicate Within(ps: seq<nat>, n: nat) {
    forall i :: 0 <= i < |ps| ==> ps[i] < n
  }

  /** The positions of a chain are in range and increasing. */
  lemma {:induction false} ChainInRange(vars: seq<(string, EnvVariable)>, responses: seq<string>, from: nat, ps: seq<nat>)
    requires AnswerChain(vars, responses, from, ps)
    ensures Within(ps, |responses|) && forall i :: 0 <= i < |ps| ==> from <= ps[i]
    ensures forall i, j :: 0 <= i < j < |ps| ==> ps[i] < ps[j]
    decreases |vars|
  {
    if |vars| > 0 {
      ChainInRange(vars[1..], responses, ps[0] + 1, ps[1..]);
      assert forall i :: 0 < i < |ps| ==> ps[i] == ps[1..][i - 1];
    }
  }

  /** The submissions at positions `ps`. */
  function Picked(responses: seq<string>, ps: seq<nat>): (raw: seq<string>)
    requires Within(ps, |responses|)
  {
    seq(|ps|, i requires 0 <= i < |ps| => responses[ps[i]])
  }

  /** Where the prompts after a chain of answers read from. */
  function ChainEnd(from: nat, ps: seq<nat>): nat {
    if |ps| == 0 then from else ps[|ps| - 1] + 1
  }

  /** Following a chain of accepted positions is what the prompts do. */
  lemma {:induction false} AskAllFollowsChain(vars: seq<(string, EnvVariable)>, responses: seq<string>, from: nat, ps: seq<nat>)
    requires from <= |responses| && AnswerChain(vars, responses, from, ps)
    ensures Within(ps, |responses|)
    ensures AskAll(vars, responses, from) == Some((Picked(responses, ps), responses[ChainEnd(from, ps)..]))
    decreases |vars|
  {
    ChainInRange(vars, responses, from, ps);
    if |vars| == 0 {
      assert Picked(responses, ps) == [];
    } else {
      var p := ps[0];
      assert AcceptedAt(vars[0].1, responses, from) == Some(p);
      AskAllFollowsChain(vars[1..], responses, p + 1, ps[1..]);
      PickedCons(responses, ps, from);
    }
  }

  /** Picking along a chain is picking its first position, then the rest. */
  lemma PickedCons(responses: seq<string>, ps: seq<nat>, from: nat)
    requires |ps| > 0 && Within(ps, |responses|)
    ensures Within(ps[1..], |responses|)
    ensures Picked(responses, ps) == [responses[ps[0]]] + Picked(responses, ps[1..])
    ensures ChainEnd(ps[0] + 1, ps[1..]) == ChainEnd(from, ps)
  {
    assert forall i :: 0 <= i < |ps| - 1 ==> ps[1..][i] == ps[i + 1];
    assert [responses[ps[0]]] + Picked(responses, ps[1..]) == Picked(responses, ps);
  }

  /** The first variable's answer in front of a chain of the others. */
  lemma ChainCons(vars: seq<(string, EnvVariable)>, responses: seq<string>, from: nat, p: nat, qs: seq<nat>)
    requires |vars| > 0 && AcceptedAt(vars[0].1, responses, from) == Some(p)
    requires AnswerChain(vars[1..], responses, p + 1, qs)
    ensures AnswerChain(vars, responses, from, [p] + qs)
  {
    var ps := [p] + qs;
    assert ps[0] == p && ps[1..] == qs;
  }

  /** When the prompts finish, they took the answers of some chain. */
  lemma {:induction false} AskAllHasChain(vars: seq<(string, EnvVariable)>, responses: seq<string>, from: nat)
    returns (ps: seq<nat>)
    requires from <= |responses| && AskAll(vars, responses, from).Some?
    ensures AnswerChain(vars, responses, from, ps)
    decreases |vars|
  {
    if |vars| == 0 {
      ps := [];
    } else {
      var p := AcceptedAt(vars[0].1, responses, from).value;
      var qs := AskAllHasChain(vars[1..], responses, p + 1);
      ChainCons(vars, responses, from, p, qs);
      ps := [p] + qs;
    }
  }

  /** The env prompts abort exactly when some variable finds no submission
      its validation accepts after the previous variable's answer;
      otherwise answer `i` is the submission at the `i`-th position of that
      chain, and what follows the last answer is left for later prompts. */
  lemma EnvAnswers(vars: seq<(string, EnvVariable)>, responses: seq<string>)
    ensures AskAll(vars, responses, 0).None? <==> forall ps :: !AnswerChain(vars, responses, 0, ps)
    ensures forall ps :: AnswerChain(vars, responses, 0, ps) ==>
      Within(ps, |responses|)
      && AskAll(vars, responses, 0) == Some((Picked(responses, ps), responses[ChainEnd(0, ps)..]))
  {
    forall ps | AnswerChain(vars, responses, 0, ps)
      ensures Within(ps, |responses|)
      ensures AskAll(vars, responses, 0) == Some((Picked(responses, ps), responses[ChainEnd(0, ps)..]))
    {
      AskAllFollowsChain(vars, responses, 0, ps);
    }
    if AskAll(vars, responses, 0).Some? {
      var ps := AskAllHasChain(vars, responses, 0);
      assert exists qs :: AnswerChain(vars, responses, 0, qs);
    }
  }

  function Names(vars: seq<(string, EnvVariable)>): (ns: seq<string>)
    ensures |ns| == |vars| && forall i :: 0 <= i < |vars| ==> ns[i] == vars[i].0
  {
    seq(|vars|, i requires 0 <= i < |vars| => vars[i].0)
  }

  predicate UniqueNames(vars: seq<(string, EnvVariable)>) {
    forall i, j :: 0 <= i < j < |vars| ==> vars[i].0 != vars[j].0
  }

  lemma DistinctNames(vars: seq<(string, EnvVariable)>, i: nat, j: nat)
    requires UniqueNames(vars) && i < j < |vars|
    ensures vars[i].0 != vars[j].0
  {
  }

  /** The `answers` object: the variables are visited in declaration order
      and a variable is stored, with its untrimmed answer, only when the
      answer is not blank. */
  function BuildEnv(vars: seq<(string, EnvVariable)>, raw: seq<string>): (env: seq<(string, Json)>)
    requires |raw| == |vars|
    ensures forall k :: k !in Names(vars) ==> Lookup(env, k) == Undefined
    decreases |vars|
  {
    if |vars| == 0 then []
    else
      var n := |vars| - 1;
      var prefix := BuildEnv(vars[..n], raw[..n]);
      assert forall k :: k !in Names(vars) ==> k !in Names(vars[..n]) by {
        forall k | k in Names(vars[..n])
          ensures k in Names(vars)
        {
          var i :| 0 <= i < n && Names(vars[..n])[i] == k;
          assert Names(vars)[i] == k;
        }
      }
      assert vars[n].0 == Names(vars)[n];
      if Trim(raw[n]) != "" then Put(prefix, vars[n].0, JStr(raw[n])) else prefix
  }

  /** The names whose answers are not blank, in declaration order: a
      reference for the key order of `BuildEnv`. */
  function KeptNames(vars: seq<(string, EnvVariable)>, raw: seq<string>): seq<string>
    requires |raw| == |vars|
  {
    if |vars| == 0 then []
    else
      var n := |vars| - 1;
      KeptNames(vars[..n], raw[..n]) + (if Trim(raw[n]) != "" then [vars[n].0] else [])
  }

  lemma {:induction false} KeptNamesAreNames(vars: seq<(string, EnvVariable)>, raw: seq<string>, k: string)
    requires |raw| == |vars|
    requires k in KeptNames(vars, raw)
    ensures k in Names(vars)
    decreases |vars|
  {
    var n := |vars| - 1;
    if k in KeptNames(vars[..n], raw[..n]) {
      KeptNamesAreNames(vars[..n], raw[..n], k);
      var i :| 0 <= i < n && Names(vars[..n])[i] == k;
      assert Names(vars)[i] == k;
    } else {
      assert k == vars[n].0 == Names(vars)[n];
    }
  }

  /** With distinct names, the last variable is not among the earlier ones. */
  lemma LastNameFresh(vars: seq<(string, EnvVariable)>)
    requires |vars| > 0 && UniqueNames(vars)
    ensures vars[|vars| - 1].0 !in Names(vars[..|vars| - 1])
  {
    var n := |vars| - 1;
    forall i | 0 <= i < n
      ensures Names(vars[..n])[i] != vars[n].0
    {
      assert Names(vars[..n])[i] == vars[i].0;
    }
  }

  /** The value the env object holds for the variable at `i`. */
  function Expected(raw: seq<string>, i: nat): Prop
    requires i < |raw|
  {
    if Trim(raw[i]) != "" then Defined(JStr(raw[i])) else Undefined
  }

  /** The step of `BuildEnv` that handles the last variable. */
  function EnvStep(prefix: seq<(string, Json)>, name: string, answer: string): seq<(string, Json)> {
    if Trim(answer) != "" then Put(prefix, name, JStr(answer)) else prefix
  }

  lemma BuildEnvStep(vars: seq<(string, EnvVariable)>, raw: seq<string>)
    requires |raw| == |vars| > 0
    ensures BuildEnv(vars, raw) ==
      EnvStep(BuildEnv(vars[..|vars| - 1], raw[..|vars| - 1]), vars[|vars| - 1].0, raw[|vars| - 1])
  {
  }

  /** What a lookup sees after the step for answer `n`, whose name is not
      yet a key. */
  lemma EnvStepLookup(prefix: seq<(string, Json)>, raw: seq<string>, n: nat, name: string, k: string)
    requires n < |raw| && name !in Keys(prefix)
    ensures Lookup(EnvStep(prefix, name, raw[n]), k) == if k == name then Expected(raw, n) else Lookup(prefix, k)
  {
    if k == name && Trim(raw[n]) == "" {
      assert Lookup(prefix, k) == Undefined;
    }
  }

  /** With distinct variable names, a name is a key of the env object
      exactly when its answer is not blank, and it maps to the untrimmed
      answer. */
  lemma EnvEntries(vars: seq<(string, EnvVariable)>, raw: seq<string>)
    requires |raw| == |vars|
    requires UniqueNames(vars)
    ensures forall i :: 0 <= i < |vars| ==> Lookup(BuildEnv(vars, raw), vars[i].0) == Expected(raw, i)
  {
    forall i | 0 <= i < |vars|
      ensures Lookup(BuildEnv(vars, raw), vars[i].0) == Expected(raw, i)
    {
      EnvEntry(vars, raw, i);
    }
  }

  /** The entry for the variable at `i`, by induction on the variables
      visited before it. */
  lemma {:induction false} EnvEntry(vars: seq<(string, EnvVariable)>, raw: seq<string>, i: nat)
    requires |raw| == |vars| && UniqueNames(vars) && i < |vars|
    ensures Lookup(BuildEnv(vars, raw), vars[i].0) == Expected(raw, i)
    decreases |vars|
  {
    var n := |vars| - 1;
    if i < n {
      UniquePrefix(vars, n);
      EnvEntry(vars[..n], raw[..n], i);
    }
    EnvEntryLast(vars, raw, i);
  }

  /** The step of `EnvEntry` for the last variable, given the entry the
      variables before it produced. */
  lemma EnvEntryLast(vars: seq<(string, EnvVariable)>, raw: seq<string>, i: nat)
    requires |raw| == |vars| && UniqueNames(vars) && i < |vars|
    requires i < |vars| - 1 ==>
      Lookup(BuildEnv(vars[..|vars| - 1], raw[..|vars| - 1]), vars[..|vars| - 1][i].0) == Expected(raw[..|vars| - 1], i)
    ensures Lookup(BuildEnv(vars, raw), vars[i].0) == Expected(raw, i)
  {
    var n := |vars| - 1;
    var name := vars[n].0;
    var k := vars[i].0;
    var prefix := BuildEnv(vars[..n], raw[..n]);
    BuildEnvStep(vars, raw);
    assert name !in Keys(prefix) by {
      LastNameFresh(vars);
      assert Lookup(prefix, name) == Undefined;
    }
    if i < n {
      DistinctNames(vars, i, n);
      assert vars[..n][i] == vars[i] && raw[..n][i] == raw[i];
    }
    EnvEntryStep(prefix, raw, n, name, k, i);
  }

  lemma EnvEntryStep(prefix: seq<(string, Json)>, raw: seq<string>, n: nat, name: string, k: string, i: nat)
    requires n < |raw| && i <= n && name !in Keys(prefix)
    requires i == n ==> k == name
    requires i < n ==> k != name && Lookup(prefix, k) == Expected(raw, i)
    ensures Lookup(EnvStep(prefix, name, raw[n]), k) == Expected(raw, i)
  {
    EnvStepLookup(prefix, raw, n, name, k);
  }

  lemma UniquePrefix(vars: seq<(string, EnvVariable)>, n: nat)
    requires UniqueNames(vars) && n <= |vars|
    ensures UniqueNames(vars[..n])
  {
    forall i, j | 0 <= i < j < n
      ensures vars[..n][i].0 != vars[..n][j].0
    {
      assert vars[..n][i] == vars[i] && vars[..n][j] == vars[j];
    }
  }

  /** With distinct variable names, the keys of the env object are the
      names with non-blank answers, in declaration order. */
  lemma {:induction false} EnvKeyOrder(vars: seq<(string, EnvVariable)>, raw: seq<string>)
    requires |raw| == |vars|
    requires UniqueNames(vars)
    ensures Keys(BuildEnv(vars, raw)) == KeptNames(vars, raw)
    decreases |vars|
  {
    if |vars| > 0 {
      var n := |vars| - 1;
      UniquePrefix(vars, n);
      EnvKeyOrder(vars[..n], raw[..n]);
      KeysAfterStep(vars, raw);
    }
  }

  lemma KeysAfterStep(vars: seq<(string, EnvVariable)>, raw: seq<string>)
    requires |raw| == |vars| > 0 && UniqueNames(vars)
    ensures var n := |vars| - 1;
      Keys(BuildEnv(vars, raw)) == Keys(BuildEnv(vars[..n], raw[..n])) + if Trim(raw[n]) != "" then [vars[n].0] else []
  {
    var n := |vars| - 1;
    var prefix := BuildEnv(vars[..n], raw[..n]);
    LastNameFresh(vars);
    assert Lookup(prefix, vars[n].0) == Undefined;
    BuildEnvStep(vars, raw);
    KeyOrderStep(prefix, vars[n].0, raw[n]);
  }

  lemma KeyOrderStep(prefix: seq<(string, Json)>, name: string, answer: string)
    requires name !in Keys(prefix)
    ensures Keys(EnvStep(prefix, name, answer)) == Keys(prefix) + if Trim(answer) != "" then [name] else []
  {
  }

  /** The resolved parameters of an install: the final argument list and the
      env object. */
  datatype Collected = Collected(finalArgs: seq<string>, env: seq<(string, Json)>)

  /** Runs the runtime-argument prompts, then one prompt per env variable.
      `None` means the submissions ran out: the prompt was aborted. */
  function Collect(server: Server, user: string, responses: seq<string>): (r: Option<Collected>)
    ensures r.Some? ==>
      |r.value.finalArgs| >= |server.config.args| && r.value.finalArgs[..|server.config.args|] == server.config.args
    ensures r.Some? && server.config.runtimeArgs.None? ==> r.value.finalArgs == server.config.args
    ensures server.config.runtimeArgs.None? && server.config.env == [] ==> r.Some?
  {
    var cfg := server.config;
    var resolved: Option<(seq<string>, seq<string>)> :=
      match cfg.runtimeArgs
      case None => Some(([], responses))
      case Some(ra) => RuntimeValues(server.id, ra, user, responses);
    match resolved
    case None => None
    case Some((extra, rest)) =>
      match AskAll(cfg.env, rest, 0)
      case None => None
      case Some((raw, _)) =>
        assert (cfg.args + extra)[..|cfg.args|] == cfg.args;
        Some(Collected(cfg.args + extra, BuildEnv(cfg.env, raw)))
  }

  /** The runtime-argument prompts, when the server has any, append `extra`
      to the arguments and leave the submissions `rest` for the env prompts. */
  predicate RuntimeLeaves(server: Server, user: string, responses: seq<string>, extra: seq<string>, rest: seq<string>) {
    match server.config.runtimeArgs
    case None => extra == [] && rest == responses
    case Some(ra) => RuntimeValues(server.id, ra, user, responses) == Some((extra, rest))
  }

  /** The env written is built from the answers typed at the env prompts:
      once the runtime-argument prompts leave `rest`, the install goes on
      exactly when every variable finds an answer it accepts in `rest`, and
      the env then holds those answers. */
  lemma CollectedEnv(server: Server, user: string, responses: seq<string>, extra: seq<string>, rest: seq<string>)
    ensures RuntimeLeaves(server, user, responses, extra, rest) ==>
      (Collect(server, user, responses).None? <==> forall ps :: !AnswerChain(server.config.env, rest, 0, ps))
    ensures RuntimeLeaves(server, user, responses, extra, rest) ==>
      forall ps :: AnswerChain(server.config.env, rest, 0, ps) ==>
        Within(ps, |rest|)
        && Collect(server, user, responses) ==
          Some(Collected(server.config.args + extra, BuildEnv(server.config.env, Picked(rest, ps))))
  {
    EnvAnswers(server.config.env, rest);
    if server.config.runtimeArgs.Some? {
      CollectSteps(server, server.config.runtimeArgs.value, user, responses);
    }
  }

  /** Single mode: a non-empty submission is appended as one argument; an
      empty one appends the default, every entry of it when it is a list. */
  lemma SingleModeArguments(server: Server, ra: RuntimeArgs, user: string, responses: seq<string>)
    requires server.config.runtimeArgs == Some(ra) && !ra.multiple
    requires Collect(server, user, responses).Some?
    ensures |responses| > 0
    ensures var c := Collect(server, user, responses).value;
      && (responses[0] != "" ==> c.finalArgs == server.config.args + [responses[0]])
      && (responses[0] == "" && ra.default.Text? ==> c.finalArgs == server.config.args + [ra.default.text])
      && (responses[0] == "" && ra.default.List? ==>
            c.finalArgs == server.config.args + ShownDefault(server.id, ra.default, user).entries)
  {
  }

  /** In multiple mode the first submission, or the joined default when it
      is empty, is split on commas. */
  function FirstPieces(serverId: string, ra: RuntimeArgs, user: string, typed: string): seq<string> {
    var first := if typed != "" then typed else JoinedDefault(ShownDefault(serverId, ra.default, user));
    TrimAll(Split(first, ','))
  }

  lemma MultipleModeValues(serverId: string, ra: RuntimeArgs, user: string, responses: seq<string>)
    requires ra.multiple
    ensures RuntimeValues(serverId, ra, user, responses).Some? ==> |responses| > 0
    ensures RuntimeValues(serverId, ra, user, responses).Some? && |responses| > 0 ==>
      var vs := RuntimeValues(serverId, ra, user, responses).value.0;
      var pieces := FirstPieces(serverId, ra, user, responses[0]);
      |vs| >= |pieces| && vs[..|pieces|] == pieces && PathsPrefix(responses[1..], vs[|pieces|..])
  {
    if RuntimeValues(serverId, ra, user, responses).None? {
      return;
    }
    var pieces := FirstPieces(serverId, ra, user, responses[0]);
    var extra := MorePaths(responses[1..]).value.0;
    var vs := RuntimeValues(serverId, ra, user, responses).value.0;
    assert vs == pieces + extra;
    assert vs[|pieces|..] == extra;
  }

  /** The arguments `Collect` produces are the static ones followed by the
      runtime values. */
  lemma CollectedArguments(server: Server, ra: RuntimeArgs, user: string, responses: seq<string>)
    requires server.config.runtimeArgs == Some(ra)
    requires Collect(server, user, responses).Some?
    ensures RuntimeValues(server.id, ra, user, responses).Some?
    ensures Collect(server, user, responses).value.finalArgs ==
      server.config.args + RuntimeValues(server.id, ra, user, responses).value.0
  {
  }

  /** Multiple mode: the first answer split on commas with every piece
      trimmed (empty pieces kept), then each later non-blank answer trimmed,
      up to the first blank answer. */
  lemma MultipleModeArguments(server: Server, ra: RuntimeArgs, user: string, responses: seq<string>)
    requires server.config.runtimeArgs == Some(ra) && ra.multiple
    ensures Collect(server, user, responses).Some? ==> |responses| > 0
    ensures Collect(server, user, responses).Some? && |responses| > 0 ==>
      var c := Collect(server, user, responses).value;
      var fixed := server.config.args + FirstPieces(server.id, ra, user, responses[0]);
      && |c.finalArgs| >= |fixed|
      && c.finalArgs[..|fixed|] == fixed
      && PathsPrefix(responses[1..], c.finalArgs[|fixed|..])
  {
    if Collect(server, user, responses).None? {
      return;
    }
    var c := Collect(server, user, responses).value;
    CollectedArguments(server, ra, user, responses);
    var vs := RuntimeValues(server.id, ra, user, responses).value.0;
    var pieces := FirstPieces(server.id, ra, user, responses[0]);
    assert |vs| >= |pieces| && vs[..|pieces|] == pieces && PathsPrefix(responses[1..], vs[|pieces|..]) by {
      MultipleModeValues(server.id, ra, user, responses);
    }
    ConcatSplit(c.finalArgs, server.config.args, vs, pieces);
  }

  lemma ConcatSplit(all: seq<string>, args: seq<string>, vs: seq<string>, pieces: seq<string>)
    requires all == args + vs
    requires |vs| >= |pieces| && vs[..|pieces|] == pieces
    ensures var fixed := args + pieces;
      |all| >= |fixed| && all[..|fixed|] == fixed && all[|fixed|..] == vs[|pieces|..]
  {
    var n := |args| + |pieces|;
    assert all[..n] == args + vs[..|pieces|];
  }

  /** Accepting the suggested default in multiple mode gives back the
      default paths, personalised and trimmed, when none holds a comma. */
  lemma AcceptedDefaultPaths(server: Server, ra: RuntimeArgs, user: string, responses: seq<string>)
    requires server.config.runtimeArgs == Some(ra) && ra.multiple && server.config.env == []
    requires ra.default.List? && |ra.default.entries| >= 1
    requires |responses| >= 2 && responses[0] == "" && Trim(responses[1]) == ""
    ensures var d := ShownDefault(server.id, ra.default, user);
      (forall i :: 0 <= i < |d.entries| ==> ',' !in d.entries[i]) ==>
        && Collect(server, user, responses).Some?
        && Collect(server, user, responses).value.finalArgs == server.config.args + TrimAll(d.entries)
  {
    var d := ShownDefault(server.id, ra.default, user);
    if forall i :: 0 <= i < |d.entries| ==> ',' !in d.entries[i] {
      DefaultRuntimeValues(server.id, ra, user, responses);
      CollectSteps(server, ra, user, responses);
    }
  }

  /** `Collect` with a runtime argument, unfolded. */
  lemma CollectSteps(server: Server, ra: RuntimeArgs, user: string, responses: seq<string>)
    requires server.config.runtimeArgs == Some(ra)
    ensures Collect(server, user, responses) ==
      match RuntimeValues(server.id, ra, user, responses)
      case None => None
      case Some((extra, rest)) =>
        match AskAll(server.config.env, rest, 0)
        case None => None
        case Some((raw, _)) => Some(Collected(server.config.args + extra, BuildEnv(server.config.env, raw)))
  {
  }

  lemma DefaultRuntimeValues(serverId: string, ra: RuntimeArgs, user: string, responses: seq<string>)
    requires ra.multiple && ra.default.List? && |ra.default.entries| >= 1
    requires var d := ShownDefault(serverId, ra.default, user);
      forall i :: 0 <= i < |d.entries| ==> ',' !in d.entries[i]
    requires |responses| >= 2 && responses[0] == "" && Trim(responses[1]) == ""
    ensures RuntimeValues(serverId, ra, user, responses) ==
      Some((TrimAll(ShownDefault(serverId, ra.default, user).entries), responses[2..]))
  {
    var d := ShownDefault(serverId, ra.default, user);
    assert FirstPieces(serverId, ra, user, responses[0]) == TrimAll(d.entries) by {
      SplitJoinedTrimmed(d.entries);
    }
    MorePathsBlank(responses[1..]);
    assert responses[1..][1..] == responses[2..];
    MultipleSteps(serverId, ra, user, responses);
    assert TrimAll(d.entries) + [] == TrimAll(d.entries);
  }

  lemma MorePathsBlank(responses: seq<string>)
    requires |responses| > 0 && Trim(responses[0]) == ""
    ensures MorePaths(responses) == Some(([], responses[1..]))
  {
  }

  /** `RuntimeValues` in multiple mode, one step unfolded. */
  lemma MultipleSteps(serverId: string, ra: RuntimeArgs, user: string, responses: seq<string>)
    requires ra.multiple && |responses| > 0
    ensures RuntimeValues(serverId, ra, user, responses) ==
      match MorePaths(responses[1..])
      case None => None
      case Some((extra, rest)) => Some((FirstPieces(serverId, ra, user, responses[0]) + extra, rest))
  {
  }

}
