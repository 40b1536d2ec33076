/**
 * The registry schema: a server descriptor, its launch configuration and
 * its environment variables, with the id pattern and the two enumerations
 * the schema declares.
 */
module Types {
  import opened Wrappers

  /** A declared environment variable; `required` may be left out. */
  datatype EnvVariable = EnvVariable(description: string, required: Option<bool>)

  /** A variable is required unless it says `required: false`; leaving the
      field out counts as required. */
  predicate IsRequired(v: EnvVariable) {
    v.required != Some(false)
  }

  /** The default of a runtime argument: a single string or a list. */
  datatype DefaultValue = Text(text: string) | List(entries: seq<string>)

  /** The optional argument resolved at install time; `multiple` asks for an
      open-ended list of values. */
  datatype RuntimeArgs = RuntimeArgs(description: string, default: DefaultValue, multiple: bool)

  /** How a server is launched: the command, its static arguments, the
      declared environment variables in declaration order, and the optional
      runtime argument. */
  datatype McpConfig = McpConfig(
    command: string,
    args: seq<string>,
    env: seq<(string, EnvVariable)>,
    runtimeArgs: Option<RuntimeArgs>)

  datatype DistributionType = Npm | Pip | Source

  datatype Distribution = Distribution(kind: DistributionType, package: Option<string>)

  datatype Runtime = Node | Python | Go | OtherRuntime

  datatype Publisher = Publisher(id: string, name: string, url: string)

  datatype Server = Server(
    id: string,
    name: string,
    description: string,
    publisher: Publisher,
    isOfficial: bool,
    sourceUrl: string,
    distribution: Distribution,
    license: Option<string>,
    runtime: Runtime,
    config: McpConfig)

  predicate IsIdChar(c: char) {
    ('a' <= c <= 'z') || ('0' <= c <= '9') || c == '-'
  }

  /** The id pattern `^[a-z0-9-]+$`, shared by server and publisher ids. */
  predicate IsValidId(s: string) {
    |s| > 0 && forall i :: 0 <= i < |s| ==> IsIdChar(s[i])
  }

  /** Scans `s` once, the way the anchored pattern is matched. */
  method MatchesIdPattern(s: string) returns (ok: bool)
    ensures ok <==> IsValidId(s)
  {
    if |s| == 0 {
      return false;
    }
    var i := 0;
    while i < |s|
      invariant 0 <= i <= |s|
      invariant forall j :: 0 <= j < i ==> IsIdChar(s[j])
    {
      if !IsIdChar(s[i]) {
        return false;
      }
      i := i + 1;
    }
    return true;
  }

  /** The id constraints of the descriptor schema: both ids match the
      pattern. */
  predicate SatisfiesSchema(s: Server) {
    IsValidId(s.id) && IsValidId(s.publisher.id)
  }

  /** The id pattern rejects upper-case letters, so a publisher id such as
      "Artemis-xyz" does not satisfy the schema. */
  lemma UpperCaseRejected()
    ensures !IsValidId("Artemis-xyz")
  {
    assert !IsIdChar("Artemis-xyz"[0]);
  }

  function DistributionTypeName(t: DistributionType): string {
    match t
    case Npm => "npm"
    case Pip => "pip"
    case Source => "source"
  }

  /** The `z.enum(['npm', 'pip', 'source'])` check. */
  function ParseDistributionType(s: string): (r: Option<DistributionType>)
    ensures r.Some? <==> s in {"npm", "pip", "source"}
  {
    if s == "npm" then Some(Npm)
    else if s == "pip" then Some(Pip)
    else if s == "source" then Some(Source)
    else None
  }

  lemma DistributionTypeRoundTrip(t: DistributionType, s: string)
    ensures ParseDistributionType(DistributionTypeName(t)) == Some(t)
    ensures ParseDistributionType(s) == Some(t) ==> DistributionTypeName(t) == s
  {
  }

  function RuntimeName(r: Runtime): string {
    match r
    case Node => "node"
    case Python => "python"
    case Go => "go"
    case OtherRuntime => "other"
  }

  /** The `z.enum(['node', 'python', 'go', 'other'])` check. */
  function ParseRuntime(s: string): (r: Option<Runtime>)
    ensures r.Some? <==> s in {"node", "python", "go", "other"}
  {
    if s == "node" then Some(Node)
    else if s == "python" then Some(Python)
    else if s == "go" then Some(Go)
    else if s == "other" then Some(OtherRuntime)
    else None
  }

  lemma RuntimeRoundTrip(r: Runtime, s: string)
    ensures ParseRuntime(RuntimeName(r)) == Some(r)
    ensures ParseRuntime(s) == Some(r) ==> RuntimeName(r) == s
  {
  }

  /** `servers.some(s => s.id === id)`. */
  predicate IsRegistered(registry: seq<Server>, id: string) {
    exists i :: 0 <= i < |registry| && registry[i].id == id
  }

  /** `servers.find(s => s.id === id)`: the first descriptor with that id. */
  function FindServer(registry: seq<Server>, id: string): (r: Option<Server>)
    ensures r.None? <==> !IsRegistered(registry, id)
    ensures r.Some? ==> r.value.id == id
    ensures r.Some? ==> exists i :: 0 <= i < |registry| && registry[i] == r.value
                           && forall j :: 0 <= j < i ==> registry[j].id != id
  {
    if |registry| == 0 then None
    else if registry[0].id == id then Some(registry[0])
    else
      var r := FindServer(registry[1..], id);
      assert IsRegistered(registry, id) <==> IsRegistered(registry[1..], id) by {
        if IsRegistered(registry, id) {
          var i :| 0 <= i < |registry| && registry[i].id == id;
          assert registry[1..][i - 1] == registry[i];
        }
        if IsRegistered(registry[1..], id) {
          var i :| 0 <= i < |registry| - 1 && registry[1..][i].id == id;
          assert registry[i + 1] == registry[1..][i];
        }
      }
      if r.Some? then
        var i :| 0 <= i < |registry| - 1 && registry[1..][i] == r.value
                 && forall j :: 0 <= j < i ==> registry[1..][j].id != id;
        assert registry[i + 1] == r.value;
        assert forall j :: 0 <= j < i + 1 ==> registry[j].id != id by {
          forall j | 0 <= j < i + 1
            ensures registry[j].id != id
          {
            if j > 0 {
              assert registry[j] == registry[1..][j - 1];
            }
          }
        }
        r
      else r
  }
}
