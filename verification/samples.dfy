/**
 * Three registry entries, as the bundled registry declares them: the
 * filesystem server (a list of paths, asked for in multiple mode), the git
 * server (one repository path) and the Artemis server (one environment
 * variable that is required by default).
 */
module Samples {
  import opened Wrappers
  import opened Types

  const Anthropic := Publisher("modelcontextprotocol", "Anthropic, PBC", "https://modelcontextprotocol.io/")

  const FilesystemRef := Server(
    "filesystem-ref",
    "Filesystem",
    "Local filesystem access with configurable allowed paths. A Model Context Protocol reference server.",
    Anthropic,
    false,
    "https://github.com/modelcontextprotocol/servers/tree/main/src/filesystem",
    Distribution(Npm, Some("@modelcontextprotocol/server-filesystem")),
    Some("MIT"),
    Node,
    McpConfig(
      "npx",
      ["-y", "@modelcontextprotocol/server-filesystem"],
      [],
      Some(RuntimeArgs(
        "Directories that the server will be allowed to access",
        List(["/Users/username/Desktop"]),
        true))))

  const GitRef := Server(
    "git-ref",
    "Git",
    "Tools to read, search, and manipulate Git repositories. A Model Context Protocol reference server.",
    Anthropic,
    false,
    "https://github.com/modelcontextprotocol/servers/tree/main/src/git",
    Distribution(Pip, Some("mcp-server-git")),
    Some("MIT"),
    Python,
    McpConfig(
      "uvx",
      ["mcp-server-git", "--repository"],
      [],
      Some(RuntimeArgs("Filepath to the Git repository", List(["path/to/git/repo"]), false))))

  const Artemis := Server(
    "artemis",
    "Artemis Analytics",
    "Pull the latest fundamental crypto data from Artemis natively into your favorite chatbot interface.",
    Publisher("Artemis-xyz", "Artemis Analytics Inc.", "https://www.artemis.xyz/"),
    true,
    "https://github.com/Artemis-xyz/artemis-mcp",
    Distribution(Pip, Some("artemis-mcp")),
    Some("MIT"),
    Python,
    McpConfig(
      "uvx",
      ["artemis-mcp"],
      [("ARTEMIS_API_KEY", EnvVariable("Your Artemis API key from https://app.artemis.xyz/settings.", None))],
      None))
}
