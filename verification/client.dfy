/** The boundary of the documentation service as `scripts/client.py` exposes
    it, and everything else the orchestrator cannot see: the files on disk
    and git. A `World` is a scripted oracle: it fixes, for every request the
    orchestrator may make, the reply it gets, each of which may be an error. */
module Client {
  import opened Results

  /** `AutodocOutputMode`: comments written into the source file itself, or
      an OpenAPI specification generated from one source file. */
  datatype OutputMode = Inline | OpenApi

  /** `RepositoryResponse`; the creation and update timestamps are left out. */
  datatype Repository = Repository(id: int, ownerId: string, name: string)

  /** `RegisterAutodocRunResponse`: the run's id and the submitted paths the
      service can document, each with its language. */
  datatype RegisteredRun = RegisteredRun(runId: int, fileLanguages: map<string, string>)

  /** `GenerateAutodocResponse`. */
  datatype Generated = Generated(documentedContent: string, tokensUsed: int)

  /** `ExplainAutodocResponse`. */
  datatype Explained = Explained(explanation: string, tokensUsed: int)

  /** The body of a per-file generation request: the file's path (sent as the
      `file_path` query parameter), the mode, the file's current content, its
      language, and, in inline mode only, the file's diff (`changes`). */
  datatype GenerateRequest = GenerateRequest(
    path: string,
    mode: OutputMode,
    content: string,
    language: string,
    changes: Option<string>)

  /** The arguments of one `git diff`: `--cached` or not, and the path it is
      limited to (appended only when the path is a non-empty string). */
  datatype GitDiffArgs = GitDiffArgs(cached: bool, path: Option<string>)

  datatype GitCommand = GitAdd | GitDiff

  /** Everything that can be raised while documenting a change. */
  datatype Error =
      /** `_check_for_error`: a reply whose status is not 200. */
    | RequestFailed(status: int, body: string)
      /** `open(path, 'r')` on a path that does not exist. */
    | FileNotFound(path: string)
      /** `open(path, 'w')` on a path that cannot be written. */
    | PermissionDenied(path: string)
      /** `_git_diff` or `_git_add` exiting with a non-zero code. */
    | GitFailed(command: GitCommand, stderr: string)
      /** A failed `assert` (no repository name, or an empty OpenAPI spec path). */
    | AssertionFailed
      /** `os.path.exists(None)`: OpenAPI mode without a spec path. */
    | SpecPathMissing

  function DigitChar(d: nat): char
    requires d < 10
  {
    "0123456789"[d]
  }

  function NatToString(n: nat): string
    decreases n
  {
    if n < 10 then [DigitChar(n)] else NatToString(n / 10) + [DigitChar(n % 10)]
  }

  /** Python's `str(i)` for an integer. */
  function IntToString(i: int): string
  {
    if i < 0 then "-" + NatToString(-i) else NatToString(i)
  }

  /** `str(e)`: the text reported to the service when a run fails. */
  function Message(e: Error): string
  {
    match e
    case RequestFailed(status, body) =>
      "Request failed with status code " + IntToString(status) + ". Response: " + body
    case FileNotFound(path) => "[Errno 2] No such file or directory: '" + path + "'"
    case PermissionDenied(path) => "[Errno 13] Permission denied: '" + path + "'"
    case GitFailed(GitAdd, stderr) => "Failed to run git add: " + stderr
    case GitFailed(GitDiff, stderr) => "Failed to run git diff: " + stderr
    case AssertionFailed => ""
    case SpecPathMissing => "stat: path should be string, bytes, os.PathLike or integer, not NoneType"
  }

  /** The outside world as the orchestrator meets it: the files on disk before
      the run, the paths that cannot be written, and the reply to every call
      of the service and of git, as a function of that call's arguments. */
  datatype World = World(
    files: map<string, string>,
    readOnly: set<string>,
    listRepositories: Result<seq<Repository>, Error>,
    createRepository: string -> Result<Repository, Error>,
    createRun: (int, string, seq<string>) -> Result<RegisteredRun, Error>,
    generate: (int, GenerateRequest) -> Result<Generated, Error>,
    explain: (int, OutputMode, string) -> Result<Explained, Error>,
    gitAdd: string -> Result<(), Error>,
    gitDiff: GitDiffArgs -> Result<string, Error>,
    markFailed: (int, string) -> Result<(), Error>)
}
