/** The program's closed set of error kinds (src/error.rs). Library errors
    (git2, I/O, JSON) carry their message as text. */
module Errors {

  datatype Error =
    | NotInGitRepo
    | BranchNotClean
    | CannotBeInMainBranch(branch: string)
    | NoCommits
    | Git(message: string)
    | Io(message: string)
    | Json(message: string)
    | GitHubCli(message: string)
    | EnvVar(name: string)
    | Config(message: string)
    | Cancelled
    | InvalidInput(message: string)
    | Prompt(message: string)
      // Not a variant of the source enum: the corrected base-branch selection
      // reports an empty candidate list with it instead of panicking.
    | NoBaseBranch
}
