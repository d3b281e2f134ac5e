/** `handle_lines_command` and `handle_file_command`: what each command does
    with the histories git gave it before the viewer starts. */
module Commands {
  import opened Wrappers
  import opened Text
  import opened Commits
  import opened Versions

  /** How a command ends before or at the viewer: a message that nothing was
      found, an error, or the viewer over these versions and this line range. */
  datatype Launch = NothingFound | Error(message: string) | Viewer(versions: seq<FileVersion>, startLine: nat, endLine: nat)

  /** `handle_file_command`: a failed version list is an error, an empty one
      is reported, any other opens the viewer over the whole file. */
  function FileCommand(versions: Result<seq<FileVersion>, string>): (l: Launch)
    ensures l.Viewer? <==> versions.Success? && versions.value != []
    ensures l.Viewer? ==> l.versions == versions.value && l.startLine == 1 && l.endLine == USIZE_MAX
  {
    match versions
    case Failure(e) => Error(e)
    case Success(vs) => if vs == [] then NothingFound else Viewer(vs, 1, USIZE_MAX)
  }

  /** `handle_lines_command` as written: a failed or empty line history stops
      it, but the version list is passed to the viewer unchecked. */
  function LinesCommandAsWritten(lineHistory: Result<seq<CommitInfo>, string>, versions: Result<seq<FileVersion>, string>,
                                 startLine: nat, endLine: nat): (l: Launch)
    ensures l.Viewer? <==> lineHistory.Success? && lineHistory.value != [] && versions.Success?
    ensures l.Viewer? ==> l.versions == versions.value && l.startLine == startLine && l.endLine == endLine
  {
    match lineHistory
    case Failure(e) => Error(e)
    case Success(commits) =>
      if commits == [] then NothingFound
      else match versions
        case Failure(e) => Error(e)
        case Success(vs) => Viewer(vs, startLine, endLine)
  }

  /** `handle_lines_command` with the emptiness check `handle_file_command`
      makes: the viewer opens only over at least one version. */
  function LinesCommand(lineHistory: Result<seq<CommitInfo>, string>, versions: Result<seq<FileVersion>, string>,
                        startLine: nat, endLine: nat): (l: Launch)
    ensures l.Viewer? <==> lineHistory.Success? && lineHistory.value != [] && versions.Success? && versions.value != []
    ensures l.Viewer? ==> l.versions == versions.value && l.startLine == startLine && l.endLine == endLine
  {
    match LinesCommandAsWritten(lineHistory, versions, startLine, endLine)
    case Viewer(vs, s, e) => if vs == [] then NothingFound else Viewer(vs, s, e)
    case other => other
  }

  /** Both readings agree whenever the version list is not empty. */
  lemma LinesCommandsAgree(lineHistory: Result<seq<CommitInfo>, string>, versions: Result<seq<FileVersion>, string>,
                           startLine: nat, endLine: nat)
    requires versions.Success? ==> versions.value != []
    ensures LinesCommand(lineHistory, versions, startLine, endLine) == LinesCommandAsWritten(lineHistory, versions, startLine, endLine)
  {
  }

  /** When no commit of the file's history could be blamed, assembly gives no
      version at all. */
  lemma {:induction false} NoBlameNoVersions(commits: seq<CommitInfo>, blame: map<string, string>)
    requires forall k :: 0 <= k < |commits| ==> commits[k].hash !in blame
    ensures Assemble(commits, blame) == []
  {
    if commits != [] {
      NoBlameNoVersions(commits[1..], blame);
    }
  }

  /** As written, a line range with some history whose file commits all fail
      to blame opens the viewer over no version at all, where
      `versions[current_version]` panics. */
  lemma LinesCommandOpensEmptyViewer(lineHistory: seq<CommitInfo>, log: string, blame: map<string, string>,
                                     startLine: nat, endLine: nat)
    requires lineHistory != []
    requires forall k :: 0 <= k < |FileHistory(log)| ==> FileHistory(log)[k].hash !in blame
    ensures LinesCommandAsWritten(Success(lineHistory), Success(Assemble(FileHistory(log), blame)), startLine, endLine)
         == Viewer([], startLine, endLine)
    ensures LinesCommand(Success(lineHistory), Success(Assemble(FileHistory(log), blame)), startLine, endLine)
         == NothingFound
  {
    NoBlameNoVersions(FileHistory(log), blame);
  }
}
