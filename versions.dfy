/** `get_file_versions`: one version of the file per commit of its history,
    each carrying the blame of the file as of that commit. */
module Versions {
  import opened Wrappers
  import opened Text
  import opened Commits
  import opened Blame

  datatype FileVersion = FileVersion(commitHash: string, commitDate: string, commitMessage: string, blameLines: seq<BlameLine>)

  /** The blame text git printed for each commit it could blame; a commit
      missing from the map is one whose `git blame` failed. */
  predicate BlameParses(blame: map<string, string>) {
    forall hash :: hash in blame ==> HashesCut(Lines(blame[hash]))
  }

  function VersionOf(c: CommitInfo, blame: map<string, string>): FileVersion
    requires c.hash in blame
  {
    FileVersion(c.hash, c.date, c.message, ParseLines(Lines(blame[c.hash])))
  }

  /** The versions of a commit list: commits without blame are skipped, the
      others keep their order. */
  function Assemble(commits: seq<CommitInfo>, blame: map<string, string>): seq<FileVersion> {
    if commits == [] then []
    else (if commits[0].hash in blame then [VersionOf(commits[0], blame)] else []) + Assemble(commits[1..], blame)
  }

  lemma AssembleAt(commits: seq<CommitInfo>, i: nat, blame: map<string, string>)
    requires i < |commits|
    ensures commits[i].hash in blame ==> Assemble(commits[i..], blame) == [VersionOf(commits[i], blame)] + Assemble(commits[i + 1..], blame)
    ensures commits[i].hash !in blame ==> Assemble(commits[i..], blame) == Assemble(commits[i + 1..], blame)
  {
    assert commits[i..][0] == commits[i] && commits[i..][1..] == commits[i + 1..];
  }

  /** `get_file_versions`: a failed `git log` is passed on as the error; then
      each commit's blame is parsed and commits whose blame failed are skipped. */
  method GetFileVersions(log: Result<string, string>, blame: map<string, string>) returns (r: Result<seq<FileVersion>, string>)
    requires BlameParses(blame)
    ensures log.Failure? ==> r == Failure(log.error)
    ensures log.Success? ==> r == Success(Assemble(FileHistory(log.value), blame))
  {
    if log.Failure? {
      return Failure(log.error);
    }
    var commits := FileHistory(log.value);
    var versions := [];
    var i := 0;
    while i < |commits|
      invariant i <= |commits|
      invariant versions + Assemble(commits[i..], blame) == Assemble(commits, blame)
    {
      var commit := commits[i];
      AssembleAt(commits, i, blame);
      if commit.hash in blame {
        var blameLines := ParseBlameOutput(blame[commit.hash]);
        var version := FileVersion(commit.hash, commit.date, commit.message, blameLines);
        assert version == VersionOf(commit, blame);
        versions := versions + [version];
      }
      i := i + 1;
    }
    assert commits[i..] == [];
    assert versions + [] == versions;
    return Success(versions);
  }

  /** The versions of two stretches of history follow each other in the same order. */
  lemma {:induction false} AssembleAppend(a: seq<CommitInfo>, b: seq<CommitInfo>, blame: map<string, string>)
    ensures Assemble(a + b, blame) == Assemble(a, blame) + Assemble(b, blame)
  {
    if a != [] {
      assert (a + b)[0] == a[0] && (a + b)[1..] == a[1..] + b;
      AssembleAppend(a[1..], b, blame);
    } else {
      assert a + b == b;
    }
  }

  /** When every commit could be blamed there is one version per commit, in
      the same order, each with that commit's id, date, message and blame. */
  lemma {:induction false} AssembleAllBlamed(commits: seq<CommitInfo>, blame: map<string, string>)
    requires forall k :: 0 <= k < |commits| ==> commits[k].hash in blame
    ensures |Assemble(commits, blame)| == |commits|
    ensures forall k :: 0 <= k < |commits| ==> Assemble(commits, blame)[k] == VersionOf(commits[k], blame)
  {
    if commits != [] {
      var rest := Assemble(commits[1..], blame);
      assert Assemble(commits, blame) == [VersionOf(commits[0], blame)] + rest;
      AssembleAllBlamed(commits[1..], blame);
      forall k | 0 < k < |commits| ensures Assemble(commits, blame)[k] == VersionOf(commits[k], blame) {
        assert commits[k] == commits[1..][k - 1];
      }
    }
  }

  /** A version is present exactly when some commit of the history could be
      blamed and the version is made from that commit. */
  lemma {:induction false} AssembleMembers(commits: seq<CommitInfo>, blame: map<string, string>, v: FileVersion)
    ensures v in Assemble(commits, blame) <==> exists c :: c in commits && c.hash in blame && v == VersionOf(c, blame)
  {
    if commits != [] {
      AssembleMembers(commits[1..], blame, v);
      var head := if commits[0].hash in blame then [VersionOf(commits[0], blame)] else [];
      assert Assemble(commits, blame) == head + Assemble(commits[1..], blame);
      if exists c :: c in commits && c.hash in blame && v == VersionOf(c, blame) {
        var c :| c in commits && c.hash in blame && v == VersionOf(c, blame);
        if c != commits[0] {
          assert c in commits[1..];
        }
      }
      forall c | c in commits[1..] ensures c in commits {
      }
    }
  }

  /** The versions never outnumber the commits. */
  lemma {:induction false} AssembleLength(commits: seq<CommitInfo>, blame: map<string, string>)
    ensures |Assemble(commits, blame)| <= |commits|
  {
    if commits != [] {
      AssembleLength(commits[1..], blame);
    }
  }
}
