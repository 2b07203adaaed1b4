/**
 * The simulator object itself: the Git state held in fields that the command handlers update
 * in place. Each handler is proved to leave the state, and to print the lines, that the matching
 * transition of `Repo` describes, so everything proved about `Repo` holds of the object too.
 */
module Simulator {
  import opened Wrappers
  import opened PyDict
  import opened Repo
  import RepoProperties

  /** The loop of `git_add`: stages every modified file, and says whether there was one. */
  method StageModified(d: Dict<GitFile>) returns (r: Dict<GitFile>, added: bool)
    requires d.Valid()
    ensures r == StageAll(d)
    ensures added == AnyModified(d)
  {
    r := d;
    added := false;
    var i := 0;
    while i < |d.keys|
      invariant 0 <= i <= |d.keys|
      invariant StageKeys(r, d.entries, d.keys[i..]) == StageKeys(d, d.entries, d.keys)
      invariant (added || RepoProperties.ModifiedAmong(d.entries, d.keys[i..])) == RepoProperties.ModifiedAmong(d.entries, d.keys)
    {
      var k := d.keys[i];
      assert d.keys[i..][1..] == d.keys[i + 1..];
      var f := d.entries[k];
      if f.modified {
        r := Put(r, k, f.(staged := true));
        added := true;
      }
      i := i + 1;
    }
    assert r == StageAll(d) by {
      RepoProperties.StageKeysAll(d);
    }
    assert added == AnyModified(d) by {
      RepoProperties.ModifiedAmongAll(d);
    }
  }

  /** The loop of `git_commit` over the staged files, as they were when the list was taken:
      commits each one and records its content in the branch snapshot `snap`. */
  method CommitEach(d: Dict<GitFile>, staged: seq<string>, snap: Dict<string>)
    returns (r: Dict<GitFile>, snap': Dict<string>)
    requires forall k <- staged :: k in d.entries
    ensures r == CommitKeys(d, d.entries, staged)
    ensures snap' == RecordFiles(snap, d.entries, staged)
  {
    r := d;
    snap' := snap;
    var j := 0;
    while j < |staged|
      invariant 0 <= j <= |staged|
      invariant CommitKeys(r, d.entries, staged[j..]) == CommitKeys(d, d.entries, staged)
      invariant RecordFiles(snap', d.entries, staged[j..]) == RecordFiles(snap, d.entries, staged)
    {
      assert staged[j..][1..] == staged[j + 1..];
      var f := d.entries[staged[j]];
      r := Put(r, staged[j], CommitFile(f));
      snap' := Put(snap', f.name, f.content);
      j := j + 1;
    }
  }

  /** The loop of `git_checkout`: the loaded files rebuilt, one by one, from a snapshot. */
  method LoadSnapshot(snap: Dict<string>) returns (r: Dict<GitFile>)
    requires snap.Valid()
    ensures r == FromSnapshot(snap)
  {
    r := Empty();
    var i := 0;
    while i < |snap.keys|
      invariant 0 <= i <= |snap.keys|
      invariant r.keys == snap.keys[..i]
      invariant forall k :: k in r.entries <==> k in snap.keys[..i]
      invariant forall k :: k in r.entries ==> r.entries[k] == SnapshotFile(k, snap.entries[k])
    {
      var name := snap.keys[i];
      assert snap.keys[..i + 1] == snap.keys[..i] + [name];
      assert name !in snap.keys[..i];
      r := Put(r, name, SnapshotFile(name, snap.entries[name]));
      i := i + 1;
    }
    assert snap.keys[..i] == snap.keys;
    assert r.entries == FromSnapshot(snap).entries;
  }

  /** The loop of `git_merge`: writes every file of `src` over the loaded files `d` and over the
      snapshot `snap`. */
  method MergeSnapshot(d: Dict<GitFile>, snap: Dict<string>, src: Dict<string>)
    returns (r: Dict<GitFile>, snap': Dict<string>)
    requires src.Valid()
    ensures r == Update(d, FromSnapshot(src))
    ensures snap' == Update(snap, src)
  {
    ghost var incoming := FromSnapshot(src).entries;
    r := d;
    snap' := snap;
    var i := 0;
    while i < |src.keys|
      invariant 0 <= i <= |src.keys|
      invariant PutEach(r, incoming, src.keys[i..]) == Update(d, FromSnapshot(src))
      invariant PutEach(snap', src.entries, src.keys[i..]) == Update(snap, src)
    {
      var name := src.keys[i];
      assert src.keys[i..][1..] == src.keys[i + 1..];
      var content := src.entries[name];
      r := Put(r, name, SnapshotFile(name, content));
      snap' := Put(snap', name, content);
      i := i + 1;
    }
  }

  /** A successful commit, written field by field. */
  lemma CommitWrites(s: State, msg: Option<string>, committed: Dict<GitFile>, snap: Dict<string>)
    requires Inv(s) && Given(msg)
    requires StagedKeys(s.files.keys, s.files.entries) != []
    requires committed == CommitKeys(s.files, s.files.entries, StagedKeys(s.files.keys, s.files.entries))
    requires snap == RecordFiles(s.branchFiles.entries[s.currentBranch], s.files.entries,
                                 StagedKeys(s.files.keys, s.files.entries))
    ensures GitCommit(s, msg).next
         == s.(files := committed,
               branchFiles := Put(s.branchFiles, s.currentBranch, snap),
               commitHistory := s.commitHistory + [msg.value],
               branches := Put(s.branches, s.currentBranch, s.branches.entries[s.currentBranch] + [msg.value]))
  {
    RepoProperties.CommitKeysStaged(s.files);
  }

  class GitSimulator {
    var repoInitialized: bool
    var currentBranch: string
    var files: Dict<GitFile>
    var branchFiles: Dict<Dict<string>>
    var branches: Dict<seq<string>>
    var commitHistory: seq<string>
    var remoteConnected: bool
    var currentFile: Option<string>

    /** The fields as a state record. */
    function View(): State
      reads this
    {
      State(repoInitialized, currentBranch, files, branchFiles, branches, commitHistory,
            remoteConnected, currentFile)
    }

    ghost predicate Valid()
      reads this
    {
      Inv(View())
    }

    constructor()
      ensures View() == Initial()
      ensures Valid()
    {
      repoInitialized := false;
      currentBranch := "main";
      files := Empty();
      branchFiles := Put(Empty(), "main", Empty());
      branches := Put(Empty(), "main", []);
      commitHistory := [];
      remoteConnected := false;
      currentFile := None;
      RepoProperties.InitialInv();
    }

    /** `open_file(name)`, called by the other file actions with a loaded name. */
    method OpenFile(name: string) returns (out: seq<Message>)
      requires name in files.entries
      modifies this
      ensures View() == Repo.OpenFile(old(View()), name).next
      ensures out == Repo.OpenFile(old(View()), name).out
    {
      currentFile := Some(name);
      out := [FileOpened(name)];
    }

    /** `new_file`, with the name typed into its dialog. */
    method NewFile(name: Option<string>) returns (out: seq<Message>)
      requires Valid()
      modifies this
      ensures Valid()
      ensures View() == Repo.NewFile(old(View()), name).next
      ensures out == Repo.NewFile(old(View()), name).out
    {
      ghost var s0 := View();
      if !repoInitialized {
        out := [RepoNotInitialized];
      } else if Given(name) && name.value !in files.entries {
        var n := name.value;
        var added := Put(files, n, NewGitFile(n));
        SetFiles(added);
        var shown := OpenFile(n);
        out := [FileCreated(n)] + shown;
      } else {
        out := [];
      }
      assert Valid() by {
        RepoProperties.NewFilePreservesInv(s0, name);
      }
    }

    /** `open_file_dialog`, with the name typed into its dialog. */
    method OpenFileDialog(name: Option<string>) returns (out: seq<Message>)
      requires Valid()
      modifies this
      ensures Valid()
      ensures View() == Repo.OpenFileDialog(old(View()), name).next
      ensures out == Repo.OpenFileDialog(old(View()), name).out
    {
      RepoProperties.OpenFileDialogPreservesInv(View(), name);
      if name.Some? && name.value in files.entries {
        out := OpenFile(name.value);
      } else {
        out := [FileNotFound(name)];
      }
    }

    /** `save_file`, with the text of the editor. */
    method SaveFile(text: string) returns (out: seq<Message>)
      requires Valid()
      modifies this
      ensures Valid()
      ensures View() == Repo.SaveFile(old(View()), text).next
      ensures out == Repo.SaveFile(old(View()), text).out
    {
      ghost var s0 := View();
      if !Given(currentFile) {
        out := [NoFileOpen];
      } else if currentFile.value !in files.entries {
        out := [KeyError(currentFile.value)];
      } else {
        var n := currentFile.value;
        var f := files.entries[n];
        var saved := Put(files, n, f.(content := text, modified := true));
        SetFiles(saved);
        out := [FileSaved(n)];
      }
      assert Valid() by {
        RepoProperties.SaveFilePreservesInv(s0, text);
      }
    }

    /** `reset_file` */
    method ResetFile() returns (out: seq<Message>)
      requires Valid()
      modifies this
      ensures Valid()
      ensures View() == Repo.ResetFile(old(View())).next
      ensures out == Repo.ResetFile(old(View())).out
    {
      ghost var s0 := View();
      if !Given(currentFile) {
        out := [NoFileOpen];
      } else if currentFile.value !in files.entries {
        out := [KeyError(currentFile.value)];
      } else {
        var n := currentFile.value;
        var f := files.entries[n];
        var reset := Put(files, n, f.(content := f.lastCommitContent, modified := false, staged := false));
        SetFiles(reset);
        var shown := OpenFile(n);
        out := shown + [FileReset(n)];
      }
      assert Valid() by {
        RepoProperties.ResetFilePreservesInv(s0);
      }
    }

    /** `git_init` */
    method GitInit() returns (out: seq<Message>)
      requires Valid()
      modifies this
      ensures Valid()
      ensures View() == Repo.GitInit(old(View())).next
      ensures out == Repo.GitInit(old(View())).out
    {
      repoInitialized := true;
      out := [RepoInitialized];
    }

    /** `git_add`: stages every modified file. */
    method GitAdd() returns (out: seq<Message>)
      requires Valid()
      modifies this
      ensures Valid()
      ensures View() == Repo.GitAdd(old(View())).next
      ensures out == Repo.GitAdd(old(View())).out
    {
      ghost var s0 := View();
      var staged, added := StageModified(files);
      SetFiles(staged);
      out := if added then [ChangesStaged] else [NothingToAdd];
      assert Valid() by {
        RepoProperties.GitAddPreservesInv(s0);
      }
    }

    /** Replaces the loaded files. */
    method SetFiles(fs: Dict<GitFile>)
      modifies this
      ensures View() == old(View()).(files := fs)
    {
      files := fs;
    }

    /** `git_commit`, with the message typed into its dialog: commits every staged file, records
        it in the current branch's snapshot, and appends the message to both commit lists. */
    method GitCommit(msg: Option<string>) returns (out: seq<Message>)
      requires Valid()
      modifies this
      ensures Valid()
      ensures View() == Repo.GitCommit(old(View()), msg).next
      ensures out == Repo.GitCommit(old(View()), msg).out
    {
      ghost var s0 := View();
      var staged := StagedKeys(files.keys, files.entries);
      if staged == [] {
        out := [NothingToCommit];
      } else if !Given(msg) {
        out := [];
      } else {
        var cur := currentBranch;
        var committed, snap := CommitEach(files, staged, branchFiles.entries[cur]);
        CommitWrites(s0, msg, committed, snap);
        RecordCommit(committed, Put(branchFiles, cur, snap), commitHistory + [msg.value],
              Put(branches, cur, branches.entries[cur] + [msg.value]));
        out := [Committed(msg.value)];
      }
      assert Valid() by {
        RepoProperties.GitCommitPreservesInv(s0, msg);
      }
    }

    /** Records a commit: writes the loaded files, the branch snapshots and the two commit lists. */
    method RecordCommit(fs: Dict<GitFile>, bf: Dict<Dict<string>>, history: seq<string>, logs: Dict<seq<string>>)
      modifies this
      ensures View() == old(View()).(files := fs, branchFiles := bf, commitHistory := history, branches := logs)
    {
      files, branchFiles, commitHistory, branches := fs, bf, history, logs;
    }

    /** `git_checkout`, with the branch name typed into its dialog: creates the branch if it is
        new, switches to it, and reloads the files from its snapshot. */
    method GitCheckout(branch: Option<string>) returns (out: seq<Message>)
      requires Valid()
      modifies this
      ensures Valid()
      ensures View() == Repo.GitCheckout(old(View()), branch).next
      ensures out == Repo.GitCheckout(old(View()), branch).out
    {
      RepoProperties.GitCheckoutPreservesInv(View(), branch);
      if !Given(branch) {
        out := [];
      } else {
        var b := branch.value;
        out := [];
        if b !in branches.entries {
          AddBranch(b);
          out := [BranchCreated(b)];
        }
        var loaded := LoadSnapshot(branchFiles.entries[b]);
        SwitchTo(b, loaded);
        out := out + [SwitchedTo(b)];
      }
    }

    /** A new branch with no commits and no files. */
    method AddBranch(b: string)
      modifies this
      ensures View() == old(View()).(branches := Put(old(branches), b, []),
                                      branchFiles := Put(old(branchFiles), b, Empty()))
    {
      branches := Put(branches, b, []);
      branchFiles := Put(branchFiles, b, Empty());
    }

    /** Makes `b` the current branch, with `fs` as the loaded files. */
    method SwitchTo(b: string, fs: Dict<GitFile>)
      modifies this
      ensures View() == old(View()).(currentBranch := b, files := fs)
    {
      currentBranch := b;
      files := fs;
    }

    /** `git_merge`, with the branch name typed into its dialog: writes every file of the other
        branch's snapshot over the loaded files and over the current branch's snapshot. */
    method GitMerge(branch: Option<string>) returns (out: seq<Message>)
      requires Valid()
      modifies this
      ensures Valid()
      ensures View() == Repo.GitMerge(old(View()), branch).next
      ensures out == Repo.GitMerge(old(View()), branch).out
    {
      ghost var s0 := View();
      var cur := currentBranch;
      if Given(branch) && branch.value != cur && branch.value in branchFiles.entries {
        var b := branch.value;
        var merged, snap := MergeSnapshot(files, branchFiles.entries[cur], branchFiles.entries[b]);
        RecordMerge(merged, Put(branchFiles, cur, snap));
        out := [Merged(b, cur)];
      } else {
        out := [InvalidBranch];
      }
      assert Valid() by {
        RepoProperties.GitMergePreservesInv(s0, branch);
      }
    }

    /** Records a merge: writes the loaded files and the branch snapshots. */
    method RecordMerge(fs: Dict<GitFile>, bf: Dict<Dict<string>>)
      modifies this
      ensures View() == old(View()).(files := fs, branchFiles := bf)
    {
      files, branchFiles := fs, bf;
    }

    /** `git_remote_add` */
    method GitRemoteAdd() returns (out: seq<Message>)
      requires Valid()
      modifies this
      ensures Valid()
      ensures View() == Repo.GitRemoteAdd(old(View())).next
      ensures out == Repo.GitRemoteAdd(old(View())).out
    {
      remoteConnected := true;
      out := [RemoteAdded];
    }
  }
}
