/**
 * The in-memory repository of the Git learning playground, as values: the tracked files, the
 * per-branch snapshots and commit lists, and one transition function per command handler.
 * A transition returns the next state together with the lines the handler prints.
 */
module Repo {
  import opened Wrappers
  import opened PyDict

  /** A simulated tracked file. */
  datatype GitFile = GitFile(
    name: string,
    modified: bool,
    staged: bool,
    committed: bool,
    content: string,
    lastCommitContent: string)

  /** `GitFile(name)`: a fresh file with no content and every flag cleared. */
  function NewGitFile(name: string): GitFile {
    GitFile(name, false, false, false, "", "")
  }

  /** The file rebuilt from a branch snapshot by checkout and merge: committed, clean. */
  function SnapshotFile(name: string, content: string): GitFile {
    GitFile(name, false, false, true, content, content)
  }

  /** The lines the handlers print, one constructor per message. `KeyError` stands for the
      uncaught exception raised when a handler looks up a file that is no longer loaded. */
  datatype Message =
    | RepoNotInitialized
    | FileCreated(name: string)
    | FileNotFound(query: Option<string>)
    | FileOpened(name: string)
    | FileSaved(name: string)
    | NoFileOpen
    | FileReset(name: string)
    | KeyError(key: string)
    | RepoInitialized
    | ChangesStaged
    | NothingToAdd
    | NothingToCommit
    | Committed(message: string)
    | LogHeader
    | LogEntry(message: string)
    | StatusHeader
    | StagedEntry(name: string)
    | ModifiedEntry(name: string)
    | UntrackedEntry(name: string)
    | LsFilesHeader(branch: string)
    | LsFilesEntry(name: string)
    | BranchEntry(branch: string, current: bool)
    | BranchCreated(branch: string)
    | SwitchedTo(branch: string)
    | Merged(source: string, target: string)
    | InvalidBranch
    | RemoteAdded
    | Pushed
    | Pulled
    | NoRemote

  /** The simulator's Git state. */
  datatype State = State(
    initialized: bool,
    currentBranch: string,
    files: Dict<GitFile>,              // the files currently loaded
    branchFiles: Dict<Dict<string>>,   // branch -> {file name -> committed content}
    branches: Dict<seq<string>>,       // branch -> commit messages, oldest first
    commitHistory: seq<string>,        // every commit message, on any branch
    remoteConnected: bool,
    currentFile: Option<string>)       // the file open in the editor, if any

  /** What a handler leaves behind: the next state and the lines it printed. */
  datatype Step = Step(next: State, out: seq<Message>)

  /** The state a new simulator starts in. */
  function Initial(): State {
    State(false, "main", Empty(), Put(Empty(), "main", Empty()), Put(Empty(), "main", []), [],
          false, None)
  }

  /** A loaded file is stored under its own name; it is staged only while modified; and while
      unmodified it holds the content it had at its last commit. */
  predicate WellFormed(k: string, f: GitFile) {
    && f.name == k
    && (f.staged ==> f.modified)
    && (!f.modified ==> f.content == f.lastCommitContent)
  }

  /** The loaded files agree with the current branch's snapshot: the committed files are exactly
      the snapshot's files, each with the snapshot's content as its last committed content. */
  ghost predicate Tracks(fs: map<string, GitFile>, snap: map<string, string>) {
    && (forall k :: k in fs ==> (fs[k].committed <==> k in snap))
    && (forall k :: k in snap ==> k in fs && fs[k].lastCommitContent == snap[k])
  }

  /** Every dictionary lookup the handlers make succeeds: the dictionaries are well formed, the
      commit lists and the snapshots name the same branches, and the current branch is one. */
  ghost predicate Consistent(s: State) {
    && s.files.Valid()
    && s.branchFiles.Valid()
    && s.branches.Valid()
    && (forall b :: b in s.branchFiles.entries ==> s.branchFiles.entries[b].Valid())
    && s.branches.keys == s.branchFiles.keys
    && s.currentBranch in s.branches.entries
    && s.currentBranch in s.branchFiles.entries
  }

  /** The invariant the simulator keeps from construction on. */
  ghost predicate Inv(s: State) {
    && Consistent(s)
    && (forall k :: k in s.files.entries ==> WellFormed(k, s.files.entries[k]))
    && Tracks(s.files.entries, s.branchFiles.entries[s.currentBranch].entries)
  }

  // ---------------------------------------------------------------- file actions

  /** `open_file(name)`: makes `name` the file open in the editor. */
  function OpenFile(s: State, name: string): Step
    requires name in s.files.entries
  {
    Step(s.(currentFile := Some(name)), [FileOpened(name)])
  }

  /** `new_file`, with the name typed into its dialog. */
  function NewFile(s: State, name: Option<string>): Step {
    if !s.initialized then
      Step(s, [RepoNotInitialized])
    else if Given(name) && name.value !in s.files.entries then
      var n := name.value;
      var afterOpen := OpenFile(s.(files := Put(s.files, n, NewGitFile(n))), n);
      Step(afterOpen.next, [FileCreated(n)] + afterOpen.out)
    else
      Step(s, [])
  }

  /** `open_file_dialog`, with the name typed into its dialog. */
  function OpenFileDialog(s: State, name: Option<string>): Step {
    if name.Some? && name.value in s.files.entries then OpenFile(s, name.value)
    else Step(s, [FileNotFound(name)])
  }

  /** `save_file`, with the text of the editor. */
  function SaveFile(s: State, text: string): Step {
    if !Given(s.currentFile) then
      Step(s, [NoFileOpen])
    else
      var n := s.currentFile.value;
      if n !in s.files.entries then
        Step(s, [KeyError(n)])
      else
        var f := s.files.entries[n];
        Step(s.(files := Put(s.files, n, f.(content := text, modified := true))), [FileSaved(n)])
  }

  /** `reset_file`: back to the last committed content, unstaged. */
  function ResetFile(s: State): Step {
    if !Given(s.currentFile) then
      Step(s, [NoFileOpen])
    else
      var n := s.currentFile.value;
      if n !in s.files.entries then
        Step(s, [KeyError(n)])
      else
        var f := s.files.entries[n];
        var f' := f.(content := f.lastCommitContent, modified := false, staged := false);
        var afterOpen := OpenFile(s.(files := Put(s.files, n, f')), n);
        Step(afterOpen.next, afterOpen.out + [FileReset(n)])
  }

  // ---------------------------------------------------------------- git commands

  /** `git_init` */
  function GitInit(s: State): Step {
    Step(s.(initialized := true), [RepoInitialized])
  }

  /** The file after `git add`: staged if it was modified. */
  function Stage(f: GitFile): GitFile {
    if f.modified then f.(staged := true) else f
  }

  /** The loaded files `d` after staging, one at a time, those files of `ks` that `fs` holds as
      modified. */
  function StageKeys(d: Dict<GitFile>, fs: map<string, GitFile>, ks: seq<string>): Dict<GitFile>
    requires forall k <- ks :: k in fs
    decreases |ks|
  {
    if ks == [] then d
    else StageKeys(if fs[ks[0]].modified then Put(d, ks[0], fs[ks[0]].(staged := true)) else d, fs, ks[1..])
  }

  /** The loaded files after `git add`. */
  function StageAll(d: Dict<GitFile>): Dict<GitFile> {
    Dict(d.keys, map k | k in d.entries :: Stage(d.entries[k]))
  }

  /** Some loaded file has changes that are not committed. */
  predicate AnyModified(d: Dict<GitFile>) {
    exists k | k in d.entries :: d.entries[k].modified
  }

  /** `git_add` */
  function GitAdd(s: State): Step {
    Step(s.(files := StageAll(s.files)), if AnyModified(s.files) then [ChangesStaged] else [NothingToAdd])
  }

  /** The names, in dictionary order, of the staged files. */
  function StagedKeys(ks: seq<string>, fs: map<string, GitFile>): (r: seq<string>)
    requires forall k <- ks :: k in fs
    ensures forall k :: k in r <==> k in ks && fs[k].staged
    decreases |ks|
  {
    if ks == [] then []
    else (if fs[ks[0]].staged then [ks[0]] else []) + StagedKeys(ks[1..], fs)
  }

  /** The file after it is committed. */
  function CommitFile(f: GitFile): GitFile {
    f.(modified := false, staged := false, committed := true, lastCommitContent := f.content)
  }

  /** Records each file of `ks` in a branch snapshot, under the file's name. */
  function RecordFiles(snap: Dict<string>, fs: map<string, GitFile>, ks: seq<string>): Dict<string>
    requires forall k <- ks :: k in fs
    decreases |ks|
  {
    if ks == [] then snap
    else RecordFiles(Put(snap, fs[ks[0]].name, fs[ks[0]].content), fs, ks[1..])
  }

  /** The loaded files `d` after committing, one at a time, the files `ks` as `fs` holds them. */
  function CommitKeys(d: Dict<GitFile>, fs: map<string, GitFile>, ks: seq<string>): Dict<GitFile>
    requires forall k <- ks :: k in fs
    decreases |ks|
  {
    if ks == [] then d else CommitKeys(Put(d, ks[0], CommitFile(fs[ks[0]])), fs, ks[1..])
  }

  /** The loaded files after a commit: every staged file committed, the others as they were. */
  function CommitStaged(d: Dict<GitFile>): Dict<GitFile> {
    Dict(d.keys, map k | k in d.entries :: if d.entries[k].staged then CommitFile(d.entries[k]) else d.entries[k])
  }

  /** `git_commit`, with the message typed into its dialog (asked only when something is staged). */
  function GitCommit(s: State, msg: Option<string>): Step
    requires Consistent(s)
  {
    var staged := StagedKeys(s.files.keys, s.files.entries);
    if staged == [] then
      Step(s, [NothingToCommit])
    else if !Given(msg) then
      Step(s, [])
    else
      var cur := s.currentBranch;
      var snap := RecordFiles(s.branchFiles.entries[cur], s.files.entries, staged);
      Step(s.(files := CommitStaged(s.files),
              branchFiles := Put(s.branchFiles, cur, snap),
              commitHistory := s.commitHistory + [msg.value],
              branches := Put(s.branches, cur, s.branches.entries[cur] + [msg.value])),
           [Committed(msg.value)])
  }

  /** The loaded files rebuilt from a branch snapshot, in the snapshot's order. */
  function FromSnapshot(snap: Dict<string>): Dict<GitFile> {
    Dict(snap.keys, map k | k in snap.entries :: SnapshotFile(k, snap.entries[k]))
  }

  /** `git_checkout`, with the branch name typed into its dialog. */
  function GitCheckout(s: State, branch: Option<string>): Step
    requires Consistent(s)
  {
    if !Given(branch) then
      Step(s, [])
    else
      var b := branch.value;
      var created := b !in s.branches.entries;
      var branches := if created then Put(s.branches, b, []) else s.branches;
      var branchFiles := if created then Put(s.branchFiles, b, Empty()) else s.branchFiles;
      Step(s.(branches := branches, branchFiles := branchFiles, currentBranch := b,
              files := FromSnapshot(branchFiles.entries[b])),
           (if created then [BranchCreated(b)] else []) + [SwitchedTo(b)])
  }

  /** `git_merge`, with the branch name typed into its dialog: the source branch's snapshot is
      written over the loaded files and over the current branch's snapshot. */
  function GitMerge(s: State, branch: Option<string>): Step
    requires Consistent(s)
  {
    var cur := s.currentBranch;
    if Given(branch) && branch.value != cur && branch.value in s.branchFiles.entries then
      var src := s.branchFiles.entries[branch.value];
      Step(s.(files := Update(s.files, FromSnapshot(src)),
              branchFiles := Put(s.branchFiles, cur, Update(s.branchFiles.entries[cur], src))),
           [Merged(branch.value, cur)])
    else
      Step(s, [InvalidBranch])
  }

  /** `git_remote_add` */
  function GitRemoteAdd(s: State): Step {
    Step(s.(remoteConnected := true), [RemoteAdded])
  }

  // ---------------------------------------------------------------- read-only commands

  /** The log entries of `msgs`, newest first. */
  function NewestFirst(msgs: seq<string>): seq<Message>
    decreases |msgs|
  {
    if msgs == [] then [] else [LogEntry(msgs[|msgs| - 1])] + NewestFirst(msgs[..|msgs| - 1])
  }

  /** `git_log`: the current branch's commit messages, newest first. */
  function GitLog(s: State): seq<Message>
    requires s.currentBranch in s.branches.entries
  {
    [LogHeader] + NewestFirst(s.branches.entries[s.currentBranch])
  }

  /** The status line of one file, if it has one. */
  function StatusOf(name: string, f: GitFile): seq<Message> {
    if f.staged then [StagedEntry(name)]
    else if f.modified then [ModifiedEntry(name)]
    else if !f.committed then [UntrackedEntry(name)]
    else []
  }

  function StatusLines(ks: seq<string>, fs: map<string, GitFile>): seq<Message>
    requires forall k <- ks :: k in fs
    decreases |ks|
  {
    if ks == [] then [] else StatusOf(ks[0], fs[ks[0]]) + StatusLines(ks[1..], fs)
  }

  /** `git_status` */
  function GitStatus(s: State): seq<Message>
    requires s.files.Valid()
  {
    [StatusHeader] + StatusLines(s.files.keys, s.files.entries)
  }

  function NameLines(ks: seq<string>): seq<Message>
    decreases |ks|
  {
    if ks == [] then [] else [LsFilesEntry(ks[0])] + NameLines(ks[1..])
  }

  /** `git_ls_files`: the files of the current branch's snapshot. */
  function GitLsFiles(s: State): seq<Message> {
    var snap := if s.currentBranch in s.branchFiles.entries
                then s.branchFiles.entries[s.currentBranch] else Empty();
    [LsFilesHeader(s.currentBranch)] + NameLines(snap.keys)
  }

  function BranchLines(bs: seq<string>, current: string): seq<Message>
    decreases |bs|
  {
    if bs == [] then [] else [BranchEntry(bs[0], bs[0] == current)] + BranchLines(bs[1..], current)
  }

  /** `git_branch`: every branch, the current one tagged. */
  function GitBranch(s: State): seq<Message> {
    BranchLines(s.branches.keys, s.currentBranch)
  }

  /** `git_push` */
  function GitPush(s: State): seq<Message> {
    if s.remoteConnected then [Pushed] else [NoRemote]
  }

  /** `git_pull` */
  function GitPull(s: State): seq<Message> {
    if s.remoteConnected then [Pulled] else [NoRemote]
  }

  // ---------------------------------------------------------------- the buttons

  /** The buttons whose handlers change state, with what their dialogs or the editor supply. */
  datatype Command =
    | New(name: Option<string>)
    | Open(name: Option<string>)
    | Save(text: string)
    | Reset
    | Init
    | Add
    | Commit(msg: Option<string>)
    | Checkout(branch: Option<string>)
    | Merge(branch: Option<string>)
    | RemoteAdd

  function Apply(s: State, c: Command): Step
    requires Consistent(s)
  {
    match c
    case New(name) => NewFile(s, name)
    case Open(name) => OpenFileDialog(s, name)
    case Save(text) => SaveFile(s, text)
    case Reset => ResetFile(s)
    case Init => GitInit(s)
    case Add => GitAdd(s)
    case Commit(msg) => GitCommit(s, msg)
    case Checkout(branch) => GitCheckout(s, branch)
    case Merge(branch) => GitMerge(s, branch)
    case RemoteAdd => GitRemoteAdd(s)
  }
}
