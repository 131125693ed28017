/**
  GitHubService: which files of a pull request are fetched, from which branch, and which of them
  reach the analysis with which content. The GitHub client and the HTTP calls are a `GitHubHost`
  value answering for one pull request.
*/
module GitHub {
  import opened Wrappers
  import opened JavaStrings
  import opened Traversal

  /** One entry of `listFiles()`: a `GHPullRequestFileDetail`. */
  datatype FileDetail = FileDetail(
    filename: string,
    status: string,
    additions: int,
    deletions: int,
    changes: int,
    patch: Option<string>
  )

  /** An IOException of the client or of a content request, or a failed Base64 decoding. */
  datatype HostError = HostFailure(reason: string)

  /**
    The pull request as the service sees it: its file listing (every `listFiles()` call returns the
    same one), the ref of its head branch, the content of a path as a contents request without a
    `ref` returns it (GitHub answers that from the repository's default branch, which need not be
    the pull request's base branch) and the content of a path on a named branch. Every content is already Base64-decoded; a response
    without a `content` field reads as "".
  */
  datatype GitHubHost = GitHubHost(
    listing: Result<seq<FileDetail>, HostError>,
    headRef: Result<string, HostError>,
    defaultContent: string -> Result<string, HostError>,
    branchContent: (string, string) -> Result<string, HostError>
  )

  /** `GitHubService.PullRequestFile`; a content is None when it was not fetched. */
  datatype PullRequestFile = PullRequestFile(
    fileName: string,
    filePath: string,
    status: string,
    additions: int,
    deletions: int,
    changes: int,
    patch: Option<string>,
    originalContent: Option<string>,
    newContent: Option<string>
  )

  // ---------------------------------------------------------------------------------------------
  // fileHasBeenModified and getFileContent

  /** Some entry lists `path` with status MODIFIED. */
  function ListsModified(files: seq<FileDetail>, path: string): (r: bool)
    ensures r <==> exists k :: 0 <= k < |files| && files[k].filename == path && files[k].status == "MODIFIED"
    decreases |files|
  {
    if |files| == 0 then false
    else if files[0].filename == path && files[0].status == "MODIFIED" then true
    else
      var rest := ListsModified(files[1..], path);
      assert forall k :: 1 <= k < |files| ==> files[1..][k - 1] == files[k];
      rest
  }

  /**
    `fileHasBeenModified(...)`: the listing names the path with status MODIFIED; a listing that
    throws counts as not modified.
  */
  function FileHasBeenModified(host: GitHubHost, filePath: string): (r: bool)
    ensures host.listing.Err? ==> !r
    ensures host.listing.Ok? ==>
      (r <==> exists k :: 0 <= k < |host.listing.value| && host.listing.value[k].filename == filePath
                                                     && host.listing.value[k].status == "MODIFIED")
  {
    host.listing.Ok? && ListsModified(host.listing.value, filePath)
  }

  /**
    `getFileContent(..., filePath, ..., version)`: the head branch is read only for version HEAD
    of a file listed as MODIFIED; every other request reads the repository's default branch
    (the contents request carries no ref).
  */
  function GetFileContent(host: GitHubHost, filePath: string, version: string): (r: Result<string, HostError>)
    ensures !(version == "HEAD" && FileHasBeenModified(host, filePath)) ==> r == host.defaultContent(filePath)
    ensures version == "HEAD" && FileHasBeenModified(host, filePath) ==>
      && (host.headRef.Err? ==> r == Err(host.headRef.error))
      && (host.headRef.Ok? ==> r == host.branchContent(filePath, host.headRef.value))
  {
    if version == "HEAD" && FileHasBeenModified(host, filePath) then
      var branchName :- host.headRef;
      host.branchContent(filePath, branchName)
    else
      host.defaultContent(filePath)
  }

  // ---------------------------------------------------------------------------------------------
  // getPullRequestFiles

  /**
    One iteration of the loop of `getPullRequestFiles`: the listed fields are copied, the name is
    both fileName and filePath, and the status decides the fetches. ADDED fetches the HEAD version
    as new content; MODIFIED the BASE version as original content, then the HEAD version as new
    content; DELETED the BASE version as original content; any other status fetches nothing. The
    first fetch that throws is the iteration's failure.
  */
  function FileFromDetail(host: GitHubHost, d: FileDetail): (r: Result<PullRequestFile, HostError>)
    ensures r.Ok? ==>
      && r.value.fileName == d.filename && r.value.filePath == d.filename
      && r.value.status == d.status && r.value.additions == d.additions
      && r.value.deletions == d.deletions && r.value.changes == d.changes && r.value.patch == d.patch
    ensures d.status == "ADDED" ==>
      var head := GetFileContent(host, d.filename, "HEAD");
      && (r.Ok? <==> head.Ok?) && (r.Err? ==> r.error == head.error)
      && (r.Ok? ==> r.value.originalContent == None && r.value.newContent == Some(head.value))
    ensures d.status == "MODIFIED" ==>
      var base, head := GetFileContent(host, d.filename, "BASE"), GetFileContent(host, d.filename, "HEAD");
      && (r.Ok? <==> base.Ok? && head.Ok?)
      && (base.Err? ==> r == Err(base.error))
      && (base.Ok? && head.Err? ==> r == Err(head.error))
      && (r.Ok? ==> r.value.originalContent == Some(base.value) && r.value.newContent == Some(head.value))
    ensures d.status == "DELETED" ==>
      var base := GetFileContent(host, d.filename, "BASE");
      && (r.Ok? <==> base.Ok?) && (r.Err? ==> r.error == base.error)
      && (r.Ok? ==> r.value.originalContent == Some(base.value) && r.value.newContent == None)
    ensures d.status !in {"ADDED", "MODIFIED", "DELETED"} ==>
      r.Ok? && r.value.originalContent == None && r.value.newContent == None
  {
    var file := PullRequestFile(d.filename, d.filename, d.status, d.additions, d.deletions, d.changes, d.patch, None, None);
    if d.status == "ADDED" then
      var newContent :- GetFileContent(host, d.filename, "HEAD");
      Ok(file.(newContent := Some(newContent)))
    else if d.status == "MODIFIED" then
      var originalContent :- GetFileContent(host, d.filename, "BASE");
      var newContent :- GetFileContent(host, d.filename, "HEAD");
      Ok(file.(originalContent := Some(originalContent), newContent := Some(newContent)))
    else if d.status == "DELETED" then
      var originalContent :- GetFileContent(host, d.filename, "BASE");
      Ok(file.(originalContent := Some(originalContent)))
    else
      Ok(file)
  }

  /** The loop body of `getPullRequestFiles` as a step for the traversal. */
  function FetchFile(host: GitHubHost): FileDetail -> Result<PullRequestFile, HostError> {
    d => FileFromDetail(host, d)
  }

  /**
    What `getPullRequestFiles` returns: the listing's failure, or one file per listed entry in the
    listing's order, named by its entry, or the failure of the first entry whose fetch throws.
  */
  function PullRequestFiles(host: GitHubHost): (r: Result<seq<PullRequestFile>, HostError>)
    ensures host.listing.Err? ==> r == Err(host.listing.error)
    ensures host.listing.Ok? ==>
      var listed := host.listing.value;
      && (r.Ok? <==> forall k :: 0 <= k < |listed| ==> FileFromDetail(host, listed[k]).Ok?)
      && (r.Ok? ==> |r.value| == |listed| && forall k :: 0 <= k < |listed| ==>
            && r.value[k] == FileFromDetail(host, listed[k]).value
            && r.value[k].fileName == listed[k].filename && r.value[k].filePath == listed[k].filename
            && r.value[k].status == listed[k].status)
      && (r.Err? ==> exists k :: 0 <= k < |listed| && FileFromDetail(host, listed[k]) == Err(r.error)
                                && forall m :: 0 <= m < k ==> FileFromDetail(host, listed[m]).Ok?)
  {
    var listed :- host.listing;
    MapAll(listed, FetchFile(host))
  }

  /** `getPullRequestFiles(owner, repository, prNumber)`: the loop over the listing. */
  method GetPullRequestFiles(host: GitHubHost) returns (r: Result<seq<PullRequestFile>, HostError>)
    ensures r == PullRequestFiles(host)
  {
    if host.listing.Err? {
      return Err(host.listing.error);
    }
    var ghFiles := host.listing.value;
    r := CollectAll(ghFiles, FetchFile(host));
  }

  /**
    An ADDED file not also listed as MODIFIED gets as new content what the repository's default
    branch holds at its path, and fails when that read fails (a file new in the pull request is
    usually missing there).
  */
  lemma AddedFileReadsDefaultBranch(host: GitHubHost, d: FileDetail)
    requires d.status == "ADDED" && host.listing.Ok?
    requires forall k :: 0 <= k < |host.listing.value| && host.listing.value[k].filename == d.filename ==>
               host.listing.value[k].status != "MODIFIED"
    ensures var r := FileFromDetail(host, d);
      && (r.Ok? <==> host.defaultContent(d.filename).Ok?)
      && (r.Ok? ==> r.value.newContent == Some(host.defaultContent(d.filename).value))
  {
  }

  /**
    A listed MODIFIED file gets its original content from the repository's default branch and its
    new one from the head branch.
  */
  lemma ModifiedFileReadsHead(host: GitHubHost, k: nat)
    requires host.listing.Ok? && k < |host.listing.value| && host.listing.value[k].status == "MODIFIED"
    ensures var d := host.listing.value[k]; var r := FileFromDetail(host, d);
      r.Ok? ==> && host.headRef.Ok?
                && r.value.originalContent == Some(host.defaultContent(d.filename).value)
                && r.value.newContent == Some(host.branchContent(d.filename, host.headRef.value).value)
  {
    var d := host.listing.value[k];
    assert FileHasBeenModified(host, d.filename);
  }

  // ---------------------------------------------------------------------------------------------
  // shouldAnalyzeFile and getCodeFilesForAnalysis

  /** The allow-list of `shouldAnalyzeFile`, in its order. */
  const SupportedExtensions: seq<string> := [
    ".java", ".js", ".jsx", ".ts", ".tsx", ".py", ".go", ".rb",
    ".php", ".cpp", ".c", ".cs", ".kt", ".swift", ".scala", ".rs"
  ]

  /** `shouldAnalyzeFile(fileName)`: the `anyMatch(fileName::endsWith)` over the allow-list, written out. */
  predicate ShouldAnalyzeFile(fileName: string) {
    EndsWith(fileName, ".java") || EndsWith(fileName, ".js") || EndsWith(fileName, ".jsx") || EndsWith(fileName, ".ts")
    || EndsWith(fileName, ".tsx") || EndsWith(fileName, ".py") || EndsWith(fileName, ".go") || EndsWith(fileName, ".rb")
    || EndsWith(fileName, ".php") || EndsWith(fileName, ".cpp") || EndsWith(fileName, ".c") || EndsWith(fileName, ".cs")
    || EndsWith(fileName, ".kt") || EndsWith(fileName, ".swift") || EndsWith(fileName, ".scala") || EndsWith(fileName, ".rs")
  }

  /** A name is analysed exactly when it ends with one of the sixteen supported extensions. */
  lemma ShouldAnalyzeFileIsAllowList(fileName: string)
    ensures ShouldAnalyzeFile(fileName) <==> exists k :: 0 <= k < |SupportedExtensions| && EndsWith(fileName, SupportedExtensions[k])
  {
    var exts := SupportedExtensions;
    assert exts[0] == ".java";
    assert exts[1] == ".js";
    assert exts[2] == ".jsx";
    assert exts[3] == ".ts";
    assert exts[4] == ".tsx";
    assert exts[5] == ".py";
    assert exts[6] == ".go";
    assert exts[7] == ".rb";
    assert exts[8] == ".php";
    assert exts[9] == ".cpp";
    assert exts[10] == ".c";
    assert exts[11] == ".cs";
    assert exts[12] == ".kt";
    assert exts[13] == ".swift";
    assert exts[14] == ".scala";
    assert exts[15] == ".rs";
  }

  /** `StringUtils.hasText` of a nullable content. */
  predicate HasContent(content: Option<string>) {
    content.Some? && HasText(content.value)
  }

  /**
    The content `getCodeFilesForAnalysis` stores for a file: the new content when it has text,
    else the original content when that has text, else none at all.
  */
  function ChosenContent(file: PullRequestFile): (r: Option<string>)
    ensures HasContent(file.newContent) ==> r == file.newContent
    ensures !HasContent(file.newContent) && HasContent(file.originalContent) ==> r == file.originalContent
    ensures !HasContent(file.newContent) && !HasContent(file.originalContent) ==> r == None
    ensures r.Some? ==> HasText(r.value)
  {
    if HasContent(file.newContent) then file.newContent
    else if HasContent(file.originalContent) then file.originalContent
    else None
  }

  /** A file the loop puts into the map: an analysable name and some content with text. */
  predicate Selected(file: PullRequestFile) {
    ShouldAnalyzeFile(file.fileName) && ChosenContent(file).Some?
  }

  /** The map after the loop of `getCodeFilesForAnalysis` has visited `files` in order. */
  function CodeFiles(files: seq<PullRequestFile>): map<string, string>
    decreases |files|
  {
    if |files| == 0 then map[]
    else
      var file := files[|files| - 1];
      var before := CodeFiles(files[..|files| - 1]);
      if Selected(file) then before[file.filePath := ChosenContent(file).value] else before
  }

  /** The loop of `getCodeFilesForAnalysis` over the fetched files: a `put` per selected file. */
  method CollectCodeFiles(files: seq<PullRequestFile>) returns (codeFiles: map<string, string>)
    ensures codeFiles == CodeFiles(files)
  {
    codeFiles := map[];
    var i := 0;
    while i < |files|
      invariant 0 <= i <= |files|
      invariant codeFiles == CodeFiles(files[..i])
    {
      var file := files[i];
      assert files[..i + 1][..i] == files[..i];
      if ShouldAnalyzeFile(file.fileName) {
        if HasContent(file.newContent) {
          codeFiles := codeFiles[file.filePath := file.newContent.value];
        } else if HasContent(file.originalContent) {
          codeFiles := codeFiles[file.filePath := file.originalContent.value];
        }
      }
      i := i + 1;
    }
    assert files[..|files|] == files;
  }

  /** The keys are the paths of the selected files, and no other path. */
  lemma {:induction false} CodeFilesKeys(files: seq<PullRequestFile>)
    ensures forall p :: p in CodeFiles(files) <==>
      exists k :: 0 <= k < |files| && files[k].filePath == p && Selected(files[k])
    decreases |files|
  {
    if |files| > 0 {
      var init := files[..|files| - 1];
      CodeFilesKeys(init);
      assert forall k :: 0 <= k < |init| ==> init[k] == files[k];
    }
  }

  /** The position of the last selected file with path `p`, or -1 when there is none. */
  function LastSelected(files: seq<PullRequestFile>, p: string): (r: int)
    ensures -1 <= r < |files|
    ensures r >= 0 ==> files[r].filePath == p && Selected(files[r])
    ensures forall j :: r < j < |files| ==> !(files[j].filePath == p && Selected(files[j]))
    decreases |files|
  {
    if |files| == 0 then -1
    else if files[|files| - 1].filePath == p && Selected(files[|files| - 1]) then |files| - 1
    else
      var init := files[..|files| - 1];
      var k := LastSelected(init, p);
      assert forall j :: 0 <= j < |init| ==> init[j] == files[j];
      k
  }

  /**
    A path is stored exactly when some selected file has it, and then with the chosen content of
    the last such file: a later file overwrites an earlier one with the same path.
  */
  lemma {:induction false} CodeFilesLookup(files: seq<PullRequestFile>, p: string)
    ensures p in CodeFiles(files) <==> LastSelected(files, p) >= 0
    ensures p in CodeFiles(files) ==> CodeFiles(files)[p] == ChosenContent(files[LastSelected(files, p)]).value
    decreases |files|
  {
    if |files| > 0 {
      var init := files[..|files| - 1];
      CodeFilesLookup(init, p);
      var k := LastSelected(init, p);
      if k >= 0 {
        assert init[k] == files[k];
      }
    }
  }

  /** Every stored content has text. */
  lemma CodeFilesHaveText(files: seq<PullRequestFile>)
    ensures forall p :: p in CodeFiles(files) ==> HasText(CodeFiles(files)[p])
  {
    forall p | p in CodeFiles(files) ensures HasText(CodeFiles(files)[p]) {
      CodeFilesLookup(files, p);
    }
  }

  /** With distinct paths, every selected file is stored under its path with its chosen content. */
  lemma PreferredContentStored(files: seq<PullRequestFile>, k: nat)
    requires forall i, j :: 0 <= i < j < |files| ==> files[i].filePath != files[j].filePath
    requires k < |files| && Selected(files[k])
    ensures files[k].filePath in CodeFiles(files)
    ensures CodeFiles(files)[files[k].filePath] == ChosenContent(files[k]).value
  {
    var p := files[k].filePath;
    CodeFilesLookup(files, p);
    var i := LastSelected(files, p);
    assert i >= k;
    assert forall j :: 0 <= j < |files| && files[j].filePath == p ==> j == k;
  }

  /**
    `getCodeFilesForAnalysis(owner, repository, prNumber)`: the fetch of the files, whose failure
    escapes, then the map of the selected ones.
  */
  method GetCodeFilesForAnalysis(host: GitHubHost) returns (r: Result<map<string, string>, HostError>)
    ensures PullRequestFiles(host).Err? ==> r == Err(PullRequestFiles(host).error)
    ensures PullRequestFiles(host).Ok? ==> r == Ok(CodeFiles(PullRequestFiles(host).value))
  {
    var prFiles := GetPullRequestFiles(host);
    if prFiles.Err? {
      return Err(prFiles.error);
    }
    var codeFiles := CollectCodeFiles(prFiles.value);
    r := Ok(codeFiles);
  }

  /**
    Every path handed to the analysis is a listed file name that passes `shouldAnalyzeFile`, and
    its content has text.
  */
  lemma AnalysedPathsAreListed(host: GitHubHost)
    requires PullRequestFiles(host).Ok?
    ensures var m := CodeFiles(PullRequestFiles(host).value);
      forall p :: p in m ==>
        && HasText(m[p])
        && exists k :: 0 <= k < |host.listing.value| && host.listing.value[k].filename == p
                    && ShouldAnalyzeFile(p)
  {
    var files := PullRequestFiles(host).value;
    CodeFilesKeys(files);
    CodeFilesHaveText(files);
  }
}
