/**
  The entities of the `model` package: the per-file result record with its issues and
  suggestions (as values, holding the fields the parser writes), and the mutable
  PullRequestAnalysis entity with its status lifecycle.
*/
module Model {
  import opened Wrappers

  /** `CodeAnalysisResult.AnalysisType`: the parser always records MODIFIED. */
  datatype AnalysisType = Added | Modified | Deleted

  /** One finding: every field is whatever the decoded issue object held there, Java null as None. */
  datatype AnalysisIssue = AnalysisIssue(
    category: Option<string>,
    severity: Option<string>,
    title: Option<string>,
    description: Option<string>,
    lineNumber: Option<int>,
    codeSnippet: Option<string>,
    recommendation: Option<string>
  )

  /** One suggestion; `kind` is the Java field `type`, a reserved word here. */
  datatype AnalysisSuggestion = AnalysisSuggestion(
    kind: Option<string>,
    title: Option<string>,
    description: Option<string>,
    lineNumber: Option<int>,
    codeSnippet: Option<string>,
    suggestedCode: Option<string>,
    benefits: Option<string>,
    effort: Option<string>
  )

  /** The per-file result the parser assembles; scores are Java Doubles, None for null. */
  datatype CodeAnalysisResult = CodeAnalysisResult(
    filePath: string,
    fileName: string,
    analysisType: AnalysisType,
    language: string,
    changedCode: string,
    summary: Option<string>,
    securityScore: Option<real>,
    performanceScore: Option<real>,
    bestPracticesScore: Option<real>,
    overallScore: Option<real>,
    issues: seq<AnalysisIssue>,
    suggestions: seq<AnalysisSuggestion>
  )

  /** `PullRequestAnalysis.AnalysisStatus` */
  datatype AnalysisStatus = Pending | InProgress | Completed | Failed | Cancelled

  /** A value of `LocalDateTime.now()`, read from a clock outside the model. */
  type Timestamp = int

  /**
    The analysis entity. Every field is a plain mutable field; only `SetStatus` does more than
    overwrite one, and it checks no transition.
  */
  class PullRequestAnalysis {
    var id: Option<int>
    var repository: Option<string>
    var branchName: Option<string>
    var owner: Option<string>
    var pullRequestNumber: Option<int>
    var createdAt: Option<Timestamp>
    var status: AnalysisStatus
    var commitSha: Option<string>
    var updatedAt: Option<Timestamp>
    var analysisResults: seq<CodeAnalysisResult>
    var errorMessage: Option<string>

    /** `new PullRequestAnalysis()`: PENDING, created now, everything else unset. */
    constructor (now: Timestamp)
      ensures status == Pending && createdAt == Some(now)
      ensures updatedAt == None && errorMessage == None && id == None && analysisResults == []
      ensures owner == None && repository == None && branchName == None
      ensures pullRequestNumber == None && commitSha == None
    {
      id := None;
      repository := None;
      branchName := None;
      owner := None;
      pullRequestNumber := None;
      createdAt := Some(now);
      status := Pending;
      commitSha := None;
      updatedAt := None;
      analysisResults := [];
      errorMessage := None;
    }

    /** `new PullRequestAnalysis(owner, repository, branchName)`: as above, with the three labels stored. */
    constructor ForBranch(owner: Option<string>, repository: Option<string>, branchName: Option<string>, now: Timestamp)
      ensures this.owner == owner && this.repository == repository && this.branchName == branchName
      ensures status == Pending && createdAt == Some(now)
      ensures updatedAt == None && errorMessage == None && id == None && analysisResults == []
      ensures pullRequestNumber == None && commitSha == None
    {
      id := None;
      this.repository := repository;
      this.branchName := branchName;
      this.owner := owner;
      pullRequestNumber := None;
      createdAt := Some(now);
      status := Pending;
      commitSha := None;
      updatedAt := None;
      analysisResults := [];
      errorMessage := None;
    }

    /** A status whose setting stamps `updatedAt`. */
    static predicate StampsUpdate(s: AnalysisStatus) {
      s == Completed || s == Failed
    }

    /**
      `setStatus(s)`: accepted from every status; COMPLETED and FAILED also stamp `updatedAt` with
      the current time, the other three leave it as it was. No other field changes.
    */
    method SetStatus(s: AnalysisStatus, now: Timestamp)
      modifies this`status, this`updatedAt
      ensures status == s
      ensures StampsUpdate(s) ==> updatedAt == Some(now)
      ensures !StampsUpdate(s) ==> updatedAt == old(updatedAt)
    {
      status := s;
      if status == Completed || status == Failed {
        updatedAt := Some(now);
      }
    }

    method SetId(id: Option<int>)
      modifies this`id
      ensures this.id == id
    {
      this.id := id;
    }

    method SetRepository(repository: Option<string>)
      modifies this`repository
      ensures this.repository == repository
    {
      this.repository := repository;
    }

    method SetBranchName(branchName: Option<string>)
      modifies this`branchName
      ensures this.branchName == branchName
    {
      this.branchName := branchName;
    }

    method SetOwner(owner: Option<string>)
      modifies this`owner
      ensures this.owner == owner
    {
      this.owner := owner;
    }

    method SetPullRequestNumber(pullRequestNumber: Option<int>)
      modifies this`pullRequestNumber
      ensures this.pullRequestNumber == pullRequestNumber
    {
      this.pullRequestNumber := pullRequestNumber;
    }

    method SetCreatedAt(createdAt: Option<Timestamp>)
      modifies this`createdAt
      ensures this.createdAt == createdAt
    {
      this.createdAt := createdAt;
    }

    method SetCommitSha(commitSha: Option<string>)
      modifies this`commitSha
      ensures this.commitSha == commitSha
    {
      this.commitSha := commitSha;
    }

    /** `setUpdatedAt` overwrites the stamp directly, whatever the status. */
    method SetUpdatedAt(updatedAt: Option<Timestamp>)
      modifies this`updatedAt
      ensures this.updatedAt == updatedAt
    {
      this.updatedAt := updatedAt;
    }

    method SetAnalysisResults(analysisResults: seq<CodeAnalysisResult>)
      modifies this`analysisResults
      ensures this.analysisResults == analysisResults
    {
      this.analysisResults := analysisResults;
    }

    method SetErrorMessage(errorMessage: Option<string>)
      modifies this`errorMessage
      ensures this.errorMessage == errorMessage
    {
      this.errorMessage := errorMessage;
    }
  }

  /**
    A client of the entity showing that no transition is refused: a COMPLETED analysis goes back
    to PENDING and keeps the stamp of its completion.
  */
  method ReopenCompleted(created: Timestamp, finished: Timestamp, later: Timestamp)
    returns (status: AnalysisStatus, updatedAt: Option<Timestamp>)
    ensures status == Pending && updatedAt == Some(finished)
  {
    var a := new PullRequestAnalysis.ForBranch(Some("owner"), Some("repo"), Some("main"), created);
    a.SetStatus(InProgress, created);
    assert a.updatedAt == None;
    a.SetStatus(Completed, finished);
    a.SetStatus(Pending, later);
    a.SetStatus(Cancelled, later);
    a.SetStatus(Pending, later);
    status, updatedAt := a.status, a.updatedAt;
  }
}
