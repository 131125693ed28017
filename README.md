# pr-code-inspector, the reviewing core in Dafny

This project models the part of the pr-code-inspector service whose behaviour is implemented. It has three pieces.

- **OpenAIClientService**:
  - builds the review prompt for one changed file;
  - cleans the chat model's reply down to a JSON object;
  - maps the decoded object to a `CodeAnalysisResult` with its issues and suggestions;
  - derives a file's name and language from its path;
  - analyses every entry of a path-to-code map.
- **GitHubService**:
  - lists the files of a pull request;
  - fetches each file's original and new content according to its status, reading from the head branch or from the repository's default branch;
  - selects the files to analyse and the content to store for each.
- **PullRequestAnalysis**: the analysis entity and its status field. Setting COMPLETED or FAILED stamps `updatedAt`. No transition is refused.

Modules:

| module | contents |
|---|---|
| `Wrappers` | `Option` for Java null, `Result` for a thrown exception |
| `JavaStrings` | the `java.lang.String` and Spring `StringUtils` operations the code calls, with Java's semantics (see below) |
| `Json` | the tree Jackson decodes; the casts and `Number.intValue()` conversions the parser applies |
| `Traversal` | the throwing for-each loop both services use: the `MapAll` function and its loop method `CollectAll` |
| `Model` | the result records, as values, and the `PullRequestAnalysis` class |
| `OpenAIClient` | `cleanJsonResponse` and the rest of OpenAIClientService |
| `GitHub` | `getPullRequestFiles`, `getFileContent`, `fileHasBeenModified`, `shouldAnalyzeFile`, `getCodeFilesForAnalysis` |
| `ServiceAgreement` | how the GitHub allow-list and the OpenAI language chain line up |

The Java semantics in `JavaStrings`:
- `indexOf` and `lastIndexOf` return -1 for a missing char;
- `replaceAll` is literal;
- `trim` removes every char up to U+0020;
- `split` drops trailing empty strings;
- `hasText` uses `Character.isWhitespace`.

Outside services are parameters:
- The chat model is `engine: string -> Option<string>`. None stands for a thrown call.
- Jackson's `readValue` is `decode: string -> Option<Json>`. None stands for a rejected text.
- The GitHub client and the content requests are a `GitHubHost` value. It holds:
  - the file listing;
  - the head ref;
  - the content of a path as a contents request without a `ref` returns it, which GitHub answers from the repository's default branch;
  - the content of a path on a named branch.

  Each of these is a `Result`, so any of them can fail. The content is already Base64-decoded.
- `LocalDateTime.now()` is a `Timestamp` argument.
- The iteration order of the `HashMap` given to `analyzeMultipleFiles` is a sequence `order` of its keys. `AnalyzeMultipleFiles` and `ResultPathsInOrder` accept any such sequence; the lemmas that use the entry set's property of visiting each key exactly once (`EnumerationSize`, `PathsCoverKeys`, `OneResultPerEntry`) require it as `Enumerates`.

Where the code and its design description differ, the model follows the code:
- `setStatus` checks no transition, so a completed analysis can be set back to PENDING (`Model.ReopenCompleted`).
- There is no orchestrator: `CodeReviewService` is made of stubs.
- One failing file fails all of `analyzeMultipleFiles`.

Consequences of the code that the contracts make explicit:
- `getFileContent` reads the head branch only for a file listed as MODIFIED. An ADDED file's new content is therefore read from the repository's default branch, where a file the pull request adds is usually missing (`GitHub.AddedFileReadsDefaultBranch`).
- `.cc` files are labelled `cpp`, but `shouldAnalyzeFile` never lets one through (`ServiceAgreement.LanguageWithoutAnalysis`).
- `.kt`, `.swift`, `.scala` and `.rs` files are analysed with the language `unknown` (`ServiceAgreement.AnalysedWithoutLanguage`).

## Model

| member | source | states |
|---|---|---|
| JavaStrings.IndexOf | src/main/java/com/prcodeinspector/service/OpenAIClientService.java:177 | `indexOf('{')`: -1 exactly when the char is absent, otherwise a position holding it |
| JavaStrings.BeforeIndexOf | src/main/java/com/prcodeinspector/service/OpenAIClientService.java:177 | no earlier position holds the char `indexOf` found |
| JavaStrings.LastIndexOf | src/main/java/com/prcodeinspector/service/OpenAIClientService.java:178 | `lastIndexOf('}')`: -1 exactly when the char is absent, otherwise a position holding it |
| JavaStrings.AfterLastIndexOf | src/main/java/com/prcodeinspector/service/OpenAIClientService.java:178 | no later position holds the char `lastIndexOf` found |
| JavaStrings.EndsWith | src/main/java/com/prcodeinspector/service/OpenAIClientService.java:238-256 | `String.endsWith(p)` (also the `fileName::endsWith` of GitHubService.java:233): true exactly when the text is at least as long as p and its last chars, as many as p has, equal p, the empty suffix always matching |
| JavaStrings.RemoveAll | src/main/java/com/prcodeinspector/service/OpenAIClientService.java:175 | literal `replaceAll(p, "")`: never longer than its input |
| JavaStrings.RemoveAllAbsent | src/main/java/com/prcodeinspector/service/OpenAIClientService.java:175 | a text without the pattern is unchanged by the replaceAll |
| JavaStrings.RemoveAllLeavesNoFence | src/main/java/com/prcodeinspector/service/OpenAIClientService.java:175 | after `.replaceAll("```", "")` no triple backtick is left, even where deletions join backticks |
| JavaStrings.HasText | src/main/java/com/prcodeinspector/service/OpenAIClientService.java:230 | Spring `hasText` on a non-null string: some char is not `Character.isWhitespace` |
| JavaStrings.Trim | src/main/java/com/prcodeinspector/service/OpenAIClientService.java:184 | `trim()`: a slice of the input whose surrounding chars are all up to U+0020 and whose own first and last chars are not, which determines it |
| JavaStrings.TrimIdempotent | src/main/java/com/prcodeinspector/service/OpenAIClientService.java:184 | trimming twice equals trimming once |
| JavaStrings.TrimKeepsAbsent | src/main/java/com/prcodeinspector/service/OpenAIClientService.java:184 | `trim()` adds no occurrence of a pattern, a triple backtick included |
| JavaStrings.Split | src/main/java/com/prcodeinspector/service/OpenAIClientService.java:231 | `split("/")`: the whole text when it has no separator, else the pieces between separators with trailing empty pieces dropped; its properties are the three lemmas below |
| JavaStrings.SplitPiecesNoSeparator | src/main/java/com/prcodeinspector/service/OpenAIClientService.java:231 | no piece of `split("/")` contains a slash |
| JavaStrings.SplitEmptyIffAllSeparators | src/main/java/com/prcodeinspector/service/OpenAIClientService.java:231-232 | for a text that contains a slash, `split("/")` is empty exactly when the text is all slashes (a text without a slash, "" included, splits to itself) |
| JavaStrings.SplitLastAfterSeparator | src/main/java/com/prcodeinspector/service/OpenAIClientService.java:231-232 | for a text not ending in `/`, the last piece is the text after its last slash |
| Json.AsString | src/main/java/com/prcodeinspector/service/OpenAIClientService.java:140 | `(String)` cast: null stays null, a string is kept, anything else throws |
| Json.AsList | src/main/java/com/prcodeinspector/service/OpenAIClientService.java:149 | `(List)` cast: null stays null, a list is kept, anything else throws |
| Json.Get | src/main/java/com/prcodeinspector/service/OpenAIClientService.java:140-210 | `Map.get(key)` on a decoded object: the key's value, and Java null (JNull) for a missing key, so a missing key and an explicit null read the same |
| Json.Wrap32 | src/main/java/com/prcodeinspector/service/OpenAIClientService.java:194 | `intValue()` of an integral number: its low 32 bits, in the int range, equal modulo 2^32, identity within the range |
| Json.TruncateToInt | src/main/java/com/prcodeinspector/service/OpenAIClientService.java:194 | `intValue()` of a double: truncation toward zero, saturated at the int bounds |
| Json.IntValue | src/main/java/com/prcodeinspector/service/OpenAIClientService.java:194 | `intValue()` of a non-null number: an integral one wraps to its low 32 bits (`Wrap32`), a double truncates toward zero and saturates (`TruncateToInt`); always in the int range |
| Json.AsLineNumber | src/main/java/com/prcodeinspector/service/OpenAIClientService.java:194 | the lineNumber expression: null stays null (not 0), a number becomes exactly its `intValue()`, anything else throws |
| Traversal.MapAll | src/main/java/com/prcodeinspector/service/OpenAIClientService.java:150-155 | a throwing for-each: every element mapped, in count and order, or the error of the first failing element |
| Traversal.MapAllFirstFailure | src/main/java/com/prcodeinspector/service/OpenAIClientService.java:150-155 | the traversal reports exactly the first failing element's error |
| Traversal.CollectAll | src/main/java/com/prcodeinspector/service/OpenAIClientService.java:151-154 | the append loop ends holding `MapAll`'s outcome |
| OpenAIClient.BracePairFromIndexes | src/main/java/com/prcodeinspector/service/OpenAIClientService.java:177-180 | the guard `startIndex >= 0 && endIndex > startIndex` holds exactly when some `{` precedes some `}` |
| OpenAIClient.StripFences | src/main/java/com/prcodeinspector/service/OpenAIClientService.java:175 | the two literal deletions, first of ```` ```json ````, then of ```` ``` ````; what they leave is stated by `StripFencesOfFenceless`, `StripFencedReply` and `CleanJsonResponse` |
| OpenAIClient.ExtractObject | src/main/java/com/prcodeinspector/service/OpenAIClientService.java:177-184 | with a brace pair: the slice from the first `{` to the last `}`, starting with `{` and ending with `}`, no `{` before it and no `}` after it; otherwise the trimmed text; it adds no triple backtick |
| OpenAIClient.BraceSliceFacts | src/main/java/com/prcodeinspector/service/OpenAIClientService.java:177-181 | when the first `{` precedes the last `}`, the slice between them starts with `{`, ends with `}`, has no `{` before it and no `}` after it, and holds no triple backtick the text did not |
| OpenAIClient.CleanJsonResponse | src/main/java/com/prcodeinspector/service/OpenAIClientService.java:173-185 | no triple backtick survives the cleaning |
| OpenAIClient.StripFencesOfFenceless | src/main/java/com/prcodeinspector/service/OpenAIClientService.java:175 | a text with no triple backtick goes through both replaceAll calls unchanged |
| OpenAIClient.ExtractObjectIdempotent | src/main/java/com/prcodeinspector/service/OpenAIClientService.java:177-184 | cutting the object out of an already cut text changes nothing |
| OpenAIClient.CleanJsonIdempotent | src/main/java/com/prcodeinspector/service/OpenAIClientService.java:173-185 | cleaning twice equals cleaning once |
| OpenAIClient.StripFencedReply | src/main/java/com/prcodeinspector/service/OpenAIClientService.java:175 | the fences of prose + ```json fence + object + closing fence are deleted around the object, and no `}` appears after it that was not in the trailer |
| OpenAIClient.BraceSliceOfFramed | src/main/java/com/prcodeinspector/service/OpenAIClientService.java:177-181 | an object with no `{` before it and no `}` after it is exactly the slice the indexes pick |
| OpenAIClient.CleanKeepsBareObject | src/main/java/com/prcodeinspector/service/OpenAIClientService.java:173-185 | a bare object without backticks cleans to itself |
| OpenAIClient.FencedReplyCleansToObject | src/main/java/com/prcodeinspector/service/OpenAIClientService.java:173-185 | a fenced reply with prose around it cleans to the same object as the bare object does, for an object without backticks |
| OpenAIClient.GetDouble | src/main/java/com/prcodeinspector/service/OpenAIClientService.java:214-219 | a number's value; 0.0 for null, a missing key and any non-number |
| OpenAIClient.CalculateOverallScore | src/main/java/com/prcodeinspector/service/OpenAIClientService.java:221-227 | with all three scores, three times the result is their sum, so it lies between the smallest and the largest and within 0..100 when they do; otherwise 0.0 |
| OpenAIClient.OverallScoreExample | src/main/java/com/prcodeinspector/service/OpenAIClientService.java:221-227 | 80, 70 and 90 give 80 |
| OpenAIClient.ParseIssue | src/main/java/com/prcodeinspector/service/OpenAIClientService.java:187-198 | succeeds exactly when the element is an object whose fields have the cast types; then each field is copied, and lineNumber is null or the int conversion |
| OpenAIClient.ParseSuggestion | src/main/java/com/prcodeinspector/service/OpenAIClientService.java:200-212 | the same for the eight suggestion fields, `type` included |
| OpenAIClient.ParseList | src/main/java/com/prcodeinspector/service/OpenAIClientService.java:149-155 | a null or missing list gives no elements, a non-list throws, and a list is traversed by `MapAll` |
| OpenAIClient.ResultFromMap | src/main/java/com/prcodeinspector/service/OpenAIClientService.java:136-166 | the identity fields are the call's arguments with type MODIFIED; all three scores are always present, so the overall score is always their mean; success exactly when the summary is a string or null and both lists parse; the lists are the parsed ones |
| OpenAIClient.ParseAIResponse | src/main/java/com/prcodeinspector/service/OpenAIClientService.java:128-171 | a text Jackson rejects gives InvalidJson; a non-object fails; an object is mapped by `ResultFromMap` |
| OpenAIClient.ParseAIResponseLoops | src/main/java/com/prcodeinspector/service/OpenAIClientService.java:128-171 | the field-by-field assembly and the two append loops return exactly `ParseAIResponse` |
| OpenAIClient.ParsedIssues | src/main/java/com/prcodeinspector/service/OpenAIClientService.java:149-155 | issues keep the decoded array's count and order; a missing array gives none; a missing lineNumber is null; a non-list `issues` or a failing element rejects the reply |
| OpenAIClient.ParsedSuggestions | src/main/java/com/prcodeinspector/service/OpenAIClientService.java:158-164 | the same for suggestions |
| OpenAIClient.GetFileName | src/main/java/com/prcodeinspector/service/OpenAIClientService.java:229-235 | error exactly for a non-empty all-slash path; a blank or slash-free path unchanged; a path not ending in `/` gives the text after its last slash; a name never holds a slash and is non-empty for a path with text |
| OpenAIClient.FileNameFacts | src/main/java/com/prcodeinspector/service/OpenAIClientService.java:230-232 | what `split("/")` gives a path with text: empty iff all slashes, the path itself when it has no slash, a last element without slash |
| OpenAIClient.FirstSuffixMatchIsFirst | src/main/java/com/prcodeinspector/service/OpenAIClientService.java:237-259 | the table lookup answers with the language of the first matching suffix |
| OpenAIClient.FirstSuffixMatchNone | src/main/java/com/prcodeinspector/service/OpenAIClientService.java:258 | no matching suffix gives "unknown" |
| OpenAIClient.GetLanguageFromFileName | src/main/java/com/prcodeinspector/service/OpenAIClientService.java:237-259 | always one of the eleven values |
| OpenAIClient.LanguageChainWalksRows | src/main/java/com/prcodeinspector/service/OpenAIClientService.java:237-259 | the if-chain is the first-match lookup in any table holding its thirteen suffixes in its order |
| OpenAIClient.LanguageIsFirstMatch | src/main/java/com/prcodeinspector/service/OpenAIClientService.java:237-259 | the if-chain is the first-match lookup in the suffix table `.java`, `.js`, `.jsx`, `.ts`, `.tsx`, `.py`, `.go`, `.rb`, `.php`, `.cpp`, `.cc`, `.c`, `.cs` |
| OpenAIClient.BuildAnalysisPrompt | src/main/java/com/prcodeinspector/service/OpenAIClientService.java:65-126 | the prompt starts with the instructions and the path line, contains the code verbatim in a fence tagged with the language, and ends with the custom rules when there are some, else with the focus list |
| OpenAIClient.LoadAnalysisRules | src/main/java/com/prcodeinspector/service/OpenAIClientService.java:261-266 | the hard-coded rules object: always present, its specific rules the fixed text `DefaultRules` ("Focus on Spring Boot best practices for Java files.") |
| OpenAIClient.AppendPrompt | src/main/java/com/prcodeinspector/service/OpenAIClientService.java:67-125 | the StringBuilder appends end holding exactly `BuildAnalysisPrompt` |
| OpenAIClient.AnalyzeCode | src/main/java/com/prcodeinspector/service/OpenAIClientService.java:35-47 | a failed engine call fails the analysis; otherwise it succeeds exactly when the parse does, with the parsed result, and a parse error is wrapped |
| OpenAIClient.AnalyzeEntry | src/main/java/com/prcodeinspector/service/OpenAIClientService.java:50-54 | the lambda the entry stream maps with: file name from the key, language from the name, then `analyzeCode`; its contract is `AnalyzeEntryResult` |
| OpenAIClient.AnalyzeEntryResult | src/main/java/com/prcodeinspector/service/OpenAIClientService.java:50-56 | a path without a file name fails; a result carries the key as path, its file name, that name's language and the entry's code |
| OpenAIClient.EntriesInOrder | src/main/java/com/prcodeinspector/service/OpenAIClientService.java:50-52 | the entries in iteration order, each with its own value |
| OpenAIClient.AnalyzeMultipleFiles | src/main/java/com/prcodeinspector/service/OpenAIClientService.java:49-57 | success exactly when every entry succeeds, then one result per entry in iteration order; otherwise the error of the first failing entry, so there is no per-file isolation |
| OpenAIClient.EnumerationSize | src/main/java/com/prcodeinspector/service/OpenAIClientService.java:50 | an iteration of the entry set visits as many keys as the map has |
| OpenAIClient.ResultPathsInOrder | src/main/java/com/prcodeinspector/service/OpenAIClientService.java:49-57 | on success the k-th result's path is the k-th visited key |
| OpenAIClient.PathsCoverKeys | src/main/java/com/prcodeinspector/service/OpenAIClientService.java:49-57 | results whose paths follow an enumeration of the keys are one per key |
| OpenAIClient.OneResultPerEntry | src/main/java/com/prcodeinspector/service/OpenAIClientService.java:49-57 | on success, as many results as map entries, and their paths are exactly the keys |
| GitHub.ListsModified | src/main/java/com/prcodeinspector/service/GitHubService.java:186-187 | the `anyMatch`: some listed entry has the path and status MODIFIED |
| GitHub.FileHasBeenModified | src/main/java/com/prcodeinspector/service/GitHubService.java:181-191 | a listing that throws counts as not modified; otherwise the `anyMatch` |
| GitHub.GetFileContent | src/main/java/com/prcodeinspector/service/GitHubService.java:118-131 | the head branch is read only for HEAD of a file listed as MODIFIED, and a failing head ref fails the call; every other request reads the repository's default branch, since its contents request carries no ref |
| GitHub.ShouldAnalyzeFile | src/main/java/com/prcodeinspector/service/GitHubService.java:229-234 | the `anyMatch(fileName::endsWith)` over the sixteen extensions, written out as a disjunction; `ShouldAnalyzeFileIsAllowList` ties it to the list |
| GitHub.FileFromDetail | src/main/java/com/prcodeinspector/service/GitHubService.java:89-110 | the listed fields are copied and the name is both path and name; ADDED fetches only the new content, MODIFIED both, DELETED only the original; any other status fetches nothing; the first failing fetch is the failure |
| GitHub.PullRequestFiles | src/main/java/com/prcodeinspector/service/GitHubService.java:82-116 | the listing's failure; or one file per listed entry, in order, named by the entry; or the first failing entry's error |
| GitHub.GetPullRequestFiles | src/main/java/com/prcodeinspector/service/GitHubService.java:82-116 | the loop over the listing returns exactly `PullRequestFiles` |
| GitHub.AddedFileReadsDefaultBranch | src/main/java/com/prcodeinspector/service/GitHubService.java:100-101 | an ADDED file not also listed as MODIFIED takes its new content from the repository's default branch, and fails exactly when that read fails |
| GitHub.ModifiedFileReadsHead | src/main/java/com/prcodeinspector/service/GitHubService.java:103-105 | a listed MODIFIED file takes its original content from the repository's default branch and its new content from the head branch |
| GitHub.ShouldAnalyzeFileIsAllowList | src/main/java/com/prcodeinspector/service/GitHubService.java:229-234 | a name is analysed exactly when it ends with one of the sixteen listed extensions |
| GitHub.ChosenContent | src/main/java/com/prcodeinspector/service/GitHubService.java:218-222 | new content when it has text, else original content when that has text, else none; a chosen content always has text |
| GitHub.HasContent | src/main/java/com/prcodeinspector/service/GitHubService.java:218-221 | `StringUtils.hasText` of a nullable content: false for null, for "" and for an all-whitespace text, true otherwise |
| GitHub.CodeFiles | src/main/java/com/prcodeinspector/service/GitHubService.java:214-226 | the reference definition of the loop: the map after a `put` per selected file, in list order, so a later file with the same path overwrites; its properties are `CodeFilesKeys` and `CodeFilesLookup` |
| GitHub.CollectCodeFiles | src/main/java/com/prcodeinspector/service/GitHubService.java:214-226 | the `put` loop ends holding `CodeFiles` of the files |
| GitHub.CodeFilesKeys | src/main/java/com/prcodeinspector/service/GitHubService.java:216-223 | the keys are exactly the paths of files with an analysable name and content with text |
| GitHub.LastSelected | src/main/java/com/prcodeinspector/service/GitHubService.java:216-223 | the last selected file with a given path, or -1 when there is none |
| GitHub.CodeFilesLookup | src/main/java/com/prcodeinspector/service/GitHubService.java:216-223 | a path is stored exactly when a selected file has it, and then with the chosen content of the last such file, so later puts overwrite |
| GitHub.CodeFilesHaveText | src/main/java/com/prcodeinspector/service/GitHubService.java:218-221 | every stored content has text |
| GitHub.PreferredContentStored | src/main/java/com/prcodeinspector/service/GitHubService.java:216-223 | with distinct paths, every selected file is stored with its chosen content |
| GitHub.GetCodeFilesForAnalysis | src/main/java/com/prcodeinspector/service/GitHubService.java:210-227 | a fetch failure escapes; otherwise the map of the selected files |
| GitHub.AnalysedPathsAreListed | src/main/java/com/prcodeinspector/service/GitHubService.java:210-227 | every key is a listed file name that passes `shouldAnalyzeFile`, and its content has text |
| ServiceAgreement.AnalysedWithoutLanguage | src/main/java/com/prcodeinspector/service/GitHubService.java:229-234 | a file is analysed with language "unknown" exactly when it ends with `.kt`, `.swift`, `.scala` or `.rs` |
| ServiceAgreement.LanguageWithoutAnalysis | src/main/java/com/prcodeinspector/service/OpenAIClientService.java:252-253 | a file has a language but is never analysed exactly when it ends with `.cc`, and that language is "cpp" |
| Model.PullRequestAnalysis.constructor | src/main/java/com/prcodeinspector/model/PullRequestAnalysis.java:60-63 | PENDING, created now, every other field null and no results |
| Model.PullRequestAnalysis.ForBranch | src/main/java/com/prcodeinspector/model/PullRequestAnalysis.java:65-71 | owner, repository and branch as given; PENDING, created now; the rest null and no results |
| Model.PullRequestAnalysis.SetStatus | src/main/java/com/prcodeinspector/model/PullRequestAnalysis.java:126-131 | any status from any status; COMPLETED and FAILED stamp `updatedAt` with now, the other three leave it; nothing else changes |
| Model.PullRequestAnalysis.SetId | src/main/java/com/prcodeinspector/model/PullRequestAnalysis.java:78-80 | only the id changes |
| Model.PullRequestAnalysis.SetRepository | src/main/java/com/prcodeinspector/model/PullRequestAnalysis.java:86-88 | only the repository changes |
| Model.PullRequestAnalysis.SetBranchName | src/main/java/com/prcodeinspector/model/PullRequestAnalysis.java:94-96 | only the branch name changes |
| Model.PullRequestAnalysis.SetOwner | src/main/java/com/prcodeinspector/model/PullRequestAnalysis.java:102-104 | only the owner changes |
| Model.PullRequestAnalysis.SetPullRequestNumber | src/main/java/com/prcodeinspector/model/PullRequestAnalysis.java:110-112 | only the pull request number changes |
| Model.PullRequestAnalysis.SetCreatedAt | src/main/java/com/prcodeinspector/model/PullRequestAnalysis.java:118-120 | only the creation time changes |
| Model.PullRequestAnalysis.SetCommitSha | src/main/java/com/prcodeinspector/model/PullRequestAnalysis.java:137-139 | only the commit sha changes |
| Model.PullRequestAnalysis.SetUpdatedAt | src/main/java/com/prcodeinspector/model/PullRequestAnalysis.java:145-147 | only the update stamp changes, whatever the status |
| Model.PullRequestAnalysis.SetAnalysisResults | src/main/java/com/prcodeinspector/model/PullRequestAnalysis.java:153-155 | only the results change |
| Model.PullRequestAnalysis.SetErrorMessage | src/main/java/com/prcodeinspector/model/PullRequestAnalysis.java:161-163 | only the error message changes |
| Model.ReopenCompleted | src/main/java/com/prcodeinspector/model/PullRequestAnalysis.java:126-131 | a completed analysis can be set back to PENDING, and it keeps the stamp of its completion |

## Left out

- `CodeReviewService`: every method is a stub returning null, so there is nothing to model.
- `callOpenAI`, Jackson's `readValue`, the GitHub client and the OkHttp requests of `getContentFromBase` and `getContentFromBranch` are all parameters (`engine`, `decode`, `GitHubHost`). So are `decodeBase64Content` and the UTF-8 decoding. Their behaviour is outside the model, which treats a reply whose content is null as a failed engine call.
- `GitHubHost` answers every `listFiles()` call with the same listing, and `headRef` is one value for every HEAD read, where the source asks `getHead().getRef()` again for each file. The model does not capture a listing or a head ref that changes during one `getPullRequestFiles` call.
- `analyzeMultipleFiles` iterates a `HashMap`. Its order is the parameter `order`, and which order the JDK picks is not modelled.
- The contents request without a `ref` is answered by GitHub from the repository's default branch. For a pull request whose base is another branch, the "original" content therefore comes from the default branch, not the base. An ADDED file usually does not exist there; its failed read is an IOException that fails the whole `getPullRequestFiles` call (`GitHub.AddedFileReadsDefaultBranch`).
- The prompt's fixed wording is a `PromptTexts` value. `ServiceTexts` holds the service's own wording, and nothing is proved about the wording's characters.
- `loadAnalysisRules` is hard-coded in the source, and the model keeps it so: `LoadAnalysisRules` always yields the one fixed rule text. The `AnalysisRules` object is modelled as an optional string, its `specificRules` field; rules loaded from elsewhere are not modelled, since the source has none.
- Scores are Java `Double` but are modelled as `real`. Rounding in the sum and the division by 3.0 is not modelled, and neither are NaN or infinities.
- A JSON number's value is modelled as an `int` or a `real`. The model does not distinguish Integer, Long and BigInteger, or capture Double rounding of the literal.
- `CodeAnalysisResult`, `AnalysisIssue` and `AnalysisSuggestion`: only the fields the parser writes are modelled, as immutable values. Mutating them after parsing is not modelled.
- `PullRequestFile` is a value built by the fetch loop, not a mutable object behind its setters.
- `PullRequestAnalysis` getters, `toString` and the JPA annotations are not modelled. The aliasing of the `analysisResults` list that `setAnalysisResults` stores is not modelled either: the field is a sequence value.
- A null status passed to `setStatus` is not modelled: the model's status type has no null. In the source `setStatus(null)` stores null and leaves `updatedAt` unchanged, since the `==` comparisons never dereference it.
- A null status string in the switch of `getPullRequestFiles` is not modelled. In the source it makes Java throw a NullPointerException.
- OpenAIClient.FencedReplyCleansToObject: proved only for an object without backticks. The source also cleans an object whose strings hold inline code to itself, because no match of the fence literal can cross the object's closing `}`; that case is not proved.
- The GitHub API reports statuses in lower case, so in practice none of the switch's three upper-case cases fires. The model follows the code's strings and leaves the API's actual values out.
- JavaStrings.RemoveAll: its own contract bounds only the length. What it deletes is stated by the lemmas beside it (`RemoveAllAbsent`, `RemoveAllLeavesNoFence`).
- Controllers, `GlobalExceptionHandler`, configuration, repositories, the application class and `@Async` concurrency are outside the core.
