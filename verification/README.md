# Jenkins release utilities: version selection and Maven artifact promotion

This project models, in Dafny, the two decision cores of the release utilities
of the Jenkins project:

* **utils/getJenkinsVersion.py** picks the Jenkins version to download from the
  `maven-metadata.xml` of the `jenkins-war` artifact. The identifier
  `'stable'` selects the last listed version that has exactly three
  dot-separated components. `'weekly'` selects the `versioning/release` text.
  Any other identifier is taken as the version itself. The module also builds
  the download URL `URL + v + "/jenkins-war-" + v + ".war"`.
  Module `JenkinsVersion` (jenkins_version.dfy).
* **utils/promoteMavenArtifacts.py** promotes the directories of one release
  from a source Maven repository to a production repository. It plans the
  directory list (the de-duplicated hits of a search, or each `--groupID`
  with `/<version>` appended). It exits 1 when a setting is missing and 2 when
  the server does not answer its ping with 200. Otherwise, for every directory
  the target does not have yet, it issues one copy or one move, all in the
  run's single mode and with fixed flags. The pure decisions are in module
  `PromotePlan` (promote_plan.dfy). The script itself, with the server as a
  class `Artifactory` that answers from its state and logs every request, is
  in module `PromoteMavenArtifacts` (promote_maven_artifacts.dfy).

The existence check of utils/promoteMavenArtifacts.py:225 queries the target
repository at the source path `directory`, not at `targetFilePath`, and the
script recalculates no metadata after promotion; the model does the same.

Modelling choices:

* The XML document and the network are inputs. The selector gets the version
  texts in document order and the release text.
* `result` left unbound for `'stable'` (the UnboundLocalError raised at
  line 24) is the value `Unbound`. The unreachable `exit(1)` is `Exit(1)`,
  and it is proved never returned.
* The server holds the set of directories in the source repository, the set in
  the target repository, its ping status and its search results. A storage
  query answers 200 for a present directory and 404 otherwise.
* A copy or move that is not a dry run makes its source path present in the
  target; a move also removes it from the source. A dry run changes nothing.
  This is the behaviour the skip-if-exists check relies on.
* The log of requests (search, ping, API version, storage query, copy/move
  with all seven arguments) makes the order of checks visible. The search runs
  before the settings are checked, exit 1 comes before the ping, and exit 2
  comes before any copy or move.
* `re.sub("/" + version + "$", '', directory)` is modelled with Python's
  semantics for the versions it is used with. `.` matches any character but a
  newline. `$` matches at the end or just before a final newline.
* Settings are an explicit `Config` record; an unset variable is `None`, and
  Python truthiness (set and non-empty) decides whether a setting is present.

## Model

| member | source | states |
|---|---|---|
| `JenkinsVersion.Split` | utils/getJenkinsVersion.py:33 | `split('.')` always yields at least one piece, so the `len(...) > 0` test of line 33 never fails |
| `JenkinsVersion.JoinSplit` | utils/getJenkinsVersion.py:21 | the pieces of `split('.')` joined back with `'.'` give the original text |
| `JenkinsVersion.SplitCount` | utils/getJenkinsVersion.py:21 | `split` yields one piece more than there are separators |
| `JenkinsVersion.IsStable` | utils/getJenkinsVersion.py:21 | a version has three components exactly when it has exactly two dots |
| `JenkinsVersion.LastStable` | utils/getJenkinsVersion.py:20-22 | what the overwriting loop ends with: when something is found, it is a listed entry with three components |
| `JenkinsVersion.LastStableIsLastMatch` | utils/getJenkinsVersion.py:20-22 | a stable entry is found iff some entry has three components; the one found is a listed entry with three components and no later entry has three |
| `JenkinsVersion.LastStableIsNotGreatest` | utils/getJenkinsVersion.py:20-22 | the choice follows document order, not version size: `["2.300.1", "2.289.3", "2.301"]` gives `"2.289.3"` |
| `JenkinsVersion.SelectStable` | utils/getJenkinsVersion.py:17-22 | the overwriting loop binds a result iff some entry has three components, and the result is the last such entry |
| `JenkinsVersion.GetJenkinsVersion` | utils/getJenkinsVersion.py:8-41 | `'stable'` resolves to the last three-part entry, a member of the list, or ends `Unbound` when there is none; `'weekly'` resolves to the release text whatever the list; any other identifier (`""`, `"Stable"` included) resolves to itself; `exit(1)` is never reached |
| `JenkinsVersion.DownloadUrl` | utils/getJenkinsVersion.py:50 | the URL is the base, then the version, then `/jenkins-war-`, the version again and `.war`, and has exactly that length |
| `JenkinsVersion.DownloadUrlInjective` | utils/getJenkinsVersion.py:50 | distinct versions give distinct download URLs |
| `PromoteMavenArtifacts.CollectDirectories` | utils/promoteMavenArtifacts.py:88-93 | the directory list is the first-seen de-duplication of `"/" + path` over the results: no duplicates, and every hit's directory is in it |
| `PromotePlan.Prefixed` | utils/promoteMavenArtifacts.py:89 | each search result's path becomes `"/" + path`, one directory per result, in order |
| `PromotePlan.Dedup` | utils/promoteMavenArtifacts.py:88-91 | the membership-guarded append is never longer than its input and invents nothing |
| `PromotePlan.DedupNoDuplicates` | utils/promoteMavenArtifacts.py:88-91 | the membership-guarded append never yields the same directory twice |
| `PromotePlan.DedupSameElements` | utils/promoteMavenArtifacts.py:88-91 | no hit is lost and nothing is invented |
| `PromotePlan.DedupFirstSeenOrder` | utils/promoteMavenArtifacts.py:88-91 | directories appear in the order of their first appearance among the hits |
| `PromoteMavenArtifacts.GetDirectories` | utils/promoteMavenArtifacts.py:67-93 | one search request, then the de-duplicated directories of its results |
| `PromotePlan.WithVersion` | utils/promoteMavenArtifacts.py:201-202 | each group ID becomes `groupID + "/" + version`, one directory per group ID, in order |
| `PromoteMavenArtifacts.AppendVersion` | utils/promoteMavenArtifacts.py:201-202 | in place, entry i becomes `groupID[i] + "/" + version`; length and order kept |
| `PromoteMavenArtifacts.PlanDirectories` | utils/promoteMavenArtifacts.py:196-204 | with no group ID the search directories (and one search request), otherwise the group IDs with `/version` appended (and no request) |
| `PromotePlan.TargetFilePath` | utils/promoteMavenArtifacts.py:221 | for a path without newline, the target is the directory itself or the directory without one trailing block of `"/"` plus as many characters as the version |
| `PromotePlan.TargetStripsVersion` | utils/promoteMavenArtifacts.py:221 | `t + "/" + version` goes to `t`, e.g. `/org/jenkins-ci/main/cli/2.279` to `/org/jenkins-ci/main/cli` |
| `PromotePlan.TargetUnchangedWithoutSuffix` | utils/promoteMavenArtifacts.py:221 | for a version without `.`, a directory not ending with `"/" + version` is left unchanged |
| `PromotePlan.TargetUnchangedWhenNoMatch` | utils/promoteMavenArtifacts.py:221 | for a dotted or undotted version, a directory is left unchanged when it is too short, has no `/` before the last `len(version)` characters, or differs from the version at a position where the version has no `.` |
| `PromotePlan.TargetOtherReleaseUnchanged` | utils/promoteMavenArtifacts.py:221 | a directory of another release keeps its path: `/org/jenkins-ci/main/cli/2.280` with version `2.279` is unchanged |
| `PromotePlan.TargetDotIsWildcard` | utils/promoteMavenArtifacts.py:221 | a `.` in the version matches any character: `/org/jenkins-ci/main/cli/2x279` with version `2.279` also goes to `/org/jenkins-ci/main/cli` |
| `PromoteMavenArtifacts.IsRequiredParameters` | utils/promoteMavenArtifacts.py:128-150 | true iff URL, USERNAME, PASSWORD, srcRepoKey and targetRepoKey are all set and non-empty; the missing ones are reported, all of them |
| `PromotePlan.MissingAmong` | utils/promoteMavenArtifacts.py:128-150 | the reported settings are never more than those checked, and each one reported is unset or empty |
| `PromotePlan.MissingSettingsReport` | utils/promoteMavenArtifacts.py:128-150 | the report holds exactly the missing settings, once each, in the order of the checks, and is empty iff every setting is present |
| `PromotePlan.DirectoryExists` | utils/promoteMavenArtifacts.py:108-111 | a directory exists exactly when the storage status is 200; any other status means absent |
| `PromoteMavenArtifacts.IsDirectoryExist` | utils/promoteMavenArtifacts.py:96-111 | one storage request about the directory; true iff the target repository holds it |
| `PromoteMavenArtifacts.IsAlive` | utils/promoteMavenArtifacts.py:114-125 | one ping request; alive iff its status is 200 |
| `PromoteMavenArtifacts.Artifactory.CopyItem` | utils/promoteMavenArtifacts.py:42-64 | logs the copy with its seven arguments; unless a dry run the source path becomes present in the target and the source is kept |
| `PromoteMavenArtifacts.Artifactory.MoveItem` | utils/promoteMavenArtifacts.py:153-176 | logs the move; unless a dry run the source path becomes present in the target and leaves the source |
| `PromotePlan.Apply` | utils/promoteMavenArtifacts.py:42-64 | a copy or move is logged; a dry run changes neither repository; otherwise the source path is present in the target afterwards and nothing else in the target changes, and a move takes it out of the source |
| `PromotePlan.TransferFor` | utils/promoteMavenArtifacts.py:228-243 | the copy or move of one directory: the run's mode and repository keys, `srcFilePath = directory`, the target path from line 221, `dryRun` 1 for a dry run and 0 otherwise, `suppressLayout = 0`, `failFast = 1` |
| `PromotePlan.Step` | utils/promoteMavenArtifacts.py:225-245 | one iteration sends one request when the directory is present (and changes no repository) and two when it is absent; after a real run the directory is present |
| `PromotePlan.Promote` | utils/promoteMavenArtifacts.py:219-245 | the whole loop sends between one and two requests per directory, never removes a directory from the target and never adds one to the source |
| `PromotePlan.PromoteSendsOnlyBatchRequests` | utils/promoteMavenArtifacts.py:219-245 | a batch only appends to the log, at least one and at most two requests per directory; each is a storage query about one of its directories in the target repository, or a copy/move in the run's single mode with `srcFilePath = directory`, its target path, `dryRun = int(dry_run)`, `suppressLayout = 0` and `failFast = 1` |
| `PromotePlan.StepTransfers` | utils/promoteMavenArtifacts.py:225-245 | one iteration issues a copy or move iff its directory is absent from the target |
| `PromotePlan.PromoteActsIffAbsent` | utils/promoteMavenArtifacts.py:225-245 | the copies/moves of a batch are, in order, for exactly the directories whose own path is absent from the target: in a dry run every absent occurrence, in a real run the first occurrence of each absent directory |
| `PromotePlan.DedupOfDistinct` | utils/promoteMavenArtifacts.py:88-91 | de-duplicating a list without repeats leaves it as it is, so for distinct directories a real run acts as a dry run does |
| `PromotePlan.PromoteRepositories` | utils/promoteMavenArtifacts.py:225-245 | after a real run every directory is in the target; a copy keeps the source, a move removes exactly the directories that were absent; a dry run changes neither repository |
| `PromotePlan.PromoteAllPresent` | utils/promoteMavenArtifacts.py:225-245 | when every directory already exists in the target, the batch only sends existence queries: zero copy/move calls and no change |
| `PromotePlan.RerunIsIdempotent` | utils/promoteMavenArtifacts.py:219-245 | running the same batch again after a real run issues no copy or move and changes nothing |
| `PromoteMavenArtifacts.PromoteDirectories` | utils/promoteMavenArtifacts.py:219-245 | the loop's effect on the server is the batch specification `Promote` |
| `PromoteMavenArtifacts.Run` | utils/promoteMavenArtifacts.py:196-245 | exit 1 iff a setting is missing (after planning, before the ping, nothing changed); exit 2 iff settings are present and the ping is not 200 (no copy/move); otherwise exit 0 and the server ends as the batch specification says, in the run's mode |

## Left out

- HTTP: requests, basic authentication, JSON decoding, the AQL query text and the copy/move URL strings are not modelled. The server is the `Artifactory` class, and the search results, ping status and repository contents are its state.
- The copy/move URLs contain ` 0` after `suppressLayout`, `failFAst` and a doubled `/`; those strings are not modelled, only the arguments passed to `copy_item`/`move_item`.
- `PromoteMavenArtifacts.Artifactory.StorageInfo` answers only 200 or 404 and ignores the repository key (one source and one target repository). Other statuses, such as an authentication failure, are not produced. `DirectoryExists` still treats every status other than 200 as absent.
- `PromoteMavenArtifacts.Artifactory.SearchAql` answers its stored results whatever the repository, path and version; AQL matching is not modelled.
- The effect of a copy or move on Artifactory (where exactly the items land under `targetFilePath`) is reduced to: the source path becomes present in the target.
- `PromotePlan.TargetFilePath`: models the pattern only for versions with no regular-expression metacharacter other than `.` and no newline (`PlainVersion`); `Run`, `PromoteDirectories` and the batch lemmas inherit that requirement.
- The response messages printed by `copy_item`/`move_item`, the version printed from `get_api_version`, and all other `print` output are left out. The "Missing environment variable" messages are left out too (some name a variable other than the one read).
- argparse and environment reading are not modelled: `Config`, the mode, the dry-run flag and the group IDs are parameters. The default URL `https://repo.jenkins-ci.org` is not modelled.
- XML parsing (utils/getJenkinsVersion.py:11-12) is not modelled. A `version` element with no text (`None.split` fails) and a missing `versioning/release` element are not modelled either.
- The `URLError` handler (utils/getJenkinsVersion.py:43-46) and `downloadJenkins`'s download and file writing (lines 54-65) are not modelled. The module-level wiring (lines 68-84, including the `'weekly'` default) is not modelled either.
- utils/getJenkinsVersion_test.py imports `get_latest_version` and `get_jenkins_version`, which the script does not define. Its resolver is not part of this model.
- Metadata recalculation, retries and aborting a batch midway do not appear in the script and are not modelled.
