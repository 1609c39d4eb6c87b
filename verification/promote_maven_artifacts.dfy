/** Model of the script utils/promoteMavenArtifacts.py: it plans the
    directories of one release to promote, checks its settings and the
    server, then copies or moves every directory that the production
    repository does not have yet. The HTTP server is the class Artifactory,
    which answers from its state and logs every request. */
module PromoteMavenArtifacts {
  import opened Wrappers
  import opened PromotePlan

  /** The Artifactory server as the script sees it. */
  class Artifactory {
    /** Directories present in the source and in the target repository. */
    var source: set<string>
    var target: set<string>
    /** Every request received, in order. */
    var log: seq<Request>
    /** Status answered to the ping. */
    const pingStatus: int
    /** The `path` of every item found by the AQL search, in result order. */
    const searchResults: seq<string>

    function State(): RepoState
      reads this
    {
      RepoState(source, target, log)
    }

    /** POST /api/search/aql (lines 76-86). */
    method SearchAql(repository: Option<string>, path: string, version: string)
      returns (paths: seq<string>)
      modifies this`log
      ensures log == old(log) + [Search(repository, path, version)]
      ensures paths == searchResults
    {
      log := log + [Search(repository, path, version)];
      paths := searchResults;
    }

    /** GET /api/system/ping (lines 118-123). */
    method SystemPing() returns (status: int)
      modifies this`log
      ensures log == old(log) + [Ping]
      ensures status == pingStatus
    {
      log := log + [Ping];
      status := pingStatus;
    }

    /** GET /api/system/version (lines 32-39); only printed by the script. */
    method SystemVersion()
      modifies this`log
      ensures log == old(log) + [ApiVersion]
    {
      log := log + [ApiVersion];
    }

    /** GET /api/storage/<repository><directory> (lines 101-106). */
    method StorageInfo(repository: string, directory: string) returns (status: int)
      modifies this`log
      ensures log == old(log) + [Storage(repository, directory)]
      ensures status == StorageStatus(old(State()), directory)
    {
      log := log + [Storage(repository, directory)];
      status := if directory in target then 200 else 404;
    }

    /** POST /api/copy/... (lines 42-64). */
    method CopyItem(srcRepoKey: string, srcFilePath: string,
                    targetRepoKey: string, targetFilePath: string,
                    dryRun: int, suppressLayout: int, failFast: int)
      modifies this
      ensures State() == Apply(old(State()), Transfer(Copy, srcRepoKey, srcFilePath,
        targetRepoKey, targetFilePath, dryRun, suppressLayout, failFast))
    {
      log := log + [Transfer(Copy, srcRepoKey, srcFilePath,
        targetRepoKey, targetFilePath, dryRun, suppressLayout, failFast)];
      if dryRun == 0 {
        target := target + {srcFilePath};
      }
    }

    /** POST /api/move/... (lines 153-176): the items leave the source. */
    method MoveItem(srcRepoKey: string, srcFilePath: string,
                    targetRepoKey: string, targetFilePath: string,
                    dryRun: int, suppressLayout: int, failFast: int)
      modifies this
      ensures State() == Apply(old(State()), Transfer(Move, srcRepoKey, srcFilePath,
        targetRepoKey, targetFilePath, dryRun, suppressLayout, failFast))
    {
      log := log + [Transfer(Move, srcRepoKey, srcFilePath,
        targetRepoKey, targetFilePath, dryRun, suppressLayout, failFast)];
      if dryRun == 0 {
        target := target + {srcFilePath};
        source := source - {srcFilePath};
      }
    }
  }

  /** The loop of get_directories (lines 88-93): one directory per search
      result, each kept once, in the order it was first found. */
  method CollectDirectories(paths: seq<string>) returns (directories: seq<string>)
    ensures directories == Dedup(Prefixed(paths))
    ensures NoDuplicates(directories)
    ensures forall i :: 0 <= i < |paths| ==> "/" + paths[i] in directories
  {
    directories := [];
    for i := 0 to |paths|
      invariant directories == Dedup(Prefixed(paths)[..i])
    {
      var path := "/" + paths[i];
      assert Prefixed(paths)[..i + 1][..i] == Prefixed(paths)[..i];
      if path !in directories {
        directories := directories + [path];
      }
    }
    assert Prefixed(paths)[..|paths|] == Prefixed(paths);
    DedupNoDuplicates(Prefixed(paths));
    DedupSameElements(Prefixed(paths));
  }

  /** get_directories (lines 67-93): one search, then its results. */
  method GetDirectories(server: Artifactory, repository: Option<string>, path: string, version: string)
    returns (directories: seq<string>)
    modifies server`log
    ensures server.log == old(server.log) + [Search(repository, path, version)]
    ensures directories == Dedup(Prefixed(server.searchResults))
  {
    var results := server.SearchAql(repository, path, version);
    directories := CollectDirectories(results);
  }

  /** Lines 201-202: every group ID, in place, gets "/" + version appended. */
  method AppendVersion(groupID: array<string>, version: string)
    modifies groupID
    ensures groupID[..] == WithVersion(old(groupID[..]), version)
  {
    for i := 0 to groupID.Length
      invariant forall k :: 0 <= k < i ==> groupID[k] == old(groupID[k]) + "/" + version
      invariant forall k :: i <= k < groupID.Length ==> groupID[k] == old(groupID[k])
    {
      groupID[i] := groupID[i] + "/" + version;
    }
  }

  /** is_required_parameters (lines 128-150): every setting is checked, each
      missing one is reported, in the order of the checks. */
  method IsRequiredParameters(cfg: Config) returns (result: bool, missing: seq<Setting>)
    ensures result <==> AllProvided(cfg)
    ensures missing == MissingAmong(cfg, Settings)
  {
    result, missing := true, [];
    if !Truthy(cfg.url) {
      missing, result := missing + [Url], false;
    }
    assert missing == MissingAmong(cfg, Settings[..1]);
    if !Truthy(cfg.username) {
      missing, result := missing + [Username], false;
    }
    assert Settings[..2][..1] == Settings[..1];
    assert missing == MissingAmong(cfg, Settings[..2]);
    if !Truthy(cfg.password) {
      missing, result := missing + [Password], false;
    }
    assert Settings[..3][..2] == Settings[..2];
    assert missing == MissingAmong(cfg, Settings[..3]);
    if !Truthy(cfg.srcRepoKey) {
      missing, result := missing + [SrcRepoKey], false;
    }
    assert Settings[..4][..3] == Settings[..3];
    assert missing == MissingAmong(cfg, Settings[..4]);
    if !Truthy(cfg.targetRepoKey) {
      missing, result := missing + [TargetRepoKey], false;
    }
    assert Settings[..5][..4] == Settings[..4] && Settings[..5] == Settings;
  }

  /** is_alive (lines 114-125). */
  method IsAlive(server: Artifactory) returns (alive: bool)
    modifies server`log
    ensures server.log == old(server.log) + [Ping]
    ensures alive <==> server.pingStatus == 200
  {
    var status := server.SystemPing();
    alive := status == 200;
  }

  /** is_directory_exist (lines 96-111). */
  method IsDirectoryExist(server: Artifactory, repository: string, directory: string)
    returns (present: bool)
    modifies server`log
    ensures server.log == old(server.log) + [Storage(repository, directory)]
    ensures present == DirectoryExists(StorageStatus(old(server.State()), directory))
  {
    var status := server.StorageInfo(repository, directory);
    present := DirectoryExists(status);
  }

  /** The search root of line 198. */
  const SearchRoot := "/org/jenkins-ci/main"

  /** Lines 196-204: with no --groupID, the directories found by the search;
      otherwise every group ID with "/" + version appended, in place, in the
      order given. */
  method PlanDirectories(server: Artifactory, srcRepoKey: Option<string>, version: string,
                         groupID: array<string>)
    returns (directories: seq<string>)
    modifies server`log, groupID
    ensures groupID[..] == WithVersion(old(groupID[..]), version)
    ensures directories == if groupID.Length == 0 then Dedup(Prefixed(server.searchResults))
                           else WithVersion(old(groupID[..]), version)
    ensures server.log == old(server.log)
      + (if groupID.Length == 0 then [Search(srcRepoKey, SearchRoot, version)] else [])
  {
    if groupID.Length == 0 {
      directories := GetDirectories(server, srcRepoKey, SearchRoot, version);
      assert groupID[..] == [];
    } else {
      AppendVersion(groupID, version);
      directories := groupID[..];
    }
  }

  /** The loop of lines 219-245: for every directory in order, ask the target
      repository whether it exists and, when it does not, copy or move it. */
  method PromoteDirectories(server: Artifactory, directories: seq<string>, b: Batch)
    requires PlainVersion(b.version)
    modifies server
    ensures server.State() == Promote(directories, old(server.State()), b)
  {
    var dryrun := if b.dryRun then 1 else 0;
    for i := 0 to |directories|
      invariant server.State() == Promote(directories[..i], old(server.State()), b)
    {
      var directory := directories[i];
      var srcFilePath := directory;
      var targetFilePath := TargetFilePath(directory, b.version);
      assert directories[..i + 1][..i] == directories[..i];

      var present := IsDirectoryExist(server, b.targetRepoKey, directory);
      if !present {
        if b.mode == Copy {
          server.CopyItem(b.srcRepoKey, srcFilePath, b.targetRepoKey, targetFilePath, dryrun, 0, 1);
        } else if b.mode == Move {
          server.MoveItem(b.srcRepoKey, srcFilePath, b.targetRepoKey, targetFilePath, dryrun, 0, 1);
        }
      }
    }
    assert directories[..|directories|] == directories;
  }

  /** The script's main block (lines 196-245): plan the directories, exit 1
      on missing settings, exit 2 when the ping is not 200, otherwise copy or
      move, in the single mode of the run, every directory the target does
      not have. */
  method Run(server: Artifactory, cfg: Config, version: string, dryRun: bool, mode: Mode,
             groupID: array<string>)
    returns (exitCode: int, directories: seq<string>)
    requires PlainVersion(version)
    modifies server, groupID
    ensures groupID[..] == WithVersion(old(groupID[..]), version)
    ensures directories == if groupID.Length == 0 then Dedup(Prefixed(server.searchResults))
                           else WithVersion(old(groupID[..]), version)
    ensures exitCode == 1 <==> !AllProvided(cfg)
    ensures exitCode == 2 <==> AllProvided(cfg) && server.pingStatus != 200
    ensures exitCode == 0 <==> AllProvided(cfg) && server.pingStatus == 200
    ensures var planned := old(server.log)
          + (if groupID.Length == 0 then [Search(cfg.srcRepoKey, SearchRoot, version)] else []);
      && (exitCode == 1 ==> server.State() == RepoState(old(server.source), old(server.target), planned))
      && (exitCode == 2 ==> server.State() == RepoState(old(server.source), old(server.target), planned + [Ping]))
      && (exitCode == 0 ==> server.State() == Promote(directories,
            RepoState(old(server.source), old(server.target), planned + [Ping, ApiVersion]),
            Batch(cfg.srcRepoKey.value, cfg.targetRepoKey.value, version, mode, dryRun)))
  {
    directories := PlanDirectories(server, cfg.srcRepoKey, version, groupID);

    var ok, _ := IsRequiredParameters(cfg);
    if !ok {
      return 1, directories;
    }

    var alive := IsAlive(server);
    if !alive {
      return 2, directories;
    }

    server.SystemVersion();
    assert server.State() == RepoState(old(server.source), old(server.target), old(server.log)
      + (if groupID.Length == 0 then [Search(cfg.srcRepoKey, SearchRoot, version)] else [])
      + [Ping, ApiVersion]);
    PromoteDirectories(server, directories,
      Batch(cfg.srcRepoKey.value, cfg.targetRepoKey.value, version, mode, dryRun));
    exitCode := 0;
  }
}
