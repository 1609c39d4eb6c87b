/** The decision logic of utils/promoteMavenArtifacts.py, as values: which
    directories are promoted, where each one goes, which settings must be
    present, and what a promotion batch asks of the repository server. The
    imperative script that drives it is modelled in PromoteMavenArtifacts. */
module PromotePlan {
  import opened Wrappers

  // ---------------------------------------------------------------------
  // Directories found by the search (get_directories, lines 88-93).
  // ---------------------------------------------------------------------

  predicate NoDuplicates<T(==)>(s: seq<T>)
  {
    forall i, j :: 0 <= i < j < |s| ==> s[i] != s[j]
  }

  /** Keeps the first occurrence of every element, in the order of first
      appearance. */
  function Dedup<T(==)>(s: seq<T>): (r: seq<T>)
    ensures |r| <= |s|
    ensures forall x :: x in r ==> x in s
  {
    if s == [] then []
    else
      var kept := Dedup(s[..|s| - 1]);
      if s[|s| - 1] in kept then kept else kept + [s[|s| - 1]]
  }

  /** Position of the first occurrence of `x`. */
  function FirstIndex<T(==)>(s: seq<T>, x: T): (k: nat)
    requires x in s
    ensures k < |s| && s[k] == x && x !in s[..k]
  {
    if s[0] == x then 0
    else
      assert x in s[1..] by { var i :| 0 <= i < |s| && s[i] == x; assert s[1..][i - 1] == x; }
      var k := 1 + FirstIndex(s[1..], x);
      assert s[..k] == [s[0]] + s[1..][..k - 1];
      k
  }

  lemma FirstIndexUnique<T>(s: seq<T>, x: T, k: nat)
    requires k < |s| && s[k] == x && x !in s[..k]
    ensures FirstIndex(s, x) == k
  {
  }

  /** The first occurrence of an element of a prefix lies in that prefix. */
  lemma FirstIndexInPrefix<T>(s: seq<T>, n: nat, x: T)
    requires n <= |s| && x in s[..n]
    ensures FirstIndex(s, x) == FirstIndex(s[..n], x)
  {
    var k := FirstIndex(s[..n], x);
    assert s[..k] == s[..n][..k];
    FirstIndexUnique(s, x, k);
  }

  /** Dedup loses nothing and invents nothing. */
  lemma {:induction false} DedupSameElements<T>(s: seq<T>)
    ensures forall x :: x in Dedup(s) ==> x in s
    ensures forall x :: x in s ==> x in Dedup(s)
  {
    if s != [] {
      var init := s[..|s| - 1];
      DedupSameElements(init);
      assert s == init + [s[|s| - 1]];
    }
  }

  /** Dedup never yields the same element twice. */
  lemma {:induction false} DedupNoDuplicates<T>(s: seq<T>)
    ensures NoDuplicates(Dedup(s))
  {
    if s != [] {
      DedupNoDuplicates(s[..|s| - 1]);
    }
  }

  /** Dedup lists elements in the order of their first appearance in `s`. */
  lemma {:induction false} DedupFirstSeenOrder<T>(s: seq<T>, i: nat, j: nat)
    requires i < j < |Dedup(s)|
    ensures Dedup(s)[i] in s && Dedup(s)[j] in s
    ensures FirstIndex(s, Dedup(s)[i]) < FirstIndex(s, Dedup(s)[j])
  {
    var r := Dedup(s);
    DedupSameElements(s);
    var n := |s| - 1;
    var init := s[..n];
    var kept := Dedup(init);
    DedupSameElements(init);
    assert i < |kept| && r[i] == kept[i] && kept[i] in kept;
    FirstIndexInPrefix(s, n, r[i]);
    if j < |kept| {
      assert r[j] == kept[j] && kept[j] in kept;
      DedupFirstSeenOrder(init, i, j);
      FirstIndexInPrefix(s, n, r[j]);
    } else {
      assert r[j] == s[n] && s[n] !in init;
      FirstIndexUnique(s, s[n], n);
    }
  }

  /** `"/" + result["path"]` for every search result, in result order. */
  function Prefixed(paths: seq<string>): (dirs: seq<string>)
    ensures |dirs| == |paths|
    ensures forall i :: 0 <= i < |paths| ==> dirs[i] == "/" + paths[i]
  {
    seq(|paths|, i requires 0 <= i < |paths| => "/" + paths[i])
  }

  /** `args.groupID[i] + "/" + args.version` for every group ID (lines 201-202). */
  function WithVersion(groupIDs: seq<string>, version: string): (dirs: seq<string>)
    ensures |dirs| == |groupIDs|
    ensures forall i :: 0 <= i < |groupIDs| ==> dirs[i] == groupIDs[i] + "/" + version
  {
    seq(|groupIDs|, i requires 0 <= i < |groupIDs| => groupIDs[i] + "/" + version)
  }

  // ---------------------------------------------------------------------
  // Target path: re.sub("/" + version + "$", '', directory) (line 221).
  // ---------------------------------------------------------------------

  /** The characters that are special in a Python regular expression, apart
      from '.', which is modelled. */
  const RegexSpecials := {'^', '$', '*', '+', '?', '{', '}', '[', ']', '\\', '|', '(', ')'}

  /** A version whose only regex metacharacter is '.' and that has no newline,
      such as "2.279" or "2.249.3". */
  predicate PlainVersion(version: string)
  {
    forall k :: 0 <= k < |version| ==> version[k] !in RegexSpecials && version[k] != '\n'
  }

  /** One pattern character against one text character: '.' is any character
      but a newline, anything else stands for itself. */
  predicate PatternChar(p: char, c: char)
  {
    if p == '.' then c != '\n' else c == p
  }

  /** The pattern "/" + version matches `d` at position `start`. */
  predicate MatchesAt(d: string, start: nat, version: string)
  {
    && start + |version| + 1 <= |d|
    && d[start] == '/'
    && forall k :: 0 <= k < |version| ==> PatternChar(version[k], d[start + 1 + k])
  }

  /** The target path of a directory. The pattern is anchored by '$', which
      matches at the end of the text or just before a final newline, so at
      most one occurrence is removed. */
  function TargetFilePath(d: string, version: string): (t: string)
    requires PlainVersion(version)
    ensures '\n' !in d ==>
      t == d || (|d| == |t| + |version| + 1 && t == d[..|t|] && d[|t|] == '/')
  {
    var n := |version| + 1;
    if |d| >= n && MatchesAt(d, |d| - n, version) then d[..|d| - n]
    else if |d| >= n + 1 && d[|d| - 1] == '\n' && MatchesAt(d, |d| - 1 - n, version) then
      d[..|d| - 1 - n] + "\n"
    else d
  }

  /** A directory `t + "/" + version` goes to `t`. */
  lemma TargetStripsVersion(t: string, version: string)
    requires PlainVersion(version)
    ensures TargetFilePath(t + "/" + version, version) == t
  {
    var d := t + "/" + version;
    assert d[|t|] == '/';
    forall k | 0 <= k < |version| ensures PatternChar(version[k], d[|t| + 1 + k]) {
      assert d[|t| + 1 + k] == version[k];
    }
    assert d[..|d| - |version| - 1] == t;
  }

  /** When the version has no '.', the pattern is a literal text: a directory
      that does not end with "/" + version keeps its path. */
  lemma TargetUnchangedWithoutSuffix(d: string, version: string)
    requires PlainVersion(version) && '.' !in version && '\n' !in d
    requires forall t :: d != t + "/" + version
    ensures TargetFilePath(d, version) == d
  {
    var n := |version| + 1;
    if |d| >= n && MatchesAt(d, |d| - n, version) {
      var t := d[..|d| - n];
      forall k | 0 <= k < |version| ensures d[|d| - n + 1 + k] == version[k] {
        assert version[k] != '.';
      }
      assert d == t + "/" + version;
    }
  }

  /** For a dotted version too, a directory keeps its path when its last
      |version| + 1 characters do not match "/" + version: no '/' in front, or
      a digit of the version that differs. */
  lemma TargetUnchangedWhenNoMatch(d: string, version: string)
    requires PlainVersion(version) && '\n' !in d
    requires || |d| < |version| + 1
             || d[|d| - |version| - 1] != '/'
             || exists k :: 0 <= k < |version| && version[k] != '.' && d[|d| - |version| + k] != version[k]
    ensures TargetFilePath(d, version) == d
  {
  }

  /** A directory of another release keeps its path. */
  lemma TargetOtherReleaseUnchanged()
    ensures TargetFilePath("/org/jenkins-ci/main/cli/2.280", "2.279") == "/org/jenkins-ci/main/cli/2.280"
  {
    var d := "/org/jenkins-ci/main/cli/2.280";
    assert "2.279"[4] != '.' && d[|d| - 5 + 4] != "2.279"[4];
    TargetUnchangedWhenNoMatch(d, "2.279");
  }

  /** The '.' of a version is a wildcard: "/cli/2x279" also loses "/2x279". */
  lemma TargetDotIsWildcard()
    ensures TargetFilePath("/org/jenkins-ci/main/cli/2x279", "2.279") == "/org/jenkins-ci/main/cli"
  {
  }

  // ---------------------------------------------------------------------
  // Settings (is_required_parameters, lines 128-150).
  // ---------------------------------------------------------------------

  /** The five settings read from the environment (lines 9-14); an unset
      variable is None. */
  datatype Config = Config(
    url: Option<string>,
    username: Option<string>,
    password: Option<string>,
    srcRepoKey: Option<string>,
    targetRepoKey: Option<string>)

  datatype Setting = Url | Username | Password | SrcRepoKey | TargetRepoKey

  /** Order in which the settings are checked. */
  function Rank(s: Setting): nat
  {
    match s
    case Url => 0
    case Username => 1
    case Password => 2
    case SrcRepoKey => 3
    case TargetRepoKey => 4
  }

  function Get(c: Config, s: Setting): Option<string>
  {
    match s
    case Url => c.url
    case Username => c.username
    case Password => c.password
    case SrcRepoKey => c.srcRepoKey
    case TargetRepoKey => c.targetRepoKey
  }

  /** Python truthiness of an optional string: set and not empty. */
  predicate Truthy(o: Option<string>)
  {
    o.Some? && o.value != ""
  }

  predicate Provided(c: Config, s: Setting)
  {
    Truthy(Get(c, s))
  }

  predicate AllProvided(c: Config)
  {
    Truthy(c.url) && Truthy(c.username) && Truthy(c.password)
    && Truthy(c.srcRepoKey) && Truthy(c.targetRepoKey)
  }

  /** The settings in the order is_required_parameters checks them. */
  const Settings: seq<Setting> := [Url, Username, Password, SrcRepoKey, TargetRepoKey]

  /** The settings of `ss` that `c` lacks, in the order of `ss`. */
  function MissingAmong(c: Config, ss: seq<Setting>): (r: seq<Setting>)
    ensures |r| <= |ss|
    ensures forall s :: s in r ==> !Provided(c, s)
  {
    if ss == [] then []
    else MissingAmong(c, ss[..|ss| - 1])
         + (if Provided(c, ss[|ss| - 1]) then [] else [ss[|ss| - 1]])
  }

  predicate RankSorted(ss: seq<Setting>)
  {
    forall i, j :: 0 <= i < j < |ss| ==> Rank(ss[i]) < Rank(ss[j])
  }

  /** MissingAmong keeps exactly the missing settings of `ss`. */
  lemma {:induction false} MissingAmongSelects(c: Config, ss: seq<Setting>)
    ensures forall s :: s in MissingAmong(c, ss) ==> s in ss && !Provided(c, s)
    ensures forall s :: s in ss && !Provided(c, s) ==> s in MissingAmong(c, ss)
  {
    if ss != [] {
      var n := |ss| - 1;
      var init := ss[..n];
      MissingAmongSelects(c, init);
      assert ss == init + [ss[n]];
      var m := MissingAmong(c, init);
      assert MissingAmong(c, ss) == m + (if Provided(c, ss[n]) then [] else [ss[n]]);
    }
  }

  /** ... and keeps their order. */
  lemma {:induction false} MissingAmongSorted(c: Config, ss: seq<Setting>)
    requires RankSorted(ss)
    ensures RankSorted(MissingAmong(c, ss))
  {
    if ss != [] {
      var n := |ss| - 1;
      var init := ss[..n];
      assert RankSorted(init);
      MissingAmongSorted(c, init);
      MissingAmongSelects(c, init);
      var m := MissingAmong(c, init);
      forall x | x in m ensures Rank(x) < Rank(ss[n]) {
        var k :| 0 <= k < n && init[k] == x;
        assert ss[k] == x;
      }
      assert MissingAmong(c, ss) == m + (if Provided(c, ss[n]) then [] else [ss[n]]);
      if !Provided(c, ss[n]) {
        RankSortedSnoc(m, ss[n]);
      } else {
        assert m + [] == m;
      }
    }
  }

  lemma RankSortedSnoc(m: seq<Setting>, x: Setting)
    requires RankSorted(m) && forall y :: y in m ==> Rank(y) < Rank(x)
    ensures RankSorted(m + [x])
  {
    forall i, j | 0 <= i < j < |m| + 1 ensures Rank((m + [x])[i]) < Rank((m + [x])[j]) {
      if j == |m| {
        assert (m + [x])[i] == m[i];
      }
    }
  }

  lemma SettingsAreAllSortedOnce()
    ensures forall s :: s in Settings
    ensures RankSorted(Settings)
  {
    forall s ensures s in Settings {
      match s
      case Url => assert Settings[0] == Url;
      case Username => assert Settings[1] == Username;
      case Password => assert Settings[2] == Password;
      case SrcRepoKey => assert Settings[3] == SrcRepoKey;
      case TargetRepoKey => assert Settings[4] == TargetRepoKey;
    }
  }

  /** The report of missing settings names every missing setting and no
      other, each once and in the order of the checks; it is empty exactly
      when every setting is provided. */
  lemma MissingSettingsReport(c: Config)
    ensures forall s :: s in MissingAmong(c, Settings) <==> !Provided(c, s)
    ensures RankSorted(MissingAmong(c, Settings))
    ensures MissingAmong(c, Settings) == [] <==> AllProvided(c)
  {
    var m := MissingAmong(c, Settings);
    SettingsAreAllSortedOnce();
    MissingAmongSelects(c, Settings);
    MissingAmongSorted(c, Settings);
    AllProvidedEverySetting(c);
    if m != [] {
      assert !Provided(c, m[0]);
    }
    if !AllProvided(c) {
      var s :| !Provided(c, s);
      assert s in m;
    }
  }

  lemma AllProvidedEverySetting(c: Config)
    ensures AllProvided(c) <==> forall s :: Provided(c, s)
  {
    if AllProvided(c) {
      forall s ensures Provided(c, s) {
        match s
        case Url =>
        case Username =>
        case Password =>
        case SrcRepoKey =>
        case TargetRepoKey =>
      }
    } else {
      assert !Provided(c, Url) || !Provided(c, Username) || !Provided(c, Password)
        || !Provided(c, SrcRepoKey) || !Provided(c, TargetRepoKey);
    }
  }

  // ---------------------------------------------------------------------
  // Requests to the repository server and their effect.
  // ---------------------------------------------------------------------

  datatype Mode = Copy | Move

  /** A request the script sends: the AQL search (line 80), the ping (line
      120), the API version query (line 34), an existence query (line 103),
      or a copy or move (lines 52, 164) with its arguments. */
  datatype Request =
    | Search(searchRepo: Option<string>, searchPath: string, searchVersion: string)
    | Ping
    | ApiVersion
    | Storage(repository: string, directory: string)
    | Transfer(mode: Mode, srcRepoKey: string, srcFilePath: string,
               targetRepoKey: string, targetFilePath: string,
               dryRun: int, suppressLayout: int, failFast: int)

  /** What the model keeps of the server: the directories present in the
      source and target repositories, and every request received, in order. */
  datatype RepoState = RepoState(source: set<string>, target: set<string>, log: seq<Request>)

  /** The effect of a copy or move: logged; unless a dry run, the source
      directory is then present in the target, and a move takes it out of
      the source. */
  function Apply(st: RepoState, t: Request): (r: RepoState)
    requires t.Transfer?
    ensures r.log == st.log + [t]
    ensures t.dryRun != 0 ==> r.source == st.source && r.target == st.target
    ensures t.dryRun == 0 ==> t.srcFilePath in r.target && r.target - {t.srcFilePath} == st.target - {t.srcFilePath}
    ensures r.source == (if t.dryRun == 0 && t.mode == Move then st.source - {t.srcFilePath} else st.source)
  {
    var target := if t.dryRun == 0 then st.target + {t.srcFilePath} else st.target;
    var source := if t.dryRun == 0 && t.mode == Move then st.source - {t.srcFilePath} else st.source;
    RepoState(source, target, st.log + [t])
  }

  /** `is_directory_exist`: present exactly when the status is 200 (lines 108-111). */
  function DirectoryExists(status: int): (present: bool)
    ensures present <==> status == 200
  {
    if status != 200 then false else status == 200
  }

  /** The storage API's answer: 200 for a present directory, 404 otherwise. */
  function StorageStatus(st: RepoState, directory: string): int
  {
    if directory in st.target then 200 else 404
  }

  /** The parameters one run applies to every directory of its batch. */
  datatype Batch = Batch(srcRepoKey: string, targetRepoKey: string, version: string,
                         mode: Mode, dryRun: bool)

  /** The copy or move of lines 228-243 for one directory: source path the
      directory itself, dryRun = int(dry_run), suppressLayout 0, failFast 1. */
  function TransferFor(b: Batch, directory: string): (t: Request)
    requires PlainVersion(b.version)
    ensures t.Transfer? && t.mode == b.mode
    ensures t.srcRepoKey == b.srcRepoKey && t.targetRepoKey == b.targetRepoKey
    ensures t.srcFilePath == directory && t.targetFilePath == TargetFilePath(directory, b.version)
    ensures (t.dryRun == 1 <==> b.dryRun) && (t.dryRun == 0 <==> !b.dryRun)
    ensures t.suppressLayout == 0 && t.failFast == 1
  {
    Transfer(b.mode, b.srcRepoKey, directory, b.targetRepoKey,
             TargetFilePath(directory, b.version), if b.dryRun then 1 else 0, 0, 1)
  }

  /** One iteration of the loop of lines 219-245. */
  function Step(st: RepoState, b: Batch, directory: string): (r: RepoState)
    requires PlainVersion(b.version)
    ensures |r.log| == |st.log| + (if directory in st.target then 1 else 2)
    ensures directory in st.target ==> r.source == st.source && r.target == st.target
    ensures !b.dryRun ==> directory in r.target
  {
    var queried := RepoState(st.source, st.target, st.log + [Storage(b.targetRepoKey, directory)]);
    if DirectoryExists(StorageStatus(st, directory)) then queried
    else Apply(queried, TransferFor(b, directory))
  }

  /** The whole loop over `dirs`. */
  function Promote(dirs: seq<string>, st: RepoState, b: Batch): (r: RepoState)
    requires PlainVersion(b.version)
    ensures |st.log| + |dirs| <= |r.log| <= |st.log| + 2 * |dirs|
    ensures st.target <= r.target && r.source <= st.source
  {
    if dirs == [] then st
    else Step(Promote(dirs[..|dirs| - 1], st, b), b, dirs[|dirs| - 1])
  }

  /** A request the batch may send: an existence query about one of its
      directories in the target repository, or that directory's copy/move
      with the batch's mode and fixed flags. */
  predicate BatchRequest(b: Batch, dirs: seq<string>, q: Request)
    requires PlainVersion(b.version)
  {
    || (q.Storage? && q.repository == b.targetRepoKey && q.directory in dirs)
    || (q.Transfer? && q.srcFilePath in dirs && q == TransferFor(b, q.srcFilePath))
  }

  /** Sources of the copies and moves in a log, in order. */
  function Transferred(log: seq<Request>): seq<string>
  {
    if log == [] then []
    else Transferred(log[..|log| - 1])
         + (if log[|log| - 1].Transfer? then [log[|log| - 1].srcFilePath] else [])
  }

  lemma {:induction false} TransferredAppend(a: seq<Request>, b: seq<Request>)
    ensures Transferred(a + b) == Transferred(a) + Transferred(b)
    decreases |b|
  {
    if b == [] {
      assert a + b == a;
    } else {
      TransferredAppend(a, b[..|b| - 1]);
      assert (a + b)[..|a + b| - 1] == a + b[..|b| - 1];
    }
  }

  /** The directories of `dirs` absent from `present`, in order. */
  function Absent(dirs: seq<string>, present: set<string>): (r: seq<string>)
    ensures forall d :: d in r <==> d in dirs && d !in present
  {
    if dirs == [] then []
    else Absent(dirs[..|dirs| - 1], present)
         + (if dirs[|dirs| - 1] !in present then [dirs[|dirs| - 1]] else [])
  }

  /** A batch only appends to the log, and only requests of its own: one
      existence query per directory and copies or moves of the batch's mode,
      with the directory as source path, its target path, and the batch's
      dry-run flag, suppressLayout 0 and failFast 1. */
  lemma {:induction false} PromoteSendsOnlyBatchRequests(dirs: seq<string>, st: RepoState, b: Batch)
    requires PlainVersion(b.version)
    ensures var r := Promote(dirs, st, b);
      |st.log| + |dirs| <= |r.log| <= |st.log| + 2 * |dirs| && r.log[..|st.log|] == st.log
      && forall k :: |st.log| <= k < |r.log| ==> BatchRequest(b, dirs, r.log[k])
  {
    if dirs != [] {
      var init := dirs[..|dirs| - 1];
      PromoteSendsOnlyBatchRequests(init, st, b);
      var p := Promote(init, st, b);
      var r := Promote(dirs, st, b);
      assert r.log[..|p.log|] == p.log;
      forall k | |st.log| <= k < |r.log| ensures BatchRequest(b, dirs, r.log[k]) {
        if k < |p.log| {
          assert r.log[k] == p.log[k];
          assert BatchRequest(b, init, p.log[k]);
        }
      }
    }
  }

  /** Unless a dry run, every directory of the batch is present in the target
      afterwards; a copy leaves the source alone, a move takes out of it
      exactly the directories that were missing from the target. A dry run
      changes neither repository. */
  lemma {:induction false} PromoteRepositories(dirs: seq<string>, st: RepoState, b: Batch)
    requires PlainVersion(b.version)
    ensures var r := Promote(dirs, st, b);
      && r.target == (if b.dryRun then st.target else st.target + set d | d in dirs)
      && r.source == (if b.dryRun || b.mode == Copy then st.source
                      else st.source - (set d | d in dirs && d !in st.target))
  {
    if dirs != [] {
      var init := dirs[..|dirs| - 1];
      PromoteRepositories(init, st, b);
      assert dirs == init + [dirs[|dirs| - 1]];
      assert (set d | d in dirs) == (set d | d in init) + {dirs[|dirs| - 1]};
    }
  }

  /** One iteration sends a copy or move exactly when its directory is
      missing from the target. */
  lemma StepTransfers(st: RepoState, b: Batch, d: string)
    requires PlainVersion(b.version)
    ensures Transferred(Step(st, b, d).log)
      == Transferred(st.log) + (if d in st.target then [] else [d])
  {
  }

  /** Acts iff absent: the copies or moves are, in order, for exactly the
      directories missing from the target, the existence query using the
      source path `directory` itself. A dry run changes nothing, so every
      absent occurrence is acted on; in a real run the first copy or move
      makes a directory present, so a repeated directory is acted on once,
      at its first occurrence. */
  lemma PromoteActsIffAbsent(dirs: seq<string>, st: RepoState, b: Batch)
    requires PlainVersion(b.version)
    ensures Transferred(Promote(dirs, st, b).log)
      == Transferred(st.log) + Absent(if b.dryRun then dirs else Dedup(dirs), st.target)
  {
    if b.dryRun {
      DryRunActsOnEveryAbsent(dirs, st, b);
    } else {
      RealRunActsOnFirstAbsent(dirs, st, b);
    }
  }

  lemma {:induction false} DryRunActsOnEveryAbsent(dirs: seq<string>, st: RepoState, b: Batch)
    requires PlainVersion(b.version) && b.dryRun
    ensures Transferred(Promote(dirs, st, b).log) == Transferred(st.log) + Absent(dirs, st.target)
  {
    if dirs != [] {
      var init := dirs[..|dirs| - 1];
      var d := dirs[|dirs| - 1];
      DryRunActsOnEveryAbsent(init, st, b);
      var p := Promote(init, st, b);
      assert Promote(dirs, st, b) == Step(p, b, d);
      PromoteTargetMembers(init, st, b);
      assert d in p.target <==> d in st.target;
      StepTransfers(p, b, d);
      assert Absent(dirs, st.target) == Absent(init, st.target) + (if d !in st.target then [d] else []);
    }
  }

  lemma {:induction false} RealRunActsOnFirstAbsent(dirs: seq<string>, st: RepoState, b: Batch)
    requires PlainVersion(b.version) && !b.dryRun
    ensures Transferred(Promote(dirs, st, b).log) == Transferred(st.log) + Absent(Dedup(dirs), st.target)
  {
    if dirs != [] {
      var init := dirs[..|dirs| - 1];
      var d := dirs[|dirs| - 1];
      var kept := Dedup(init);
      var p := Promote(init, st, b);
      RealRunActsOnFirstAbsent(init, st, b);
      PromoteSnoc(dirs, st, b);
      DedupSnoc(dirs);
      PromoteHasMember(init, st, b, d);
      if d in init {
        assert Dedup(dirs) == kept && d in p.target;
      } else {
        assert Dedup(dirs) == kept + [d] && (d in p.target <==> d in st.target);
        AbsentSnoc(kept, d, st.target);
      }
    }
  }

  /** The copies or moves of a batch are those of all but its last
      directory, then the last one's if it is still missing. */
  lemma PromoteSnoc(dirs: seq<string>, st: RepoState, b: Batch)
    requires PlainVersion(b.version) && dirs != []
    ensures var p := Promote(dirs[..|dirs| - 1], st, b);
      Transferred(Promote(dirs, st, b).log)
      == Transferred(p.log) + (if dirs[|dirs| - 1] in p.target then [] else [dirs[|dirs| - 1]])
  {
    var p := Promote(dirs[..|dirs| - 1], st, b);
    assert Promote(dirs, st, b) == Step(p, b, dirs[|dirs| - 1]);
    StepTransfers(p, b, dirs[|dirs| - 1]);
  }

  /** Dedup keeps a last element only when it did not occur before. */
  lemma DedupSnoc<T>(s: seq<T>)
    requires s != []
    ensures var init := s[..|s| - 1];
      Dedup(s) == if s[|s| - 1] in init then Dedup(init) else Dedup(init) + [s[|s| - 1]]
  {
    DedupSameElements(s[..|s| - 1]);
  }

  /** Which directories the target holds after a batch. */
  lemma {:induction false} PromoteTargetMembers(dirs: seq<string>, st: RepoState, b: Batch)
    requires PlainVersion(b.version)
    ensures forall x :: x in Promote(dirs, st, b).target <==> x in st.target || (!b.dryRun && x in dirs)
  {
    if dirs != [] {
      var init := dirs[..|dirs| - 1];
      PromoteTargetMembers(init, st, b);
      assert dirs == init + [dirs[|dirs| - 1]];
    }
  }

  /** One directory's presence in the target after a batch. */
  lemma PromoteHasMember(dirs: seq<string>, st: RepoState, b: Batch, x: string)
    requires PlainVersion(b.version)
    ensures x in Promote(dirs, st, b).target <==> x in st.target || (!b.dryRun && x in dirs)
  {
    PromoteTargetMembers(dirs, st, b);
  }

  lemma AbsentSnoc(xs: seq<string>, d: string, present: set<string>)
    ensures Absent(xs + [d], present) == Absent(xs, present) + (if d !in present then [d] else [])
  {
    assert (xs + [d])[..|xs|] == xs;
  }

  /** With distinct directories a real run acts on them as a dry run would. */
  lemma {:induction false} DedupOfDistinct<T>(s: seq<T>)
    requires NoDuplicates(s)
    ensures Dedup(s) == s
  {
    if s != [] {
      var init := s[..|s| - 1];
      DedupOfDistinct(init);
      assert s == init + [s[|s| - 1]];
    }
  }

  /** When every directory is already present in the target, a batch only
      asks about each one: no copy or move, nothing changes. */
  lemma {:induction false} PromoteAllPresent(dirs: seq<string>, st: RepoState, b: Batch)
    requires PlainVersion(b.version)
    requires forall d :: d in dirs ==> d in st.target
    ensures var r := Promote(dirs, st, b);
      && r.source == st.source && r.target == st.target
      && r.log == st.log + seq(|dirs|, i requires 0 <= i < |dirs| => Storage(b.targetRepoKey, dirs[i]))
  {
    if dirs != [] {
      var n := |dirs| - 1;
      var init := dirs[..n];
      PromoteAllPresent(init, st, b);
      var queries := seq(|dirs|, i requires 0 <= i < |dirs| => Storage(b.targetRepoKey, dirs[i]));
      assert queries == seq(n, i requires 0 <= i < n => Storage(b.targetRepoKey, init[i]))
                        + [Storage(b.targetRepoKey, dirs[n])];
    }
  }

  /** Running the same batch again after a real run sends no copy or move and
      leaves both repositories as they are. */
  lemma RerunIsIdempotent(dirs: seq<string>, st: RepoState, b: Batch)
    requires PlainVersion(b.version) && !b.dryRun
    ensures var r1 := Promote(dirs, st, b);
      var r2 := Promote(dirs, r1, b);
      r2.source == r1.source && r2.target == r1.target
      && Transferred(r2.log) == Transferred(r1.log)
  {
    var r1 := Promote(dirs, st, b);
    PromoteRepositories(dirs, st, b);
    PromoteAllPresent(dirs, r1, b);
    var queries := seq(|dirs|, i requires 0 <= i < |dirs| => Storage(b.targetRepoKey, dirs[i]));
    TransferredAppend(r1.log, queries);
    TransferredNoneIn(queries);
  }

  lemma {:induction false} TransferredNoneIn(log: seq<Request>)
    requires forall k :: 0 <= k < |log| ==> !log[k].Transfer?
    ensures Transferred(log) == []
  {
    if log != [] { TransferredNoneIn(log[..|log| - 1]); }
  }
}
