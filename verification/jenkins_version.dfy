/** Model of utils/getJenkinsVersion.py: the choice of the Jenkins version to
    download from the `maven-metadata.xml` of the jenkins-war artifact, and the
    download URL built from it.

    The XML document and the network are not modelled: the selector receives
    the texts of the `versioning/versions/version` elements, in document
    order, and the text of `versioning/release`. */
module JenkinsVersion {
  import opened Wrappers

  // ---------------------------------------------------------------------
  // Python's str.split with an explicit separator, and its inverse.
  // ---------------------------------------------------------------------

  /** `s.split(sep)`: the pieces between separators, empty pieces included;
      never an empty list ("".split('.') is ['']). */
  function Split(s: string, sep: char): (parts: seq<string>)
    ensures |parts| >= 1
    decreases |s|
  {
    if s == [] then [[]]
    else
      var rest := Split(s[1..], sep);
      if s[0] == sep then [[]] + rest
      else [[s[0]] + rest[0]] + rest[1..]
  }

  /** `sep.join(parts)`. */
  function Join(parts: seq<string>, sep: char): string
    requires |parts| >= 1
  {
    if |parts| == 1 then parts[0]
    else parts[0] + [sep] + Join(parts[1..], sep)
  }

  /** Number of occurrences of `c` in `s`. */
  function Count(s: string, c: char): nat
  {
    if s == [] then 0
    else (if s[0] == c then 1 else 0) + Count(s[1..], c)
  }

  /** Putting a character in front of the first piece puts it in front of
      the joined text. */
  lemma JoinExtendHead(c: char, parts: seq<string>, sep: char)
    requires |parts| >= 1
    ensures Join([[c] + parts[0]] + parts[1..], sep) == [c] + Join(parts, sep)
  {
  }

  /** Joining the pieces back with the separator gives the original text. */
  lemma {:induction false} JoinSplit(s: string, sep: char)
    ensures Join(Split(s, sep), sep) == s
    decreases |s|
  {
    if s != [] {
      var rest := Split(s[1..], sep);
      JoinSplit(s[1..], sep);
      if s[0] == sep {
        assert ([[]] + rest)[1..] == rest;
        assert Join(Split(s, sep), sep) == [] + [sep] + s[1..];
      } else {
        JoinExtendHead(s[0], rest, sep);
      }
      assert s == [s[0]] + s[1..];
    }
  }

  /** There is one more piece than there are separators. */
  lemma {:induction false} SplitCount(s: string, sep: char)
    ensures |Split(s, sep)| == Count(s, sep) + 1
    decreases |s|
  {
    if s != [] {
      SplitCount(s[1..], sep);
    }
  }

  // ---------------------------------------------------------------------
  // The 'stable' branch (utils/getJenkinsVersion.py:17-24).
  // ---------------------------------------------------------------------

  /** A stable release number is written X.Y.Z: exactly three dot-separated
      components. */
  predicate IsStable(v: string)
    ensures IsStable(v) <==> Count(v, '.') == 2
  {
    SplitCount(v, '.');
    |Split(v, '.')| == 3
  }

  /** The last stable entry in document order, if any. */
  function LastStable(versions: seq<string>): (r: Option<string>)
    ensures r.Some? ==> r.value in versions && IsStable(r.value)
  {
    if versions == [] then None
    else if IsStable(versions[|versions| - 1]) then Some(versions[|versions| - 1])
    else LastStable(versions[..|versions| - 1])
  }

  /** LastStable finds something exactly when some entry is stable, and what
      it finds is a listed entry, stable, with no stable entry after it. It
      is the last match, not the greatest version. */
  lemma {:induction false} LastStableIsLastMatch(versions: seq<string>)
    ensures LastStable(versions).Some? <==> exists i :: 0 <= i < |versions| && IsStable(versions[i])
    ensures LastStable(versions).Some? ==>
      exists i :: 0 <= i < |versions| && versions[i] == LastStable(versions).value
        && IsStable(versions[i])
        && forall j :: i < j < |versions| ==> !IsStable(versions[j])
  {
    if versions != [] {
      var n := |versions| - 1;
      var init := versions[..n];
      if IsStable(versions[n]) {
        assert versions[n] == LastStable(versions).value;
      } else {
        LastStableIsLastMatch(init);
        if LastStable(init).Some? {
          var i :| 0 <= i < |init| && init[i] == LastStable(init).value && IsStable(init[i])
            && forall j :: i < j < |init| ==> !IsStable(init[j]);
          assert versions[i] == LastStable(versions).value;
          assert forall j :: i < j < |versions| ==> !IsStable(versions[j]) by {
            forall j | i < j < |versions| ensures !IsStable(versions[j]) {
              if j < n { assert versions[j] == init[j]; }
            }
          }
        } else {
          forall i | 0 <= i < |versions| ensures !IsStable(versions[i]) {
            if i < n { assert versions[i] == init[i]; }
          }
        }
      }
    }
  }

  /** The document order decides, not the size of the version: a later
      "2.289.3" wins over an earlier "2.300.1". */
  lemma LastStableIsNotGreatest()
    ensures LastStable(["2.300.1", "2.289.3", "2.301"]) == Some("2.289.3")
  {
    var vs := ["2.300.1", "2.289.3", "2.301"];
    assert !IsStable("2.301") by {
      assert Count("2.301", '.') == 1;
    }
    assert IsStable("2.289.3") by {
      assert Count("2.289.3", '.') == 2;
    }
    assert vs[..2] == ["2.300.1", "2.289.3"];
  }

  /** The loop of lines 20-22: `result` is overwritten by every entry with
      three components; `found` says whether `result` was ever bound. */
  method SelectStable(versions: seq<string>) returns (found: bool, result: string)
    ensures found <==> exists i :: 0 <= i < |versions| && IsStable(versions[i])
    ensures found ==> Some(result) == LastStable(versions)
  {
    found, result := false, "";
    for i := 0 to |versions|
      invariant found == LastStable(versions[..i]).Some?
      invariant found ==> Some(result) == LastStable(versions[..i])
    {
      assert versions[..i + 1][..i] == versions[..i];
      if |Split(versions[i], '.')| == 3 {
        result := versions[i];
        found := true;
      }
    }
    assert versions[..|versions|] == versions;
    LastStableIsLastMatch(versions);
  }

  // ---------------------------------------------------------------------
  // getJenkinsVersion (utils/getJenkinsVersion.py:8-41).
  // ---------------------------------------------------------------------

  /** What a call of getJenkinsVersion ends with: a version text; the
      UnboundLocalError raised at line 24 when 'stable' found no X.Y.Z entry;
      or `exit(code)` (line 39). */
  datatype Resolution = Resolved(version: string) | Unbound | Exit(code: int)

  /** The three branches on the requested identifier, compared exactly and
      case-sensitively. */
  method GetJenkinsVersion(requested: string, versions: seq<string>, release: string)
    returns (r: Resolution)
    ensures requested == "stable" ==>
      (r.Resolved? <==> exists i :: 0 <= i < |versions| && IsStable(versions[i]))
    ensures requested == "stable" && r.Resolved? ==>
      r.version in versions && IsStable(r.version) && Some(r.version) == LastStable(versions)
    ensures requested == "stable" && !r.Resolved? ==> r == Unbound
    ensures requested == "weekly" ==> r == Resolved(release)
    ensures requested != "stable" && requested != "weekly" ==> r == Resolved(requested)
    ensures !r.Exit?
  {
    if requested == "stable" {
      var found, result := SelectStable(versions);
      if found {
        LastStableIsLastMatch(versions);
        r := Resolved(result);
      } else {
        r := Unbound;
      }
    } else if requested == "weekly" {
      r := Resolved(release);
    } else if |Split(requested, '.')| > 0 {
      r := Resolved(requested);
    } else {
      r := Exit(1);
    }
  }

  // ---------------------------------------------------------------------
  // downloadJenkins (utils/getJenkinsVersion.py:49-50).
  // ---------------------------------------------------------------------

  const WarInfix := "/jenkins-war-"
  const WarSuffix := ".war"

  /** `URL + '{}/jenkins-war-{}.war'.format(version, version)`. */
  function DownloadUrl(base: string, version: string): (url: string)
    ensures |url| == |base| + 2 * |version| + |WarInfix| + |WarSuffix|
    ensures url[..|base|] == base
    ensures url[|base|..|base| + |version|] == version
    ensures url[|base| + |version|..|base| + |version| + |WarInfix|] == WarInfix
    ensures url[|url| - |WarSuffix| - |version|..|url| - |WarSuffix|] == version
    ensures url[|url| - |WarSuffix|..] == WarSuffix
  {
    base + version + WarInfix + version + WarSuffix
  }

  /** Distinct versions are downloaded from distinct URLs. */
  lemma DownloadUrlInjective(base: string, v1: string, v2: string)
    requires DownloadUrl(base, v1) == DownloadUrl(base, v2)
    ensures v1 == v2
  {
    var url := DownloadUrl(base, v1);
    assert |v1| == |v2|;
    assert v1 == url[|base|..|base| + |v1|] == v2;
  }
}
