/**
 * The application routine: the checks of the command-line arguments, the
 * selection of GitHub repository URLs among the dependencies' metadata, and
 * the order in which `run` reports its errors.
 */
module App {
  import opened Results
  import opened Strings
  import opened Seqs
  import Github

  /** The part of a crates.io crate record the tool reads: its name and optional repository URL. */
  datatype Crate = Crate(name: string, repository: Option<string>)

  /** A crates.io response for one dependency. */
  datatype CrateResponse = CrateResponse(crateData: Crate)

  /** A command-line argument that has no value. */
  datatype NoneError = NoneError(name: string)

  /** The manifest reader's error: the path and the rendering of the parser's error. */
  datatype ManifestError = ManifestError(path: string, cause: string)

  /**
   * The module's error. The registry client's error is a foreign type and is
   * carried as its rendered message.
   */
  datatype Error =
    | CargoErr(manifestError: ManifestError)
    | CratesErr(cratesMessage: string)
    | GithubErr(githubError: Github.Error)
    | NoneErr(noneError: NoneError)

  const GITHUB_HOST: string := "https://github.com"
  const NONE_ERROR_PREFIX: string := "There is no value associated with "
  const NONE_ERROR_SUFFIX: string := " argument"
  const MANIFEST_ERROR_PREFIX: string := "Error with Manifest file "
  const MANIFEST_ERROR_SEPARATOR: string := " : "

  // ---------------------------------------------------------------- rendering

  /** `Display` of `NoneError`: the argument's name between a fixed prefix and suffix. */
  function NoneErrorToString(e: NoneError): (s: string)
    ensures |s| == |NONE_ERROR_PREFIX| + |e.name| + |NONE_ERROR_SUFFIX|
    ensures s[..|NONE_ERROR_PREFIX|] == NONE_ERROR_PREFIX
    ensures s[|NONE_ERROR_PREFIX|..|s| - |NONE_ERROR_SUFFIX|] == e.name
    ensures s[|s| - |NONE_ERROR_SUFFIX|..] == NONE_ERROR_SUFFIX
  {
    NONE_ERROR_PREFIX + e.name + NONE_ERROR_SUFFIX
  }

  /** Different argument names give different messages. */
  lemma NoneErrorToStringInjective(e1: NoneError, e2: NoneError)
    requires NoneErrorToString(e1) == NoneErrorToString(e2)
    ensures e1 == e2
  {
    var s := NoneErrorToString(e1);
    assert e1.name == s[|NONE_ERROR_PREFIX|..|s| - |NONE_ERROR_SUFFIX|];
  }

  /** `Display` of the manifest reader's error. */
  function ManifestErrorToString(e: ManifestError): (s: string)
    ensures |s| == |MANIFEST_ERROR_PREFIX| + |e.path| + |MANIFEST_ERROR_SEPARATOR| + |e.cause|
    ensures s[..|MANIFEST_ERROR_PREFIX|] == MANIFEST_ERROR_PREFIX
    ensures s[|MANIFEST_ERROR_PREFIX|..|MANIFEST_ERROR_PREFIX| + |e.path|] == e.path
    ensures s[|MANIFEST_ERROR_PREFIX| + |e.path|..] == MANIFEST_ERROR_SEPARATOR + e.cause
  {
    MANIFEST_ERROR_PREFIX + e.path + MANIFEST_ERROR_SEPARATOR + e.cause
  }

  /** `Display` of `Error`: each variant renders as the error it wraps. */
  function ErrorToString(e: Error): (s: string)
    ensures e.NoneErr? ==> s == NoneErrorToString(e.noneError)
    ensures e.CargoErr? ==> s == ManifestErrorToString(e.manifestError)
    ensures e.CratesErr? ==> s == e.cratesMessage
    ensures e.GithubErr? ==> s == Github.ErrorToString(e.githubError)
  {
    match e
    case CargoErr(me) => ManifestErrorToString(me)
    case CratesErr(m) => m
    case GithubErr(ge) => Github.ErrorToString(ge)
    case NoneErr(ne) => NoneErrorToString(ne)
  }

  // ---------------------------------------------------------------- arguments

  /**
   * `value.ok_or(NoneError { name })?`: the value when the argument has one,
   * otherwise a `NoneError` naming the argument.
   */
  function ArgValue(value: Option<string>, name: string): (r: Result<string, Error>)
    ensures r.Ok? <==> value.Some?
    ensures r.Ok? ==> r.value == value.value
    ensures r.Err? ==> r.error == NoneErr(NoneError(name))
  {
    match value
    case Some(v) => Ok(v)
    case None => Err(NoneErr(NoneError(name)))
  }

  /** The message printed for a missing argument names the argument. */
  lemma MissingArgumentMessage(name: string)
    ensures ArgValue(None, name).Err?
    ensures ErrorToString(ArgValue(None, name).error) == NONE_ERROR_PREFIX + name + NONE_ERROR_SUFFIX
  {
  }

  lemma MissingTokenMessage()
    ensures ErrorToString(ArgValue(None, "token").error) == "There is no value associated with token argument"
  {
    MissingArgumentMessage("token");
  }

  // ---------------------------------------------------------------- the URL filter

  /** `deps.iter().filter_map(|d| d.crate_data.repository.clone())`: the present repository URLs, in order. */
  function PresentRepositories(deps: seq<CrateResponse>): (urls: seq<string>)
    ensures |urls| <= |deps|
    decreases |deps|
  {
    if |deps| == 0 then []
    else
      match deps[0].crateData.repository
      case Some(url) => [url] + PresentRepositories(deps[1..])
      case None => PresentRepositories(deps[1..])
  }

  /** `.filter(|r| r.contains("https://github.com"))`. */
  function KeepGithub(urls: seq<string>): (kept: seq<string>)
    ensures |kept| <= |urls|
    ensures forall i :: 0 <= i < |kept| ==> Contains(kept[i], GITHUB_HOST)
    ensures forall u :: u in kept ==> u in urls
    decreases |urls|
  {
    if |urls| == 0 then []
    else if Contains(urls[0], GITHUB_HOST) then [urls[0]] + KeepGithub(urls[1..])
    else KeepGithub(urls[1..])
  }

  /** The URLs `run` hands to the star step. */
  function RepositoryUrls(deps: seq<CrateResponse>): (urls: seq<string>)
    ensures forall i :: 0 <= i < |urls| ==> Contains(urls[i], GITHUB_HOST)
  {
    KeepGithub(PresentRepositories(deps))
  }

  /** What a single dependency contributes. */
  lemma RepositoryUrlsSingle(d: CrateResponse)
    ensures RepositoryUrls([d]) ==
      match d.crateData.repository
      case Some(url) => if Contains(url, GITHUB_HOST) then [url] else []
      case None => []
  {
    assert [d][1..] == [];
  }

  /** The filter works dependency by dependency: a concatenation gives the concatenated results. */
  lemma {:induction false} RepositoryUrlsAppend(a: seq<CrateResponse>, b: seq<CrateResponse>)
    ensures PresentRepositories(a + b) == PresentRepositories(a) + PresentRepositories(b)
    ensures RepositoryUrls(a + b) == RepositoryUrls(a) + RepositoryUrls(b)
    decreases |a|
  {
    if |a| == 0 {
      assert a + b == b;
    } else {
      assert (a + b)[0] == a[0];
      assert (a + b)[1..] == a[1..] + b;
      RepositoryUrlsAppend(a[1..], b);
    }
    KeepGithubAppend(PresentRepositories(a), PresentRepositories(b));
  }

  lemma {:induction false} KeepGithubAppend(a: seq<string>, b: seq<string>)
    ensures KeepGithub(a + b) == KeepGithub(a) + KeepGithub(b)
    decreases |a|
  {
    if |a| == 0 {
      assert a + b == b;
    } else {
      assert (a + b)[0] == a[0];
      assert (a + b)[1..] == a[1..] + b;
      KeepGithubAppend(a[1..], b);
    }
  }

  /** A dependency without a repository URL contributes nothing, wherever it stands. */
  lemma AbsentRepositoryContributesNothing(before: seq<CrateResponse>, d: CrateResponse, after: seq<CrateResponse>)
    requires d.crateData.repository.None?
    ensures RepositoryUrls(before + [d] + after) == RepositoryUrls(before + after)
  {
    RepositoryUrlsAppend(before + [d], after);
    RepositoryUrlsAppend(before, [d]);
    RepositoryUrlsAppend(before, after);
    RepositoryUrlsSingle(d);
  }

  /** A URL is selected exactly when some dependency has it as its repository and it contains the GitHub host. */
  lemma RepositoryUrlsMembership(deps: seq<CrateResponse>, url: string)
    ensures url in RepositoryUrls(deps) <==>
      Contains(url, GITHUB_HOST) && exists i :: 0 <= i < |deps| && deps[i].crateData.repository == Some(url)
  {
    PresentRepositoriesMembership(deps, url);
    KeepGithubMembership(PresentRepositories(deps), url);
  }

  lemma {:induction false} PresentRepositoriesMembership(deps: seq<CrateResponse>, url: string)
    ensures url in PresentRepositories(deps) <==>
      exists i :: 0 <= i < |deps| && deps[i].crateData.repository == Some(url)
    decreases |deps|
  {
    if |deps| > 0 {
      PresentRepositoriesMembership(deps[1..], url);
      if exists i :: 0 <= i < |deps| && deps[i].crateData.repository == Some(url) {
        var i :| 0 <= i < |deps| && deps[i].crateData.repository == Some(url);
        if i > 0 {
          assert deps[1..][i - 1] == deps[i];
        }
      }
      if exists i :: 0 <= i < |deps| - 1 && deps[1..][i].crateData.repository == Some(url) {
        var i :| 0 <= i < |deps| - 1 && deps[1..][i].crateData.repository == Some(url);
        assert deps[i + 1] == deps[1..][i];
      }
    }
  }

  lemma {:induction false} KeepGithubMembership(urls: seq<string>, url: string)
    ensures url in KeepGithub(urls) <==> url in urls && Contains(url, GITHUB_HOST)
    decreases |urls|
  {
    if |urls| > 0 {
      KeepGithubMembership(urls[1..], url);
      assert urls == [urls[0]] + urls[1..];
    }
  }

  /** The selected URLs are the present repository URLs with some removed, in their original order. */
  lemma {:induction false} KeepGithubIsSubsequence(urls: seq<string>)
    ensures IsSubsequence(KeepGithub(urls), urls)
    decreases |urls|
  {
    if |urls| > 0 {
      KeepGithubIsSubsequence(urls[1..]);
      var kept := KeepGithub(urls);
      if Contains(urls[0], GITHUB_HOST) {
        assert kept[1..] == KeepGithub(urls[1..]);
      }
    }
  }

  lemma RepositoryUrlsIsSubsequence(deps: seq<CrateResponse>)
    ensures IsSubsequence(RepositoryUrls(deps), PresentRepositories(deps))
  {
    KeepGithubIsSubsequence(PresentRepositories(deps));
  }

  /** The filter drops nothing from URLs that all pass it. */
  lemma {:induction false} KeepGithubKeepsMatching(urls: seq<string>)
    requires forall i :: 0 <= i < |urls| ==> Contains(urls[i], GITHUB_HOST)
    ensures KeepGithub(urls) == urls
    decreases |urls|
  {
    if |urls| > 0 {
      KeepGithubKeepsMatching(urls[1..]);
      assert [urls[0]] + urls[1..] == urls;
    }
  }

  /** Filtering the selected URLs again changes nothing. */
  lemma RepositoryUrlsIdempotent(deps: seq<CrateResponse>)
    ensures KeepGithub(RepositoryUrls(deps)) == RepositoryUrls(deps)
  {
    KeepGithubKeepsMatching(RepositoryUrls(deps));
  }

  // ---------------------------------------------------------------- run

  /** The arguments `run` passes to the star step: the token and the selected URLs. */
  datatype StarRequest = StarRequest(token: string, urls: seq<string>)

  /** A parsed manifest: the names in its three dependency tables. */
  datatype Manifest = Manifest(dependencies: seq<string>, devDependencies: seq<string>, buildDependencies: seq<string>)

  /**
   * `run` up to the star step. `readManifest` stands for
   * `project::read_manifest_from_path` and `fetchCrates` for
   * `crates::deps_from_crates_io`; their errors are wrapped as `CargoErr` and
   * `CratesErr`, as the `?` conversions do. The manifest argument is checked
   * first, then the manifest is read, then the metadata is fetched, and only
   * then is the token checked; the first failure is the result.
   */
  function Run(manifestArg: Option<string>,
               readManifest: string -> Result<Manifest, ManifestError>,
               fetchCrates: Manifest -> Result<seq<CrateResponse>, string>,
               tokenArg: Option<string>): (r: Result<StarRequest, Error>)
    ensures manifestArg.None? ==> r == Err(NoneErr(NoneError("manifest")))
    ensures manifestArg.Some? && readManifest(manifestArg.value).Err? ==>
      r == Err(CargoErr(readManifest(manifestArg.value).error))
    ensures manifestArg.Some? && readManifest(manifestArg.value).Ok? &&
            fetchCrates(readManifest(manifestArg.value).value).Err? ==>
      r == Err(CratesErr(fetchCrates(readManifest(manifestArg.value).value).error))
    ensures manifestArg.Some? && readManifest(manifestArg.value).Ok? &&
            fetchCrates(readManifest(manifestArg.value).value).Ok? && tokenArg.None? ==>
      r == Err(NoneErr(NoneError("token")))
    ensures r.Ok? <==>
      && manifestArg.Some?
      && readManifest(manifestArg.value).Ok?
      && fetchCrates(readManifest(manifestArg.value).value).Ok?
      && tokenArg.Some?
    ensures r.Ok? ==>
      r.value == StarRequest(tokenArg.value, RepositoryUrls(fetchCrates(readManifest(manifestArg.value).value).value))
  {
    match ArgValue(manifestArg, "manifest")
    case Err(e) => Err(e)
    case Ok(path) =>
      match readManifest(path)
      case Err(me) => Err(CargoErr(me))
      case Ok(manifest) =>
        match fetchCrates(manifest)
        case Err(m) => Err(CratesErr(m))
        case Ok(deps) =>
          var urls := RepositoryUrls(deps);
          match ArgValue(tokenArg, "token")
          case Err(e) => Err(e)
          case Ok(token) => Ok(StarRequest(token, urls))
  }

  /**
   * The whole data path: every star request planned from the selected URLs
   * is the repository located from the GitHub URL of some dependency.
   */
  lemma StarredReposComeFromDependencies(deps: seq<CrateResponse>, k: nat)
    requires k < |Github.StarPlan(RepositoryUrls(deps)).attempts|
    ensures exists i ::
      && 0 <= i < |deps|
      && deps[i].crateData.repository.Some?
      && Contains(deps[i].crateData.repository.value, GITHUB_HOST)
      && Github.RepoFromUrl(deps[i].crateData.repository.value) == Ok(Github.StarPlan(RepositoryUrls(deps)).attempts[k])
  {
    var urls := RepositoryUrls(deps);
    var located := Github.Locate(urls);
    var p := Github.Partition(located);
    Github.PartitionInterleaves(located);
    assert p.0[k] in p.0;
    SubsequenceMember(p.0, located, p.0[k]);
    var j :| 0 <= j < |located| && located[j] == p.0[k];
    assert urls[j] in urls;
    RepositoryUrlsMembership(deps, urls[j]);
  }
}
