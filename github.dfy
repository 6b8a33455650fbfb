/**
 * The GitHub side of the tool up to the network: turning repository URLs into
 * `Repo` values, separating the URLs that do not locate a repository, the
 * messages logged for them, and the list of star requests that is handed to
 * the GitHub client.
 */
module Github {
  import opened Results
  import opened Strings
  import opened Seqs

  /** A repository on GitHub: the owning user and the repository name. No invariant: either may be empty. */
  datatype Repo = Repo(user: string, name: string)

  /** A URL from which no user and name could be read. */
  datatype RepoUrlError = RepoUrlError(url: string)

  /** A failed star request; `cause` is the rendering of the client's own error. */
  datatype StargazError = StargazError(cause: string, repo: Repo)

  /**
   * The module's error. The errors of the GitHub client and of the I/O layer
   * are foreign types and are carried as their rendered messages.
   */
  datatype Error =
    | HubCapsErr(hubCapsMessage: string)
    | StargazErr(stargazError: StargazError)
    | RepoUrlErr(repoUrlError: RepoUrlError)
    | StdIOErr(ioMessage: string)

  const REPO_URL_ERROR_PREFIX: string := "Can't get user and name from repository URL "
  const STARGAZ_ERROR_PREFIX: string := "Error stargazing repository : "
  const STARGAZ_ERROR_SEPARATOR: string := ", "
  const REPO_USER_PREFIX: string := "user: "
  const REPO_NAME_PREFIX: string := ", name: "

  // ---------------------------------------------------------------- rendering

  /** `Display` of `Repo`. */
  function RepoToString(repo: Repo): (s: string)
    ensures |s| == |REPO_USER_PREFIX| + |repo.user| + |REPO_NAME_PREFIX| + |repo.name|
    ensures s[..|REPO_USER_PREFIX|] == REPO_USER_PREFIX
    ensures s[|REPO_USER_PREFIX|..|REPO_USER_PREFIX| + |repo.user|] == repo.user
    ensures s[|REPO_USER_PREFIX| + |repo.user|..] == REPO_NAME_PREFIX + repo.name
  {
    REPO_USER_PREFIX + repo.user + REPO_NAME_PREFIX + repo.name
  }

  /** `Display` of `RepoUrlError`: a fixed prefix followed by the URL unchanged. */
  function RepoUrlErrorToString(e: RepoUrlError): (s: string)
    ensures |s| == |REPO_URL_ERROR_PREFIX| + |e.url|
    ensures s[..|REPO_URL_ERROR_PREFIX|] == REPO_URL_ERROR_PREFIX
    ensures s[|REPO_URL_ERROR_PREFIX|..] == e.url
  {
    REPO_URL_ERROR_PREFIX + e.url
  }

  /** `Display` of `StargazError`: the prefix, the repository's rendering, ", ", then the client's message. */
  function StargazErrorToString(e: StargazError): (s: string)
    ensures |s| == |STARGAZ_ERROR_PREFIX| + |RepoToString(e.repo)| + |STARGAZ_ERROR_SEPARATOR| + |e.cause|
    ensures s[..|STARGAZ_ERROR_PREFIX|] == STARGAZ_ERROR_PREFIX
    ensures s[|STARGAZ_ERROR_PREFIX|..|STARGAZ_ERROR_PREFIX| + |RepoToString(e.repo)|] == RepoToString(e.repo)
    ensures s[|STARGAZ_ERROR_PREFIX| + |RepoToString(e.repo)|..|s| - |e.cause|] == STARGAZ_ERROR_SEPARATOR
    ensures s[|s| - |e.cause|..] == e.cause
  {
    STARGAZ_ERROR_PREFIX + RepoToString(e.repo) + STARGAZ_ERROR_SEPARATOR + e.cause
  }

  /** `Display` of `Error`: each variant renders as the error it wraps. */
  function ErrorToString(e: Error): (s: string)
    ensures e.RepoUrlErr? ==> s == RepoUrlErrorToString(e.repoUrlError)
    ensures e.StargazErr? ==> s == StargazErrorToString(e.stargazError)
    ensures e.HubCapsErr? ==> s == e.hubCapsMessage
    ensures e.StdIOErr? ==> s == e.ioMessage
  {
    match e
    case HubCapsErr(m) => m
    case StargazErr(se) => StargazErrorToString(se)
    case RepoUrlErr(ue) => RepoUrlErrorToString(ue)
    case StdIOErr(m) => m
  }

  /** The URL can be read back from the message of a location error, so different URLs give different messages. */
  lemma RepoUrlErrorToStringInjective(e1: RepoUrlError, e2: RepoUrlError)
    requires RepoUrlErrorToString(e1) == RepoUrlErrorToString(e2)
    ensures e1 == e2
  {
    assert e1.url == RepoUrlErrorToString(e1)[|REPO_URL_ERROR_PREFIX|..];
  }

  /**
   * When the user contains no comma, the rendering of a repository determines
   * both of its fields (the first comma after "user: " ends the user).
   */
  lemma RepoToStringInjective(r1: Repo, r2: Repo)
    requires ',' !in r1.user && ',' !in r2.user
    requires RepoToString(r1) == RepoToString(r2)
    ensures r1 == r2
  {
    var s := RepoToString(r1);
    var t := s[|REPO_USER_PREFIX|..];
    assert t == r1.user + (REPO_NAME_PREFIX + r1.name);
    assert t == r2.user + (REPO_NAME_PREFIX + r2.name);
    IndexOfAfter(r1.user, REPO_NAME_PREFIX + r1.name, ',');
    IndexOfAfter(r2.user, REPO_NAME_PREFIX + r2.name, ',');
    assert r1.user == t[..|r1.user|] == r2.user;
    assert r1.name == t[|r1.user| + |REPO_NAME_PREFIX|..] == r2.name;
  }

  // ---------------------------------------------------------------- locating

  /**
   * `repo_from_url`: split the URL on '/', skip the scheme, the empty piece of
   * "//" and the host, and read the user and the name from the next two
   * pieces; anything after them is ignored. With fewer than two pieces left
   * the error carries the URL unchanged.
   */
  function RepoFromUrl(url: string): (r: Result<Repo, Error>)
    ensures r.Ok? <==> |Split(url, '/')| >= 5
    ensures r.Ok? ==> r.value.user == Split(url, '/')[3] && r.value.name == Split(url, '/')[4]
    ensures r.Ok? ==> '/' !in r.value.user && '/' !in r.value.name
    ensures r.Err? ==> r.error == RepoUrlErr(RepoUrlError(url))
  {
    var parts := Skip(Split(url, '/'), 3);
    if |parts| >= 2 then
      Ok(Repo(parts[0], parts[1]))
    else
      Err(RepoUrlErr(RepoUrlError(url)))
  }

  /** A URL locates a repository exactly when it has at least four '/'. */
  lemma RepoFromUrlSucceedsIff(url: string)
    ensures RepoFromUrl(url).Ok? <==> Count(url, '/') >= 4
  {
    SplitLength(url, '/');
  }

  /** For a URL made of '/'-free pieces, the user and name are the fourth and fifth pieces, whatever follows. */
  lemma RepoFromUrlOfPieces(pieces: seq<string>)
    requires |pieces| >= 5
    requires forall i :: 0 <= i < |pieces| ==> '/' !in pieces[i]
    ensures RepoFromUrl(Join(pieces, '/')) == Ok(Repo(pieces[3], pieces[4]))
  {
    SplitJoin(pieces, '/');
  }

  /** For a URL made of fewer than five '/'-free pieces, locating fails with that URL. */
  lemma RepoFromUrlOfFewPieces(pieces: seq<string>)
    requires 1 <= |pieces| < 5
    requires forall i :: 0 <= i < |pieces| ==> '/' !in pieces[i]
    ensures RepoFromUrl(Join(pieces, '/')) == Err(RepoUrlErr(RepoUrlError(Join(pieces, '/'))))
  {
    SplitJoin(pieces, '/');
  }

  /** The canonical address of a repository on a host: "https://host/user/name". */
  function RepoHomeUrl(host: string, repo: Repo): (url: string)
    ensures url == Join(["https:", "", host, repo.user, repo.name], '/')
  {
    var pieces := ["https:", "", host, repo.user, repo.name];
    assert Join(pieces[4..], '/') == repo.name;
    assert Join(pieces[3..], '/') == repo.user + "/" + repo.name;
    assert Join(pieces[2..], '/') == host + "/" + repo.user + "/" + repo.name;
    assert Join(pieces[1..], '/') == "/" + host + "/" + repo.user + "/" + repo.name;
    "https://" + host + "/" + repo.user + "/" + repo.name
  }

  /** Locating inverts `RepoHomeUrl`, and any sub-path after the name is ignored. */
  lemma RepoFromUrlOfHomeUrl(host: string, repo: Repo, subPath: string)
    requires '/' !in host && '/' !in repo.user && '/' !in repo.name
    ensures RepoFromUrl(RepoHomeUrl(host, repo)) == Ok(repo)
    ensures RepoFromUrl(RepoHomeUrl(host, repo) + "/" + subPath) == Ok(repo)
  {
    var home := RepoHomeUrl(host, repo);
    var pieces := ["https:", "", host, repo.user, repo.name];
    SplitJoin(pieces, '/');
    SplitAround(home, subPath, '/');
    assert Split(home + "/" + subPath, '/') == pieces + Split(subPath, '/');
  }

  /** The example of the source's unit test. */
  lemma RepoFromUrlExample()
    ensures RepoFromUrl("https://github.com/papey/rustars") == Ok(Repo("papey", "rustars"))
  {
    ExampleHomeUrl();
    RepoFromUrlOfHomeUrl("github.com", Repo("papey", "rustars"), "");
  }

  lemma ExampleHomeUrl()
    ensures RepoHomeUrl("github.com", Repo("papey", "rustars")) == "https://github.com/papey/rustars"
  {
  }

  /** A profile URL without a repository name does not locate a repository. */
  lemma RepoFromUrlMissingName()
    ensures RepoFromUrl("https://github.com/papey") == Err(RepoUrlErr(RepoUrlError("https://github.com/papey")))
  {
    var pieces := ["https:", "", "github.com", "papey"];
    assert Join(pieces, '/') == "https://github.com/papey" by {
      assert pieces[1..][1..][1..] == ["papey"];
    }
    RepoFromUrlOfFewPieces(pieces);
  }

  /** An empty path piece is accepted as the user: nothing makes the fields non-empty. */
  lemma RepoFromUrlEmptyUser()
    ensures RepoFromUrl("https://github.com//x") == Ok(Repo("", "x"))
  {
    var pieces := ["https:", "", "github.com", "", "x"];
    assert Join(pieces, '/') == "https://github.com//x" by {
      assert pieces[1..][1..][1..][1..] == ["x"];
    }
    RepoFromUrlOfPieces(pieces);
  }

  // ---------------------------------------------------------------- the batch

  /** `urls.map(repo_from_url)`: one result per URL, in order. */
  function Locate(urls: seq<string>): (rs: seq<Result<Repo, Error>>)
    ensures |rs| == |urls|
    ensures forall i :: 0 <= i < |urls| ==> rs[i] == RepoFromUrl(urls[i])
  {
    seq(|urls|, i requires 0 <= i < |urls| => RepoFromUrl(urls[i]))
  }

  /** `partition(|r| r.is_ok())`: the successes and the failures, each in input order. */
  function Partition<T, E>(rs: seq<Result<T, E>>): (p: (seq<Result<T, E>>, seq<Result<T, E>>))
    ensures forall i :: 0 <= i < |p.0| ==> p.0[i].Ok?
    ensures forall i :: 0 <= i < |p.1| ==> p.1[i].Err?
    ensures |p.0| + |p.1| == |rs|
    decreases |rs|
  {
    if |rs| == 0 then ([], [])
    else
      var rest := Partition(rs[1..]);
      if rs[0].Ok? then ([rs[0]] + rest.0, rest.1) else (rest.0, [rs[0]] + rest.1)
  }

  /** The two parts merge back into the input: nothing is lost, duplicated or reordered. */
  lemma {:induction false} PartitionInterleaves<T, E>(rs: seq<Result<T, E>>)
    ensures Interleaves(rs, Partition(rs).0, Partition(rs).1)
    ensures multiset(rs) == multiset(Partition(rs).0) + multiset(Partition(rs).1)
    ensures IsSubsequence(Partition(rs).0, rs) && IsSubsequence(Partition(rs).1, rs)
    decreases |rs|
  {
    var p := Partition(rs);
    if |rs| > 0 {
      PartitionInterleaves(rs[1..]);
      var rest := Partition(rs[1..]);
      if rs[0].Ok? {
        assert p.0[1..] == rest.0;
      } else {
        assert p.1[1..] == rest.1;
      }
    }
    InterleavesMultiset(rs, p.0, p.1);
    InterleavesSubsequences(rs, p.0, p.1);
  }

  /** Any split of the input into successes and failures that merges back into it is the partition. */
  lemma {:induction false} PartitionUnique<T, E>(rs: seq<Result<T, E>>, oks: seq<Result<T, E>>, errs: seq<Result<T, E>>)
    requires forall i :: 0 <= i < |oks| ==> oks[i].Ok?
    requires forall i :: 0 <= i < |errs| ==> errs[i].Err?
    requires Interleaves(rs, oks, errs)
    ensures Partition(rs) == (oks, errs)
    decreases |rs|
  {
    if |rs| > 0 {
      if |oks| > 0 && oks[0] == rs[0] && Interleaves(rs[1..], oks[1..], errs) {
        PartitionUnique(rs[1..], oks[1..], errs);
        assert [oks[0]] + oks[1..] == oks;
      } else {
        assert errs[0] == rs[0];
        PartitionUnique(rs[1..], oks, errs[1..]);
        assert [errs[0]] + errs[1..] == errs;
      }
    }
  }

  /** Partitioning a concatenation partitions each half. */
  lemma {:induction false} PartitionAppend<T, E>(a: seq<Result<T, E>>, b: seq<Result<T, E>>)
    ensures Partition(a + b).0 == Partition(a).0 + Partition(b).0
    ensures Partition(a + b).1 == Partition(a).1 + Partition(b).1
    decreases |a|
  {
    if |a| == 0 {
      assert a + b == b;
    } else {
      assert (a + b)[1..] == a[1..] + b;
      PartitionAppend(a[1..], b);
    }
  }

  /** `errs.into_iter().map(Result::unwrap_err)` rendered for the error log: one line per failure, in order. */
  function ReportedErrors<T>(errs: seq<Result<T, Error>>): (lines: seq<string>)
    requires forall i :: 0 <= i < |errs| ==> errs[i].Err?
    ensures |lines| == |errs|
    ensures forall i :: 0 <= i < |errs| ==> lines[i] == ErrorToString(errs[i].error)
  {
    seq(|errs|, i requires 0 <= i < |errs| && errs[i].Err? => ErrorToString(errs[i].error))
  }

  /** `repos.into_iter().map(Result::unwrap)`: one star request per located repository, in order. */
  function StarAttempts<E>(repos: seq<Result<Repo, E>>): (attempts: seq<Repo>)
    requires forall i :: 0 <= i < |repos| ==> repos[i].Ok?
    ensures |attempts| == |repos|
    ensures forall i :: 0 <= i < |repos| ==> attempts[i] == repos[i].value
  {
    seq(|repos|, i requires 0 <= i < |repos| && repos[i].Ok? => repos[i].value)
  }

  /** What `star_repos` computes from its URLs before any star request: the requests, and the logged failures. */
  datatype StarBatch = StarBatch(attempts: seq<Repo>, reported: seq<string>)

  function StarPlan(urls: seq<string>): (b: StarBatch)
    ensures |b.attempts| + |b.reported| == |urls|
  {
    var p := Partition(Locate(urls));
    StarBatch(StarAttempts(p.0), ReportedErrors(p.1))
  }

  /**
   * Planning is done URL by URL: a URL that locates a repository appends one
   * request for it, one that does not appends one log line with its message.
   */
  lemma StarPlanAppend(urls: seq<string>, url: string)
    ensures RepoFromUrl(url).Ok? ==>
      StarPlan(urls + [url]) == StarBatch(StarPlan(urls).attempts + [RepoFromUrl(url).value], StarPlan(urls).reported)
    ensures RepoFromUrl(url).Err? ==>
      StarPlan(urls + [url]) == StarBatch(StarPlan(urls).attempts,
                                          StarPlan(urls).reported + [RepoUrlErrorToString(RepoUrlError(url))])
  {
    assert Locate(urls + [url]) == Locate(urls) + Locate([url]);
    PartitionAppend(Locate(urls), Locate([url]));
    var p := Partition(Locate(urls));
    var q := Partition(Locate([url]));
    assert Locate([url]) == [RepoFromUrl(url)];
    assert Partition<Repo, Error>([])  == ([], []);
    assert StarAttempts(p.0 + q.0) == StarAttempts(p.0) + StarAttempts(q.0);
    assert ReportedErrors(p.1 + q.1) == ReportedErrors(p.1) + ReportedErrors(q.1);
  }

  /** No de-duplication: a URL given twice yields two identical star requests. */
  lemma StarPlanDuplicates(url: string)
    requires RepoFromUrl(url).Ok?
    ensures StarPlan([url, url]).attempts == [RepoFromUrl(url).value, RepoFromUrl(url).value]
    ensures StarPlan([url, url]).reported == []
  {
    StarPlanAppend([], url);
    StarPlanAppend([url], url);
    assert [] + [url] == [url];
    assert [url] + [url] == [url, url];
    assert Locate([]) == [];
  }

  /**
   * One malformed and one well-formed URL: the malformed one is logged once
   * and gets no request, the well-formed one still gets its request.
   */
  lemma StarPlanIsolatesFailures(bad: string, good: string)
    requires RepoFromUrl(bad).Err? && RepoFromUrl(good).Ok?
    ensures StarPlan([bad, good]) ==
      StarBatch([RepoFromUrl(good).value], [RepoUrlErrorToString(RepoUrlError(bad))])
  {
    StarPlanAppend([], bad);
    StarPlanAppend([bad], good);
    assert Locate([]) == [];
    assert [] + [bad] == [bad];
    assert [bad] + [good] == [bad, good];
  }

  lemma MissingNameMessage()
    ensures RepoUrlErrorToString(RepoUrlError("https://github.com/papey")) ==
      "Can't get user and name from repository URL https://github.com/papey"
  {
  }

  /** The same, on the URLs of the source's own example. */
  lemma StarPlanExample()
    ensures StarPlan(["https://github.com/papey", "https://github.com/papey/rustars"]) ==
      StarBatch([Repo("papey", "rustars")],
                ["Can't get user and name from repository URL https://github.com/papey"])
  {
    RepoFromUrlMissingName();
    RepoFromUrlExample();
    MissingNameMessage();
    StarPlanIsolatesFailures("https://github.com/papey", "https://github.com/papey/rustars");
  }

  /** The requests are exactly the located repositories and the log lines exactly the failures, each in URL order. */
  lemma StarPlanAccountsForEveryUrl(urls: seq<string>)
    ensures Interleaves(Locate(urls), Partition(Locate(urls)).0, Partition(Locate(urls)).1)
    ensures forall i :: 0 <= i < |StarPlan(urls).attempts| ==>
      Ok(StarPlan(urls).attempts[i]) == Partition(Locate(urls)).0[i]
  {
    PartitionInterleaves(Locate(urls));
  }
}
