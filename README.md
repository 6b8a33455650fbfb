# rustars: the pure data path, in Dafny

rustars is a command-line tool that reads a `Cargo.toml`, fetches each
dependency's metadata from crates.io, keeps the repository URLs that
point at GitHub, and stars each of those repositories through the GitHub
API. This project models the part of that pipeline that runs between the
network calls. That part is pure:

- **URL filter** (`App`, from `src/app.rs`). It maps crate records to their
  optional `repository` field. It keeps the present values that contain
  `https://github.com`.
- **Repository locator** (`Github.RepoFromUrl`, from `src/github.rs`). It
  splits a URL on `/` and skips three pieces (the scheme, the empty piece of
  `//`, the host). The next two pieces become `user` and `name`. If fewer
  than two pieces remain, the result is a `RepoUrlError` carrying the URL
  unchanged.
- **Batch planning** (`Github.StarPlan`). Every URL is located, and the
  results are partitioned into successes and failures. The failures become
  one log line each. The successes become one star request each, in order
  and without de-duplication.
- **Argument handling and error rendering**: `ok_or(NoneError { .. })?` for
  the `manifest` and `token` arguments, the order in which `run` reports
  failures, and the `Display` implementations of `Repo`, `RepoUrlError`,
  `StargazError`, `NoneError`, the manifest error and the two wrapper
  enums `github::Error` and `app::Error`.

Modules:

- `Results`: `Option` and `Result`.
- `Strings`: Rust's `split` with a one-character pattern, its inverse
  `Join`, and `contains`, each with lemmas that pin down what it does.
- `Seqs`: `skip`, plus the subsequence and interleaving relations used to
  say "in input order".
- `Github` and `App`: one module per source file.

The code does not make the fields of a `Repo` non-empty. Both fields are
free of `/` (`Github.RepoFromUrl`), but either may be empty:
`https://github.com//x` gives user `""` (`Github.RepoFromUrlEmptyUser`).

## Model

| member | source | states |
|---|---|---|
| `Strings.Split` | src/github.rs:171 | `split("/")` always gives at least one piece, and no piece contains the separator |
| `Strings.SplitLength` | src/github.rs:171 | the number of pieces is the number of separators plus one |
| `Strings.SplitNoSeparator` | src/github.rs:171 | a string without separators is a single piece |
| `Strings.SplitAround` | src/github.rs:171 | splitting `a + "/" + b` gives the pieces of `a` followed by the pieces of `b` |
| `Strings.JoinSplit` | src/github.rs:171 | joining the pieces with the separator gives back the original string |
| `Strings.SplitJoin` | src/github.rs:171 | splitting a join of separator-free pieces gives back those pieces |
| `Strings.ContainsIff` | src/app.rs:105 | `contains` holds exactly when the needle occurs at some index of the string |
| `Seqs.Skip` | src/github.rs:171 | `skip(3)` leaves the elements after the first three, or nothing when there are three or fewer |
| `Seqs.InterleavesMultiset` | src/github.rs:127-129 | when a sequence is a merge of two parts, its elements are exactly the parts' elements with multiplicity, and the lengths add up |
| `Seqs.InterleavesSubsequences` | src/github.rs:127-129 | each part of a merge keeps the merged sequence's order |
| `Github.RepoFromUrl` | src/github.rs:166-183 | success exactly when there are at least 5 `/`-pieces; user and name are pieces 3 and 4 and contain no `/`; the error is `RepoUrlErr` holding the input URL unchanged |
| `Github.RepoFromUrlSucceedsIff` | src/github.rs:171-174 | locating succeeds exactly when the URL contains at least four `/` |
| `Github.RepoFromUrlOfPieces` | src/github.rs:171-178 | on a URL of five or more `/`-free pieces, the result is pieces 3 and 4; further pieces do not affect it |
| `Github.RepoFromUrlOfFewPieces` | src/github.rs:173-182 | on a URL of fewer than five `/`-free pieces, the result is the error carrying that URL |
| `Github.RepoHomeUrl` | src/github.rs:167-169 | the canonical `https://host/user/name` address is the `/`-join of the five pieces the locator expects |
| `Github.RepoFromUrlOfHomeUrl` | src/github.rs:166-183 | locating inverts `RepoHomeUrl`, and appending any `/sub/path` does not change the result |
| `Github.RepoFromUrlExample` | src/github.rs:190-199 | `https://github.com/papey/rustars` gives user `papey` and name `rustars` |
| `Github.RepoFromUrlMissingName` | src/github.rs:173-182 | `https://github.com/papey` gives the error carrying that URL |
| `Github.RepoFromUrlEmptyUser` | src/github.rs:171-178 | `https://github.com//x` gives an empty user: the fields may be empty |
| `Github.RepoToString` | src/github.rs:103-106 | `Repo` renders as `user: ` followed by the user, then `, name: ` followed by the name |
| `Github.RepoToStringInjective` | src/github.rs:103-106 | when the users contain no comma, equal renderings come from equal repositories |
| `Github.RepoUrlErrorToString` | src/github.rs:21-28 | the message is the fixed prefix followed by the URL unchanged |
| `Github.RepoUrlErrorToStringInjective` | src/github.rs:21-28 | different URLs give different location error messages |
| `Github.MissingNameMessage` | src/github.rs:21-28 | the location error message for `https://github.com/papey` written out |
| `Github.StargazErrorToString` | src/github.rs:40-47 | a star failure renders as the fixed prefix, the repository's rendering, `, `, then the client's message, each at its position |
| `Github.ErrorToString` | src/github.rs:61-71 | each variant of the module error renders as the error it wraps |
| `Github.Locate` | src/github.rs:127-128 | one locator result per URL, at the same position |
| `Github.Partition` | src/github.rs:129 | the first part holds only `Ok`s, the second only `Err`s, and the two lengths add up to the input length |
| `Github.PartitionInterleaves` | src/github.rs:127-129 | the parts merge back into the input, so every result lands in exactly one part (as a multiset) and each part keeps input order |
| `Github.PartitionUnique` | src/github.rs:129 | any split into `Ok`s and `Err`s that merges back into the input equals the partition |
| `Github.PartitionAppend` | src/github.rs:129 | partitioning a concatenation concatenates the partitions of its halves |
| `Github.ReportedErrors` | src/github.rs:132-134 | one log line per failure, in order, each line being that error's rendering |
| `Github.StarAttempts` | src/github.rs:146-155 | one star request per located repository, at the same position, holding that repository |
| `Github.StarPlan` | src/github.rs:127-155 | requests plus log lines account for every URL |
| `Github.StarPlanAppend` | src/github.rs:127-155 | one more URL adds exactly one request (when it locates a repository) or exactly one log line with its message (when it does not) |
| `Github.StarPlanDuplicates` | src/github.rs:146-155 | a URL given twice yields two identical requests: there is no de-duplication |
| `Github.StarPlanIsolatesFailures` | src/github.rs:127-155 | with one malformed and one well-formed URL, the malformed one is logged once and gets no request, and the well-formed one still gets its request |
| `Github.StarPlanExample` | src/github.rs:127-155 | the same, for `https://github.com/papey` and `https://github.com/papey/rustars` |
| `Github.StarPlanAccountsForEveryUrl` | src/github.rs:127-155 | the located results merge with the failures into the locator's output, and the k-th request is the k-th located repository |
| `App.NoneErrorToString` | src/app.rs:18-26 | the message is `There is no value associated with `, then the argument name, then ` argument` |
| `App.NoneErrorToStringInjective` | src/app.rs:18-26 | different argument names give different messages |
| `App.ManifestErrorToString` | src/cargo/project.rs:16-21 | the manifest error renders with its path and then the parser's message |
| `App.ErrorToString` | src/app.rs:39-49 | each variant of the application error renders as the error it wraps |
| `App.ArgValue` | src/app.rs:86-88 | the argument's value when it has one; otherwise a `NoneError` naming that argument |
| `App.MissingArgumentMessage` | src/app.rs:112-115 | a missing argument fails, and its printed message names the argument |
| `App.MissingTokenMessage` | src/app.rs:112-115 | the message for a missing token written out |
| `App.PresentRepositories` | src/app.rs:102-104 | `filter_map` keeps at most one URL per crate record |
| `App.KeepGithub` | src/app.rs:105 | every kept URL contains `https://github.com` and comes from the input |
| `App.RepositoryUrls` | src/app.rs:102-105 | every output URL contains `https://github.com` |
| `App.RepositoryUrlsSingle` | src/app.rs:102-105 | a single dependency contributes its URL when present and matching, and nothing otherwise |
| `App.RepositoryUrlsAppend` | src/app.rs:102-105 | the filter of a concatenation is the concatenation of the filters |
| `App.KeepGithubAppend` | src/app.rs:105 | the substring filter of a concatenation is the concatenation of the filters |
| `App.AbsentRepositoryContributesNothing` | src/app.rs:104 | removing a dependency without a repository URL does not change the output |
| `App.PresentRepositoriesMembership` | src/app.rs:104 | a URL is present exactly when some dependency has it as its repository |
| `App.KeepGithubMembership` | src/app.rs:105 | a URL is kept exactly when it is in the input and contains `https://github.com`: nothing else is dropped |
| `App.RepositoryUrlsMembership` | src/app.rs:102-105 | a URL is output exactly when some dependency has it as its repository and it contains `https://github.com` |
| `App.KeepGithubIsSubsequence` | src/app.rs:105 | the kept URLs are a subsequence of the input |
| `App.RepositoryUrlsIsSubsequence` | src/app.rs:102-105 | the output is a subsequence of the present repository values, in input order |
| `App.KeepGithubKeepsMatching` | src/app.rs:105 | the filter returns a sequence unchanged when every URL in it matches |
| `App.RepositoryUrlsIdempotent` | src/app.rs:105 | applying the substring filter to the output again returns the same sequence |
| `App.Run` | src/app.rs:81-123 | a missing manifest fails first with `NoneError("manifest")`; then a manifest read failure fails as `CargoErr` with that error; then a metadata fetch failure fails as `CratesErr` with that message; then a missing token fails with `NoneError("token")`; otherwise the star step receives the token and the filtered URLs |
| `App.StarredReposComeFromDependencies` | src/app.rs:102-118 | every planned star request is the repository located from the GitHub URL of some dependency |

## Left out

- Network calls and the async runtime are not modelled. This covers the GitHub client (`Github::new`, `stars().star`), the crates.io client, the tokio runtimes and `try_join_all` (src/github.rs:119-124, 137-160; src/cargo/crates.rs:66-98). Their results depend on remote services and on completion timing. In particular, which failure `try_join_all` reports is not deterministic.
- `App.Run` does not read the manifest or fetch metadata itself. The caller passes those steps in as the functions `readManifest` and `fetchCrates`, which stand for `read_manifest_from_path` and `deps_from_crates_io`: TOML parsing is done by a library and the lookups are remote. A `Manifest` is reduced to the names in its three dependency tables. `Run` stops at the arguments it hands to `star_repos`, so the `GithubErr` outcome of that call is not modelled.
- The failure of `Github::new` happens before any URL is located (src/github.rs:119-122). This is not modelled, because building the client is foreign. `Github.StarPlan` describes the batch once the client exists.
- Collecting dependency names from the three dependency tables (src/cargo/crates.rs:68-91) is not modelled. Its output only feeds remote lookups.
- Logging (`info!`, `error!`, `debug!`) is not modelled beyond the list of error lines, `Github.ReportedErrors`. Log levels and output are side effects.
- The `Display` of `crates::Error` (src/cargo/crates.rs:23-33) is not modelled: every variant wraps a foreign error and renders as it, so `App.Error.CratesErr` carries that rendering as a plain string.
- Foreign errors are not modelled as types. The errors of hubcaps, reqwest, crates_io_api, cargo_toml and `std::io` are carried as their rendered messages. The `From` conversions only wrap them.
- src/main.rs (clap definitions, `env_logger`, `eprintln!`, exit code) is not part of this model.
- Strings are sequences of characters and not UTF-8 bytes. Splitting on `/` and searching for an ASCII substring give the same pieces either way.
