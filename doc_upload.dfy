/** The decision step of `cargo doc-upload`: from the parsed command-line
    options and the CI environment, decide whether to print the version, skip
    the branch, skip the pull request, stop on a missing variable, or hand a
    fully resolved request to the documentation uploader.

    The process environment is an explicit map; the uploader itself is a
    function parameter of `Finish`. */
module DocUpload {

  datatype Option<+T> = None | Some(value: T) {
    /** The value, or `default` when there is none (Rust's `unwrap_or_else`). */
    function GetOr(default: T): T {
      match this
      case Some(v) => v
      case None => default
    }
  }

  type Env = map<string, string>

  /** The parsed command-line flags. */
  datatype Options = Options(
    flagVersion: bool,
    flagBranch: seq<string>,
    flagToken: Option<string>,
    flagMessage: Option<string>,
    flagDeploy: Option<string>,
    flagPath: Option<string>,
    flagClobberIndex: bool,
    flagTarget: Option<string>)

  /** The arguments handed to the uploader, in the order it takes them. */
  datatype UploadRequest = UploadRequest(
    message: string,
    origin: string,
    ghPages: string,
    path: string,
    localDocPath: seq<string>,
    clobberIndex: bool)

  /** What one invocation decides to do. */
  datatype Outcome =
    | PrintVersion
    | SkipBranch(branch: string)
    | SkipPullRequest
    | MissingVar(name: string)
    | Upload(request: UploadRequest)

  /** An outcome together with the environment variables consulted, in order. */
  datatype Run = Run(outcome: Outcome, consulted: seq<string>)

  /** What the uploader reports back. */
  datatype UploadResult = UploadOk | UploadErr(message: string, code: int)

  /** How the process ends: success, a reported CLI error, or a panic. */
  datatype Termination = Success | CliFailure(message: string, code: int) | Panic(message: string)

  const TravisBranch := "TRAVIS_BRANCH"
  const TravisPullRequest := "TRAVIS_PULL_REQUEST"
  const GhToken := "GH_TOKEN"
  const TravisRepoSlug := "TRAVIS_REPO_SLUG"

  const DefaultBranch := "master"
  const DefaultMessage := "Automatic Travis documentation build"
  const DefaultDeploy := "gh-pages"

  const HttpsPrefix := "https://"
  const HttpsHost := "@github.com/"
  const SshPrefix := "git@github.com:"
  const GitSuffix := ".git"

  /** A variable of the environment, if set (`env::var(..).ok()`). */
  function Lookup(env: Env, name: string): Option<string> {
    if name in env then Some(env[name]) else None
  }

  /** Linear membership test over a list (`Vec::contains`). */
  function Contains(xs: seq<string>, x: string): (r: bool)
    ensures r <==> x in xs
  {
    if xs == [] then false
    else if xs[0] == x then true
    else
      assert xs == [xs[0]] + xs[1..];
      Contains(xs[1..], x)
  }

  /** The branches allowed to publish: the `--branch` list, or `master` alone. */
  function AllowedBranches(opts: Options): (r: seq<string>)
    ensures |r| > 0
    ensures opts.flagBranch != [] ==> r == opts.flagBranch
    ensures forall b :: b in r <==> (b in opts.flagBranch || (opts.flagBranch == [] && b == DefaultBranch))
  {
    if opts.flagBranch == [] then [DefaultBranch] else opts.flagBranch
  }

  /** The remote URL: HTTPS with the token embedded, or the SSH endpoint. */
  function Origin(token: Option<string>, slug: string): (r: string)
    ensures |r| > |GitSuffix| && r[|r| - |GitSuffix|..] == GitSuffix
    ensures token.Some? ==> |r| > |HttpsPrefix| && r[..|HttpsPrefix|] == HttpsPrefix
    ensures token.None? ==> |r| > |SshPrefix| && r[..|SshPrefix|] == SshPrefix
  {
    match token
    case Some(t) => HttpsPrefix + t + HttpsHost + slug + GitSuffix
    case None => SshPrefix + slug + GitSuffix
  }

  /** The local documentation directory as path components. */
  function LocalDocPath(target: Option<string>): (r: seq<string>)
    ensures |r| >= 2 && r[0] == "target" && r[|r| - 1] == "doc"
    ensures target.Some? <==> |r| == 3
    ensures target.Some? ==> r[1] == target.value
  {
    match target
    case Some(triple) => ["target", triple, "doc"]
    case None => ["target", "doc"]
  }

  /** Every variable `Execute` may consult, in the order it consults them. */
  const ReadOrder := [TravisBranch, TravisPullRequest, GhToken, TravisRepoSlug]

  /** True when an invocation with these inputs reaches the uploader. */
  predicate Eligible(opts: Options, env: Env) {
    && !opts.flagVersion
    && TravisBranch in env
    && env[TravisBranch] in AllowedBranches(opts)
    && TravisPullRequest in env
    && env[TravisPullRequest] == "false"
    && TravisRepoSlug in env
  }

  /** The decision-and-resolution step, with the environment variables it reads. */
  function Execute(opts: Options, env: Env): (r: Run)
    ensures r.outcome.Upload? <==> Eligible(opts, env)
    ensures r.outcome.MissingVar? ==>
      && |r.consulted| > 0
      && r.consulted[|r.consulted| - 1] == r.outcome.name
      && r.outcome.name !in env
      && r.outcome.name != GhToken
    ensures forall k :: k in r.consulted ==> k in ReadOrder
  {
    if opts.flagVersion then Run(PrintVersion, [])
    else
      var branches := AllowedBranches(opts);
      if TravisBranch !in env then Run(MissingVar(TravisBranch), [TravisBranch])
      else
        var branch := env[TravisBranch];
        if !Contains(branches, branch) then Run(SkipBranch(branch), [TravisBranch])
        else if TravisPullRequest !in env then
          Run(MissingVar(TravisPullRequest), [TravisBranch, TravisPullRequest])
        else if env[TravisPullRequest] != "false" then
          Run(SkipPullRequest, [TravisBranch, TravisPullRequest])
        else
          var path := opts.flagPath.GetOr(branch);
          var token := if opts.flagToken.Some? then opts.flagToken else Lookup(env, GhToken);
          var tokenRead := if opts.flagToken.Some? then [] else [GhToken];
          var consulted := [TravisBranch, TravisPullRequest] + tokenRead + [TravisRepoSlug];
          if TravisRepoSlug !in env then Run(MissingVar(TravisRepoSlug), consulted)
          else
            var origin := Origin(token, env[TravisRepoSlug]);
            var message := opts.flagMessage.GetOr(DefaultMessage);
            var ghPages := opts.flagDeploy.GetOr(DefaultDeploy);
            var localDocPath := LocalDocPath(opts.flagTarget);
            Run(Upload(UploadRequest(message, origin, ghPages, path, localDocPath, opts.flagClobberIndex)), consulted)
  }

  /** The outcome alone. */
  function Resolve(opts: Options, env: Env): Outcome {
    Execute(opts, env).outcome
  }

  /** How the process ends, given what the uploader does with a request. */
  function Finish(opts: Options, env: Env, upload: UploadRequest -> UploadResult): (t: Termination)
    ensures t.Panic? <==> Resolve(opts, env).MissingVar?
    ensures t.Panic? ==> t.message == "$" + Resolve(opts, env).name + " not set: NotPresent"
    ensures t.Success? <==> (!Resolve(opts, env).MissingVar? && (Eligible(opts, env) ==> upload(Resolve(opts, env).request).UploadOk?))
    ensures t.CliFailure? ==> Eligible(opts, env) && upload(Resolve(opts, env).request) == UploadErr(t.message, t.code)
  {
    match Resolve(opts, env)
    case PrintVersion => Success
    case SkipBranch(_) => Success
    case SkipPullRequest => Success
    case MissingVar(name) => Panic("$" + name + " not set: NotPresent")
    case Upload(req) =>
      match upload(req)
      case UploadOk => Success
      case UploadErr(message, code) => CliFailure(message, code)
  }

  // ---------------------------------------------------------------------
  // The order of checks.

  /** `--version` wins over everything and consults no variable. */
  lemma VersionShortCircuit(opts: Options, env: Env)
    requires opts.flagVersion
    ensures Execute(opts, env) == Run(PrintVersion, [])
  {
  }

  /** A missing `TRAVIS_BRANCH` stops the run; a branch outside the allowed list
      is skipped before any other variable is consulted. */
  lemma BranchGate(opts: Options, env: Env)
    requires !opts.flagVersion
    ensures TravisBranch !in env ==> Execute(opts, env) == Run(MissingVar(TravisBranch), [TravisBranch])
    ensures TravisBranch in env && env[TravisBranch] !in AllowedBranches(opts) ==>
      Execute(opts, env) == Run(SkipBranch(env[TravisBranch]), [TravisBranch])
  {
  }

  /** On an allowed branch, any pull-request value other than exactly "false"
      is skipped, and a missing one stops the run. */
  lemma PullRequestGate(opts: Options, env: Env)
    requires !opts.flagVersion
    requires TravisBranch in env && env[TravisBranch] in AllowedBranches(opts)
    ensures TravisPullRequest !in env ==>
      Execute(opts, env) == Run(MissingVar(TravisPullRequest), [TravisBranch, TravisPullRequest])
    ensures TravisPullRequest in env && env[TravisPullRequest] != "false" ==>
      Execute(opts, env) == Run(SkipPullRequest, [TravisBranch, TravisPullRequest])
  {
  }

  /** Past both gates, a missing slug stops the run; `GH_TOKEN` is consulted,
      before the slug, only when no `--token` was given. */
  lemma SlugAndTokenReads(opts: Options, env: Env)
    requires !opts.flagVersion
    requires TravisBranch in env && env[TravisBranch] in AllowedBranches(opts)
    requires TravisPullRequest in env && env[TravisPullRequest] == "false"
    ensures TravisRepoSlug !in env ==> Resolve(opts, env) == MissingVar(TravisRepoSlug)
    ensures Execute(opts, env).consulted ==
      if opts.flagToken.Some? then [TravisBranch, TravisPullRequest, TravisRepoSlug]
      else [TravisBranch, TravisPullRequest, GhToken, TravisRepoSlug]
  {
  }

  /** The outcome depends only on the variables the run consulted: a variable
      that was not read, present or absent, cannot change it. */
  lemma DependsOnlyOnReads(opts: Options, env: Env, env': Env)
    requires forall k :: k in Execute(opts, env).consulted ==> Lookup(env, k) == Lookup(env', k)
    ensures Execute(opts, env') == Execute(opts, env)
  {
    var consulted := Execute(opts, env).consulted;
    if !opts.flagVersion {
      assert TravisBranch in consulted;
      if TravisBranch in env && Contains(AllowedBranches(opts), env[TravisBranch]) {
        assert TravisPullRequest in consulted;
        if TravisPullRequest in env && env[TravisPullRequest] == "false" {
          assert TravisRepoSlug in consulted;
          if opts.flagToken.None? {
            assert GhToken in consulted;
          }
        }
      }
    }
  }

  // ---------------------------------------------------------------------
  // The resolved request.

  /** The remote path is `--path` when given, otherwise the current branch. */
  lemma RemotePathResolution(opts: Options, env: Env)
    requires Resolve(opts, env).Upload?
    ensures TravisBranch in env
    ensures Resolve(opts, env).request.path ==
      if opts.flagPath.Some? then opts.flagPath.value else env[TravisBranch]
  {
  }

  /** `--token` wins over `GH_TOKEN`; with a token the origin is the HTTPS URL
      embedding it, without one the SSH endpoint. */
  lemma TokenPrecedence(opts: Options, env: Env)
    requires Resolve(opts, env).Upload?
    ensures TravisRepoSlug in env
    ensures opts.flagToken.Some? ==>
      Resolve(opts, env).request.origin == HttpsPrefix + opts.flagToken.value + HttpsHost + env[TravisRepoSlug] + GitSuffix
    ensures opts.flagToken.None? && GhToken in env ==>
      Resolve(opts, env).request.origin == HttpsPrefix + env[GhToken] + HttpsHost + env[TravisRepoSlug] + GitSuffix
    ensures opts.flagToken.None? && GhToken !in env ==>
      Resolve(opts, env).request.origin == SshPrefix + env[TravisRepoSlug] + GitSuffix
  {
  }

  /** Message and deploy branch fall back to their defaults; the clobber flag
      and the local documentation path follow the options. */
  lemma RequestDefaults(opts: Options, env: Env)
    requires Resolve(opts, env).Upload?
    ensures Resolve(opts, env).request.message ==
      if opts.flagMessage.Some? then opts.flagMessage.value else DefaultMessage
    ensures Resolve(opts, env).request.ghPages ==
      if opts.flagDeploy.Some? then opts.flagDeploy.value else DefaultDeploy
    ensures Resolve(opts, env).request.clobberIndex == opts.flagClobberIndex
    ensures Resolve(opts, env).request.localDocPath ==
      if opts.flagTarget.Some? then ["target", opts.flagTarget.value, "doc"] else ["target", "doc"]
  {
  }

  /** Skips and `--version` end the process successfully, whatever the uploader
      would have done: an ineligible build is not a failure. */
  lemma SkipsSucceed(opts: Options, env: Env, upload: UploadRequest -> UploadResult)
    requires Resolve(opts, env).PrintVersion? || Resolve(opts, env).SkipBranch? || Resolve(opts, env).SkipPullRequest?
    ensures Finish(opts, env, upload) == Success
  {
  }

  // ---------------------------------------------------------------------
  // The remote URL can be read back.

  /** The authentication and repository a remote URL designates. */
  datatype Remote = Remote(token: Option<string>, slug: string)

  /** The first position of `c` in `s`, if any. */
  function IndexOf(s: string, c: char): (r: Option<nat>)
    ensures r.Some? ==> r.value < |s| && s[r.value] == c && c !in s[..r.value]
    ensures r.None? <==> c !in s
  {
    if s == [] then None
    else if s[0] == c then Some(0)
    else
      match IndexOf(s[1..], c)
      case None => None
      case Some(i) =>
        assert s[..i + 1] == [s[0]] + s[1..][..i];
        Some(i + 1)
  }

  /** The middle of `s` once `prefix` and `suffix` are taken off, if `s` has both. */
  function StripAffixes(s: string, prefix: string, suffix: string): (r: Option<string>)
    ensures r.Some? ==> s == prefix + r.value + suffix
  {
    if |s| >= |prefix| + |suffix| && s[..|prefix|] == prefix && s[|s| - |suffix|..] == suffix then
      var mid := s[|prefix|..|s| - |suffix|];
      assert s == s[..|prefix|] + mid + s[|s| - |suffix|..];
      Some(mid)
    else None
  }

  lemma StripAffixesOf(prefix: string, mid: string, suffix: string)
    ensures StripAffixes(prefix + mid + suffix, prefix, suffix) == Some(mid)
  {
    var s := prefix + mid + suffix;
    assert s[..|prefix|] == prefix;
    assert s[|s| - |suffix|..] == suffix;
    assert s[|prefix|..|s| - |suffix|] == mid;
  }

  /** A sequence is its prefix up to `k` followed by the rest. */
  lemma SplitAt(s: string, k: nat)
    requires k <= |s|
    ensures s == s[..k] + s[k..]
  {
  }

  /** Regrouping the five parts of a URL. */
  lemma Regroup(p: string, t: string, h: string, s: string, g: string, rest: string, o: string)
    requires o == p + rest
    requires rest == t + (h + s + g)
    ensures o == p + t + h + s + g
  {
  }

  /** Reads a remote URL of either form back into its token and slug; whatever
      it reads back rebuilds the same URL. */
  function ParseOrigin(o: string): (r: Option<Remote>)
    ensures r.Some? ==> o == Origin(r.value.token, r.value.slug)
  {
    if |o| >= |HttpsPrefix| && o[..|HttpsPrefix|] == HttpsPrefix then
      var rest := o[|HttpsPrefix|..];
      match IndexOf(rest, '@')
      case None => None
      case Some(i) =>
        match StripAffixes(rest[i..], HttpsHost, GitSuffix)
        case None => None
        case Some(slug) =>
          var token := rest[..i];
          SplitAt(o, |HttpsPrefix|);
          SplitAt(rest, i);
          Regroup(HttpsPrefix, token, HttpsHost, slug, GitSuffix, rest, o);
          Some(Remote(Some(token), slug))
    else
      match StripAffixes(o, SshPrefix, GitSuffix)
      case None => None
      case Some(slug) => Some(Remote(None, slug))
  }

  /** In `a + b`, where `b` starts with `c` and `a` lacks it, `c` is first found at `|a|`. */
  lemma {:induction false} IndexOfAfter(a: string, b: string, c: char)
    requires c !in a && |b| > 0 && b[0] == c
    ensures IndexOf(a + b, c) == Some(|a|)
  {
    if a != [] {
      assert (a + b)[1..] == a[1..] + b;
      IndexOfAfter(a[1..], b, c);
    }
  }

  /** The HTTPS URL for a token free of '@' reads back as that token and slug. */
  lemma HttpsOriginRoundTrip(t: string, slug: string)
    requires '@' !in t
    ensures ParseOrigin(HttpsPrefix + t + HttpsHost + slug + GitSuffix) == Some(Remote(Some(t), slug))
  {
    var host := HttpsHost + slug + GitSuffix;
    var rest := t + host;
    var o := HttpsPrefix + rest;
    assert HttpsPrefix + t + HttpsHost + slug + GitSuffix == o;
    assert o[..|HttpsPrefix|] == HttpsPrefix;
    assert o[|HttpsPrefix|..] == rest;
    IndexOfAfter(t, host, '@');
    assert rest[..|t|] == t && rest[|t|..] == host;
    StripAffixesOf(HttpsHost, slug, GitSuffix);
  }

  /** The SSH URL reads back as no token and the slug. */
  lemma SshOriginRoundTrip(slug: string)
    ensures ParseOrigin(SshPrefix + slug + GitSuffix) == Some(Remote(None, slug))
  {
    var o := SshPrefix + slug + GitSuffix;
    assert o[..|HttpsPrefix|] != HttpsPrefix by {
      assert o[0] == 'g';
    }
    StripAffixesOf(SshPrefix, slug, GitSuffix);
  }

  /** The URL built for a token and slug reads back as that token and slug,
      provided the token holds no '@' (which would make the URL ambiguous). */
  lemma OriginRoundTrip(token: Option<string>, slug: string)
    requires token.Some? ==> '@' !in token.value
    ensures ParseOrigin(Origin(token, slug)) == Some(Remote(token, slug))
  {
    match token
    case Some(t) => HttpsOriginRoundTrip(t, slug);
    case None => SshOriginRoundTrip(slug);
  }

  /** An uploaded request's origin designates exactly the resolved token and
      the repository slug from the environment. */
  lemma UploadOriginDesignatesRepository(opts: Options, env: Env)
    requires Resolve(opts, env).Upload?
    requires opts.flagToken.Some? ==> '@' !in opts.flagToken.value
    requires opts.flagToken.None? && GhToken in env ==> '@' !in env[GhToken]
    ensures TravisRepoSlug in env
    ensures ParseOrigin(Resolve(opts, env).request.origin) ==
      Some(Remote(if opts.flagToken.Some? then opts.flagToken else Lookup(env, GhToken), env[TravisRepoSlug]))
  {
    OriginRoundTrip(if opts.flagToken.Some? then opts.flagToken else Lookup(env, GhToken), env[TravisRepoSlug]);
  }
}
