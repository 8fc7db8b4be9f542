# cargo-travis `cargo doc-upload`: the publish decision

This project models the decision-and-resolution step of the `cargo doc-upload`
command (`execute` in `src/bin/cargo-doc-upload.rs`). That step takes the parsed
command-line options and the Travis CI environment. It ends in exactly one of five
outcomes:

- print the version;
- skip a branch that is not allowed to publish;
- skip a pull-request build;
- panic because a required environment variable is missing;
- hand a fully resolved request to the documentation uploader. The request holds the
  commit message, the remote origin URL, the deploy branch, the remote path, the local
  documentation path and the clobber-index flag.

The whole model is one pure module, `DocUpload` in `doc_upload.dfy`:

- The process environment is an explicit `map<string, string>`.
- `Execute` returns the outcome together with the ordered list of environment variables
  it read. This makes the order of checks visible: `TRAVIS_BRANCH` is read after the
  version check, `TRAVIS_PULL_REQUEST` only once the branch is allowed, and `GH_TOKEN`
  (only without `--token`) and `TRAVIS_REPO_SLUG` only once the build is known not to be
  a pull request.
- `Resolve` is the outcome alone.
- `Finish` maps the outcome and the uploader's answer to how the process ends. The
  uploader is a function parameter.
- `ParseOrigin` reads a remote URL back into token and slug. It is the inverse partner
  of the URL format.

Facts about `execute` worth knowing:

- Order of checks: the branch check comes before the pull-request check. On a branch that
  is not allowed, a pull-request build is reported as a branch skip, not a pull-request skip.
- A build counts as "not a pull request" only when `TRAVIS_PULL_REQUEST` is exactly
  `"false"`. Any other value skips.
- An empty current branch gets no special treatment. It is allowed if `--branch ""`
  was given.
- `--deploy` has a docopt default of `gh-pages`, so in practice the option is never
  absent. `execute` still supplies the same default itself, and the model keeps that
  fallback as written.

## Model

| member | source | states |
|---|---|---|
| DocUpload.Execute | src/bin/cargo-doc-upload.rs:44-110 | The outcome is an upload exactly when all of these hold: `--version` is not set, `TRAVIS_BRANCH` is set and in the allowed list, `TRAVIS_PULL_REQUEST` is exactly "false", and `TRAVIS_REPO_SLUG` is set. A missing-variable outcome names an unset variable, never `GH_TOKEN`, and that variable is the last one read. Only the four known variables are ever read. |
| DocUpload.Contains | src/bin/cargo-doc-upload.rs:62 | The linear membership test over the branch list is true exactly when the branch is in the list. |
| DocUpload.AllowedBranches | src/bin/cargo-doc-upload.rs:55-59 | The allowed list is never empty. It is the `--branch` list when one was given. A branch is allowed exactly when it is in that list, or, with no `--branch`, when it is `master`. |
| DocUpload.VersionShortCircuit | src/bin/cargo-doc-upload.rs:50-53 | With `--version` the outcome is the version print, whatever the other options and the environment hold, and no variable is read. |
| DocUpload.BranchGate | src/bin/cargo-doc-upload.rs:61-65 | An unset `TRAVIS_BRANCH` is a missing-variable fault. A branch outside the allowed list is a branch skip. In both cases `TRAVIS_BRANCH` is the only variable read, so a missing later variable cannot cause a fault. |
| DocUpload.PullRequestGate | src/bin/cargo-doc-upload.rs:67-71 | On an allowed branch, an unset `TRAVIS_PULL_REQUEST` is a fault and any value other than "false" is a pull-request skip. Only the two variables are read. |
| DocUpload.SlugAndTokenReads | src/bin/cargo-doc-upload.rs:76-77 | Past both gates, an unset `TRAVIS_REPO_SLUG` is a fault. `GH_TOKEN` is read, before the slug, only when `--token` is absent. |
| DocUpload.DependsOnlyOnReads | src/bin/cargo-doc-upload.rs:50-84 | Two environments that agree on every variable the run read give the same outcome and the same reads. Variables that were not read cannot change the outcome, whether present or absent. |
| DocUpload.RemotePathResolution | src/bin/cargo-doc-upload.rs:73 | The uploaded remote path is `--path` when given, and otherwise the current `TRAVIS_BRANCH` value. |
| DocUpload.TokenPrecedence | src/bin/cargo-doc-upload.rs:76-84 | `--token` wins over `GH_TOKEN`. With a token the origin is `https://<token>@github.com/<slug>.git`. With neither, the origin is `git@github.com:<slug>.git`. |
| DocUpload.Origin | src/bin/cargo-doc-upload.rs:78-84 | The origin ends in ".git". It starts with "https://" when a token is given and with "git@github.com:" otherwise. |
| DocUpload.ParseOrigin | src/bin/cargo-doc-upload.rs:78-84 | Any token and slug read back from a URL rebuild exactly that URL. |
| DocUpload.OriginRoundTrip | src/bin/cargo-doc-upload.rs:78-84 | For a token without '@', the URL built from a token (or none) and a slug reads back as that same token (or none) and slug. |
| DocUpload.UploadOriginDesignatesRepository | src/bin/cargo-doc-upload.rs:76-84 | When the winning token has no '@', the uploaded origin reads back as that token (or none) and the `TRAVIS_REPO_SLUG` value. |
| DocUpload.RequestDefaults | src/bin/cargo-doc-upload.rs:86-97 | The message is "Automatic Travis documentation build" unless `--message` is given. The deploy branch is "gh-pages" unless `--deploy` is given. The clobber flag passes through unchanged. The local doc path is `target/<triple>/doc` with `--target`, and `target/doc` otherwise. |
| DocUpload.LocalDocPath | src/bin/cargo-doc-upload.rs:94-97 | The local path starts with "target" and ends with "doc". It has the triple as a middle component exactly when `--target` is given. |
| DocUpload.Finish | src/bin/cargo-doc-upload.rs:61-108 | The process panics with "$NAME not set: NotPresent" (the `Result::expect` message for an unset variable) exactly on a missing-variable outcome. It succeeds exactly when there is no fault and, for an eligible build, the uploader reports success. A CLI failure carries the uploader's own message and exit code, and only happens for an eligible build. |
| DocUpload.SkipsSucceed | src/bin/cargo-doc-upload.rs:50-71 | A version print, a branch skip and a pull-request skip all end in success, whatever the uploader would do. |

## Left out

- `main` (src/bin/cargo-doc-upload.rs:112-145) is not part of this model. It covers docopt parsing of the usage text, the Unicode check of the arguments, `Config::default`, logger start-up and `cargo::exit_with_error`: process plumbing over libraries whose code is not modelled. `Options` is taken as already parsed.
- The body of `cargo_travis::doc_upload` (git fetch, tree rebuild, commit and push) is not part of this model. Only the request handed to it is modelled, and its result is a function parameter of `Finish`.
- The `debug!`, `println!` and `eprintln!` output, including the SSH-fallback warning, is represented only by the outcome.
- Values that are not valid Unicode cannot be represented, because the environment is a map of strings. In the code such a value makes `env::var` fail. For the three required variables that is also an `expect` panic, but its message ends in `NotUnicode(..)` instead of `NotPresent`. For `GH_TOKEN`, `.ok()` turns it into "no token", which means the SSH fallback.
- DocUpload.LocalDocPath: the local documentation path is a plain list of components, and `Path::join` is not modelled. The model differs from Rust for any `--target` that is absolute (the join replaces the path), empty (Rust gives `target/doc`) or contains a separator (Rust splits it into several components). For those, `target.Some? <==> |r| == 3` holds of the model only.
- The unused `Config` argument of `execute` is not modelled.
- DocUpload.OriginRoundTrip: holds only for tokens without '@'. A token containing '@' makes the HTTPS URL ambiguous, and `ParseOrigin` then splits at the first '@'. Whatever it reads back still rebuilds the same URL.
- DocUpload.UploadOriginDesignatesRepository: holds only when the winning token (`--token`, else `GH_TOKEN`) has no '@', for the same ambiguity as `DocUpload.OriginRoundTrip`.
