# Repository working-directory name of the SWAN spawner

The SWAN notebook spawner lets a user ask, in the spawn form, for a git
repository to be checked out in the new session. The helper
`get_repo_name_from_options` turns the user's spawn options into the name of
the directory that repository goes to:

- no `repository` option: the empty string (nothing to check out);
- otherwise `SWAN_projects/<short name>`, where the short name is the
  repository URL or SSH spec with one trailing `/` removed, then one trailing
  `.git` removed, then cut down to what follows its last `/`. The scheme, the
  host, the organisation and the path depth never reach the short name, and
  neither does an SSH `user@host:` part when a `/` follows it
  (`git@host:group/name.git`). In a spec with no `/` after the colon
  (`git@host:name.git`) the model keeps `git@host:name` as the short name.

The implementation file `swanspawner/swanspawner.py` is not part of this
model; the behaviour is the one the unit tests in
`SwanSpawner/tests/test_swanspawner.py` assert, and the model is built from
those assertions.

Files:

- `paths.dfy`, module `Paths`: slash-separated strings. `Segments` is
  Python's `str.split('/')`, `JoinSegments` is `'/'.join`, and `LastSegment`
  is `split('/')[-1]`. Both round trips between split and join are proved, and
  the last segment is characterised without reference to the split.
- `swanspawner.dfy`, module `SwanSpawner`: the constants, the helper steps
  `StripTrailingSlash`, `StripGitSuffix`, `ShortName` and `JoinFolder`, the
  function `GetRepoNameFromOptions`, and the general properties.
- `test_swanspawner.dfy`, module `SwanSpawnerTests`: every assertion of the
  test class as a lemma, proved from the general properties.

`os.path.join(folder, name)` is modelled as `folder + "/" + name`. This is
what it returns on a POSIX host when `name` is relative. The short name never
contains `/`, so it is always relative.

## Model

| member | source | states |
|---|---|---|
| `SwanSpawner.GetRepoNameFromOptions` | SwanSpawner/tests/test_swanspawner.py:14-24 | The result is empty exactly when there is no `repository` key. Otherwise it splits into exactly two path components: the project folder and the short name of the repository value. |
| `SwanSpawner.OtherOptionsIgnored` | SwanSpawner/tests/test_swanspawner.py:14-24 | Two option maps that agree on `repository` (both lack it, or both map it to the same value) give the same result. |
| `SwanSpawner.ShortName` | SwanSpawner/tests/test_swanspawner.py:50-62 | The short name contains no `/` and is a contiguous piece of the repository value. |
| `SwanSpawner.ShortNameOfRepositoryPath` | SwanSpawner/tests/test_swanspawner.py:20-48 | Take any prefix that is empty or ends in `/`, and a non-empty name with no `/` that does not end in `.git`. The short name of prefix+name is the name, and so it is with a trailing `/`, with `.git` or with `.git/` added. Scheme, host and depth are irrelevant. |
| `SwanSpawner.TrailingSlashIgnored` | SwanSpawner/tests/test_swanspawner.py:26-30 | Adding one `/` to a value that does not already end in `/` leaves the short name unchanged. |
| `SwanSpawner.GitSuffixIgnored` | SwanSpawner/tests/test_swanspawner.py:32-36 | Take a value that ends in neither `/` nor `.git`. Adding `.git` or `.git/` to it leaves the short name unchanged. |
| `SwanSpawner.BareTokenIsItsOwnShortName` | SwanSpawner/tests/test_swanspawner.py:54 | A non-empty token with no `/` that does not end in `.git` is its own short name. |
| `SwanSpawner.ScpStyleSpecShortName` | SwanSpawner/tests/test_swanspawner.py:52 | In `user@host:path/name.git` the short name is `name`, whatever the `user@host` and the path. |
| `SwanSpawner.NoGitSuffixAfterBoundary` | SwanSpawner/tests/test_swanspawner.py:20-24 | A clean final name after a `/` (or at the start) leaves the whole value ending in neither `.git` nor `/`. So neither stripping step removes anything from it. |
| `SwanSpawner.StripTrailingSlashInverse` | SwanSpawner/tests/test_swanspawner.py:26-30 | Stripping the slash undoes appending one. A value without a trailing `/` is left as it is. |
| `SwanSpawner.StripGitSuffixInverse` | SwanSpawner/tests/test_swanspawner.py:32-36 | Stripping `.git` undoes appending it. A value without that suffix is left as it is. |
| `SwanSpawner.JoinFolderSegments` | SwanSpawner/tests/test_swanspawner.py:24 | Joining two `/`-free components gives a path that splits back into exactly those two. |
| `Paths.LastSegment` | SwanSpawner/tests/test_swanspawner.py:38-42 | The last segment has no `/`. It is a suffix of the input. What precedes it is empty or ends in `/`. |
| `Paths.LastSegmentUnique` | SwanSpawner/tests/test_swanspawner.py:38-42 | Write the input as a prefix that is empty or ends in `/`, followed by a `/`-free remainder. The last segment is always that remainder, however long the prefix is. |
| `Paths.SegmentsHaveNoSeparator` | SwanSpawner/tests/test_swanspawner.py:50-62 | No piece of `split('/')` contains `/`. |
| `Paths.JoinSegmentsOfSegments` | SwanSpawner/tests/test_swanspawner.py:50-62 | `'/'.join(s.split('/')) == s` for every string. |
| `Paths.SegmentsOfJoinSegments` | SwanSpawner/tests/test_swanspawner.py:50-62 | Splitting the join of `/`-free pieces gives back the pieces. |
| `Paths.SegmentsThenSegment` | SwanSpawner/tests/test_swanspawner.py:38-42 | Splitting `a + "/" + r`, with `r` free of `/`, gives the pieces of `a` followed by `r`. |
| `SwanSpawnerTests.NoRepositoryKey` | SwanSpawner/tests/test_swanspawner.py:14-18 | `{}` resolves to `""`. |
| `SwanSpawnerTests.GithubHttpsUrl` | SwanSpawner/tests/test_swanspawner.py:20-24 | `https://github.com/user/myproject` resolves to `SWAN_projects/myproject`. |
| `SwanSpawnerTests.UrlWithTrailingSlash` | SwanSpawner/tests/test_swanspawner.py:26-30 | `https://github.com/user/myproject/` resolves to `SWAN_projects/myproject`. |
| `SwanSpawnerTests.GithubHttpsUrlWithGitExtension` | SwanSpawner/tests/test_swanspawner.py:32-36 | `https://github.com/user/myproject.git` resolves to `SWAN_projects/myproject`. |
| `SwanSpawnerTests.NestedPathStructure` | SwanSpawner/tests/test_swanspawner.py:38-42 | `https://gitlab.com/org/team/group/myproject.git` resolves to `SWAN_projects/myproject`. |
| `SwanSpawnerTests.GithubHttpsUrlWithGitExtensionAndTrailingSlash` | SwanSpawner/tests/test_swanspawner.py:44-48 | `https://github.com/user/myproject.git/` resolves to `SWAN_projects/myproject`. |
| `SwanSpawnerTests.VariousUrlFormatsCernSwan` | SwanSpawner/tests/test_swanspawner.py:51 | `https://github.com/cern/swan.git` resolves to `SWAN_projects/swan`. |
| `SwanSpawnerTests.VariousUrlFormatsScpStyleAnalysis` | SwanSpawner/tests/test_swanspawner.py:52 | `git@gitlab.cern.ch:swan/analysis.git` resolves to `SWAN_projects/analysis`. |
| `SwanSpawnerTests.VariousUrlFormatsBitbucketDataScience` | SwanSpawner/tests/test_swanspawner.py:53 | `https://bitbucket.org/team/data-science/` resolves to `SWAN_projects/data-science`. |
| `SwanSpawnerTests.VariousUrlFormatsSimpleRepoName` | SwanSpawner/tests/test_swanspawner.py:54 | `simple-repo-name` resolves to `SWAN_projects/simple-repo-name`. |
| `SwanSpawnerTests.VariousUrlFormatsRepoGitTrailingSlash` | SwanSpawner/tests/test_swanspawner.py:55 | `https://github.com/user/repo.git/` resolves to `SWAN_projects/repo`. |

## Left out

- The implementation file `swanspawner/swanspawner.py` is not part of this model. The order of the steps comes from the tests. `.git/` must lose both its slash and its suffix, so the slash is stripped before `.git`. Whether the implementation strips `.git` before or after taking the last segment makes no difference to any tested input.
- Inputs the tests do not exercise are open choices. The source says nothing about them. The model gives each a definite result, because it strips exactly one `/`, then one `.git`, and splits only on `/`. These results are the model's choice, and the following contracts commit to them:
  - `SwanSpawner.GetRepoNameFromOptions`: an empty `repository` value gives `SWAN_projects/`. Its short name is `""`, and the path splits into the folder and `""`.
  - `SwanSpawner.ShortNameOfRepositoryPath`: with an empty prefix and a name that contains `:` but no `/`, the name comes back whole. For example, `git@github.com:repo.git` gives `git@github.com:repo`, so the `user@host:` part is kept when no `/` follows it.
  - `SwanSpawner.TrailingSlashIgnored`: the empty value, `a.git.git` and `name/.git` are all admitted. It ties `/` to `""`, `a.git.git/` to `a.git` (only one `.git` is stripped) and `name/.git/` to `""` (the last segment after stripping `.git` is empty).
  - `SwanSpawner.GitSuffixIgnored`: the empty value and `host:name` are admitted. It ties `.git` and `.git/` to `""`, and `host:name.git` to `host:name`.
  - Several trailing slashes lose only one, so `a//` gives an empty short name. No lemma states this case; it follows from the definition of `SwanSpawner.ShortName`.
- `os.path.join` on Windows, which would use `\`. The model uses the POSIX separator `/`.
- The pytest harness and its parametrisation. Each parametrised case is its own lemma instead.
- Every option key other than `repository`. The helper ignores them, as `SwanSpawner.OtherOptionsIgnored` states.
- The rest of the spawner: the spawner class, container and image selection, volumes and the orchestration backend. Its source is not part of this model, and it is I/O plumbing.
