/** The repository-name helper of the SWAN notebook spawner: from the options a
    user picked in the spawn form it derives the working-directory name under
    which a requested repository is checked out, `SWAN_projects/<short name>`,
    or the empty string when no repository was requested. */
module SwanSpawner {
  import opened Paths

  /** Folder, relative to the user's home, that holds every checked-out repository. */
  const ProjectFolder: string := "SWAN_projects"

  /** The only spawn option the helper looks at. */
  const RepositoryKey: string := "repository"

  const GitSuffix: string := ".git"

  /** Removes one trailing separator, if there is one. */
  function StripTrailingSlash(s: string): string {
    if EndsWith(s, [Separator]) then s[..|s| - 1] else s
  }

  /** Removes one trailing `.git`, if there is one. */
  function StripGitSuffix(s: string): string {
    if EndsWith(s, GitSuffix) then s[..|s| - |GitSuffix|] else s
  }

  /** The short name of a repository: its URL or SSH spec without one trailing
      separator and one `.git`, reduced to its last segment. Scheme, host,
      organisation and path depth are dropped, and so is an SSH `user@host:`
      prefix when a separator follows it; only `/` separates segments, so in
      `user@host:name` nothing is dropped. */
  function ShortName(url: string): (name: string)
    ensures IsSegment(name)
    ensures IsInfix(name, url)
  {
    var trimmed := StripGitSuffix(StripTrailingSlash(url));
    var name := LastSegment(trimmed);
    assert url[|trimmed| - |name|..|trimmed|] == name;
    name
  }

  /** `os.path.join(folder, name)` for a relative, separator-free `name` on a
      POSIX host. */
  function JoinFolder(folder: string, name: string): string {
    folder + [Separator] + name
  }

  /** `get_repo_name_from_options`: the empty string when no repository was
      requested, otherwise a path exactly one level below the project folder
      whose last component is the repository's short name. */
  function GetRepoNameFromOptions(options: map<string, string>): (path: string)
    ensures path == [] <==> RepositoryKey !in options
    ensures RepositoryKey in options ==>
              Segments(path) == [ProjectFolder, ShortName(options[RepositoryKey])]
  {
    if RepositoryKey in options then
      var name := ShortName(options[RepositoryKey]);
      JoinFolderSegments(ProjectFolder, name);
      JoinFolder(ProjectFolder, name)
    else
      ""
  }

  /** Joining two segments gives a path that splits back into exactly those two. */
  lemma JoinFolderSegments(folder: string, name: string)
    requires IsSegment(folder) && IsSegment(name)
    ensures Segments(JoinFolder(folder, name)) == [folder, name]
  {
    SegmentsThenSegment(folder, name);
    SegmentsOfSegment(folder);
    SegmentsOfSegment(name);
  }

  /** Only the `repository` entry matters: two option maps that agree on it
      resolve to the same path, whatever else they hold. */
  lemma OtherOptionsIgnored(options: map<string, string>, other: map<string, string>)
    requires RepositoryKey in options <==> RepositoryKey in other
    requires RepositoryKey in options ==> options[RepositoryKey] == other[RepositoryKey]
    ensures GetRepoNameFromOptions(options) == GetRepoNameFromOptions(other)
  {
  }

  /** Stripping undoes appending, and leaves alone what has nothing to strip. */
  lemma StripTrailingSlashInverse(s: string)
    ensures StripTrailingSlash(s + [Separator]) == s
    ensures !EndsWith(s, [Separator]) ==> StripTrailingSlash(s) == s
  {
    assert (s + [Separator])[..|s|] == s;
  }

  lemma StripGitSuffixInverse(s: string)
    ensures StripGitSuffix(s + GitSuffix) == s
    ensures !EndsWith(s, GitSuffix) ==> StripGitSuffix(s) == s
  {
    assert (s + GitSuffix)[..|s|] == s;
  }

  /** A non-empty last segment that does not end in `.git` cannot make the whole
      string end in `.git`, because the separator before it is in the way. */
  lemma {:induction false} NoGitSuffixAfterBoundary(prefix: string, name: string)
    requires AtSegmentBoundary(prefix)
    requires IsSegment(name) && name != []
    requires !EndsWith(name, GitSuffix)
    ensures !EndsWith(prefix + name, GitSuffix)
    ensures !EndsWith(prefix + name, [Separator])
  {
    var s := prefix + name;
    assert s[|s| - 1] == name[|name| - 1];
    if |name| >= |GitSuffix| {
      assert s[|s| - |GitSuffix|..] == name[|name| - |GitSuffix|..];
    } else if |s| >= |GitSuffix| {
      assert s[|s| - |GitSuffix|..][|GitSuffix| - 1 - |name|] == Separator;
    }
  }

  /** The core rule: whatever precedes the final separator (scheme, host,
      organisation, nested groups, an SSH `user@host:` part) is ignored, and a
      trailing `/`, `.git` or `.git/` does not change the short name. */
  lemma {:induction false} ShortNameOfRepositoryPath(prefix: string, name: string)
    requires AtSegmentBoundary(prefix)
    requires IsSegment(name) && name != []
    requires !EndsWith(name, GitSuffix)
    ensures ShortName(prefix + name) == name
    ensures ShortName(prefix + name + [Separator]) == name
    ensures ShortName(prefix + name + GitSuffix) == name
    ensures ShortName(prefix + name + GitSuffix + [Separator]) == name
  {
    var s := prefix + name;
    assert StripTrailingSlash(s) == s && StripGitSuffix(s) == s by {
      NoGitSuffixAfterBoundary(prefix, name);
    }
    assert LastSegment(s) == name by {
      LastSegmentUnique(prefix, name);
    }
    assert StripTrailingSlash(s + [Separator]) == s by {
      StripTrailingSlashInverse(s);
    }
    assert StripGitSuffix(s + GitSuffix) == s by {
      StripGitSuffixInverse(s);
    }
    assert StripTrailingSlash(s + GitSuffix) == s + GitSuffix by {
      assert (s + GitSuffix)[|s + GitSuffix| - 1] == 't';
    }
    assert StripTrailingSlash(s + GitSuffix + [Separator]) == s + GitSuffix by {
      StripTrailingSlashInverse(s + GitSuffix);
    }
  }

  /** A bare token, with no separator and no `.git`, is its own short name. */
  lemma BareTokenIsItsOwnShortName(token: string)
    requires IsSegment(token) && token != []
    requires !EndsWith(token, GitSuffix)
    ensures ShortName(token) == token
  {
    ShortNameOfRepositoryPath([], token);
    assert [] + token == token;
  }

  /** In an SSH-style spec `user@host:path/name.git` the `user@host:` part never
      reaches the short name. */
  lemma ScpStyleSpecShortName(userAtHost: string, path: string, name: string)
    requires IsSegment(name) && name != []
    requires !EndsWith(name, GitSuffix)
    ensures ShortName(userAtHost + ":" + path + [Separator] + name + GitSuffix) == name
  {
    ShortNameOfRepositoryPath(userAtHost + ":" + path + [Separator], name);
  }

  /** Adding one trailing `/` to a spec that has none does not change the result. */
  lemma TrailingSlashIgnored(url: string)
    requires !EndsWith(url, [Separator])
    ensures ShortName(url + [Separator]) == ShortName(url)
  {
    StripTrailingSlashInverse(url);
  }

  /** Adding `.git`, or `.git/`, to a spec that ends in neither `/` nor `.git`
      does not change the result. */
  lemma GitSuffixIgnored(url: string)
    requires !EndsWith(url, [Separator])
    requires !EndsWith(url, GitSuffix)
    ensures ShortName(url + GitSuffix) == ShortName(url)
    ensures ShortName(url + GitSuffix + [Separator]) == ShortName(url)
  {
    StripTrailingSlashInverse(url);
    StripGitSuffixInverse(url);
    StripTrailingSlashInverse(url + GitSuffix);
    assert !EndsWith(url + GitSuffix, [Separator]);
  }
}
