/** The assertions of the unit tests of `get_repo_name_from_options`, one lemma
    per test function, each proved from the general rules of module SwanSpawner. */
module SwanSpawnerTests {
  import opened Paths
  import opened SwanSpawner

  /** The short name most of the cases expect. */
  const ExpectedRepoName: string := "myproject"

  /** The options the spawn form produces when only a repository was entered. */
  function RepositoryOption(url: string): map<string, string> {
    map[RepositoryKey := url]
  }

  /** `url` is a repository path `prefix + name` followed by nothing, `/`,
      `.git` or `.git/`; its short name is `name`. (Stated over variables so
      that the cases below need not evaluate the functions on their literals.) */
  lemma ShortNameIs(url: string, prefix: string, name: string)
    requires AtSegmentBoundary(prefix)
    requires IsSegment(name) && name != []
    requires !EndsWith(name, GitSuffix)
    requires || url == prefix + name
             || url == prefix + name + [Separator]
             || url == prefix + name + GitSuffix
             || url == prefix + name + GitSuffix + [Separator]
    ensures ShortName(url) == name
  {
    ShortNameOfRepositoryPath(prefix, name);
  }

  /** The resolved path of a single-entry option map is the short name joined
      below the project folder. */
  lemma ResolvesTo(url: string, name: string)
    requires ShortName(url) == name
    ensures GetRepoNameFromOptions(RepositoryOption(url)) == JoinFolder(ProjectFolder, name)
  {
  }

  lemma NoRepositoryKey()
    ensures GetRepoNameFromOptions(map[]) == ""
  {
  }

  lemma GithubHttpsUrl()
    ensures GetRepoNameFromOptions(RepositoryOption("https://github.com/user/myproject"))
            == JoinFolder(ProjectFolder, ExpectedRepoName)
  {
    var url := "https://github.com/user/myproject";
    ShortNameIs(url, "https://github.com/user/", ExpectedRepoName);
    ResolvesTo(url, ExpectedRepoName);
  }

  lemma UrlWithTrailingSlash()
    ensures GetRepoNameFromOptions(RepositoryOption("https://github.com/user/myproject/"))
            == JoinFolder(ProjectFolder, ExpectedRepoName)
  {
    var url := "https://github.com/user/myproject/";
    ShortNameIs(url, "https://github.com/user/", ExpectedRepoName);
    ResolvesTo(url, ExpectedRepoName);
  }

  lemma GithubHttpsUrlWithGitExtension()
    ensures GetRepoNameFromOptions(RepositoryOption("https://github.com/user/myproject.git"))
            == JoinFolder(ProjectFolder, ExpectedRepoName)
  {
    var url := "https://github.com/user/myproject.git";
    ShortNameIs(url, "https://github.com/user/", ExpectedRepoName);
    ResolvesTo(url, ExpectedRepoName);
  }

  lemma NestedPathStructure()
    ensures GetRepoNameFromOptions(RepositoryOption("https://gitlab.com/org/team/group/myproject.git"))
            == JoinFolder(ProjectFolder, ExpectedRepoName)
  {
    var url := "https://gitlab.com/org/team/group/myproject.git";
    ShortNameIs(url, "https://gitlab.com/org/team/group/", ExpectedRepoName);
    ResolvesTo(url, ExpectedRepoName);
  }

  lemma GithubHttpsUrlWithGitExtensionAndTrailingSlash()
    ensures GetRepoNameFromOptions(RepositoryOption("https://github.com/user/myproject.git/"))
            == JoinFolder(ProjectFolder, ExpectedRepoName)
  {
    var url := "https://github.com/user/myproject.git/";
    ShortNameIs(url, "https://github.com/user/", ExpectedRepoName);
    ResolvesTo(url, ExpectedRepoName);
  }

  /* The five cases of the parametrised test `test_various_url_formats`, one
     lemma each. */

  lemma VariousUrlFormatsCernSwan()
    ensures GetRepoNameFromOptions(RepositoryOption("https://github.com/cern/swan.git"))
            == JoinFolder(ProjectFolder, "swan")
  {
    var url := "https://github.com/cern/swan.git";
    ShortNameIs(url, "https://github.com/cern/", "swan");
    ResolvesTo(url, "swan");
  }

  lemma VariousUrlFormatsScpStyleAnalysis()
    ensures GetRepoNameFromOptions(RepositoryOption("git@gitlab.cern.ch:swan/analysis.git"))
            == JoinFolder(ProjectFolder, "analysis")
  {
    var url := "git@gitlab.cern.ch:swan/analysis.git";
    ShortNameIs(url, "git@gitlab.cern.ch:swan/", "analysis");
    ResolvesTo(url, "analysis");
  }

  lemma VariousUrlFormatsBitbucketDataScience()
    ensures GetRepoNameFromOptions(RepositoryOption("https://bitbucket.org/team/data-science/"))
            == JoinFolder(ProjectFolder, "data-science")
  {
    var url := "https://bitbucket.org/team/data-science/";
    ShortNameIs(url, "https://bitbucket.org/team/", "data-science");
    ResolvesTo(url, "data-science");
  }

  lemma VariousUrlFormatsSimpleRepoName()
    ensures GetRepoNameFromOptions(RepositoryOption("simple-repo-name"))
            == JoinFolder(ProjectFolder, "simple-repo-name")
  {
    var url := "simple-repo-name";
    ShortNameIs(url, "", "simple-repo-name");
    ResolvesTo(url, "simple-repo-name");
  }

  lemma VariousUrlFormatsRepoGitTrailingSlash()
    ensures GetRepoNameFromOptions(RepositoryOption("https://github.com/user/repo.git/"))
            == JoinFolder(ProjectFolder, "repo")
  {
    var url := "https://github.com/user/repo.git/";
    ShortNameIs(url, "https://github.com/user/", "repo");
    ResolvesTo(url, "repo");
  }
}
