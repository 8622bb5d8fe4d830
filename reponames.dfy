/**
 * The clone directory name of the GitHub downloader
 * (backend/github_downloader.py): the last path segment of the repository
 * URL, without `.git`, lower-cased.
 *
 * The source deletes every `.git` in the name, not only a trailing one, so
 * a repository such as `a.github.io` is cloned into `ahub.io`. The
 * functions marked "as written" model that code; the directory name the
 * rest of the model uses removes only the `.git` suffix.
 */
module RepoNames {
  import Text

  // ---------------------------------------------------------------------
  // As written

  /** `get_dirname(repo_name)` as written: `repo_name.lower().replace('.git', '')`. */
  function GetDirnameAsWritten(repoName: string): string {
    Text.RemoveAll(Text.Lower(repoName), ".git")
  }

  /** The repository name as written: `repo_url.split('/')[-1].replace('.git', '')`. */
  function RepoNameAsWritten(url: string): string {
    Text.RemoveAll(Text.AfterLast(url, '/'), ".git")
  }

  /** The directory `clone_github_repo` creates under the output directory, as written. */
  function CloneDirNameAsWritten(url: string): string {
    GetDirnameAsWritten(RepoNameAsWritten(url))
  }

  /**
   * As written, the name is a single path segment without upper-case
   * letters, no longer than the URL's last segment; a segment without
   * `.git` is only lower-cased.
   */
  lemma CloneDirNameAsWrittenShape(url: string)
    ensures '/' !in CloneDirNameAsWritten(url)
    ensures forall i :: 0 <= i < |CloneDirNameAsWritten(url)| ==> !Text.IsUpper(CloneDirNameAsWritten(url)[i])
    ensures |CloneDirNameAsWritten(url)| <= |Text.AfterLast(url, '/')|
  {
    var seg := Text.AfterLast(url, '/');
    Text.AfterLastShape(url, '/');
    Text.RemoveAllShape(seg, ".git");
    var name := RepoNameAsWritten(url);
    Text.RemoveAllShape(Text.Lower(name), ".git");
    var dir := CloneDirNameAsWritten(url);
    forall i | 0 <= i < |dir| ensures !Text.IsUpper(dir[i]) && dir[i] != '/' {
      assert dir[i] in Text.Lower(name);
      var j :| 0 <= j < |Text.Lower(name)| && Text.Lower(name)[j] == dir[i];
      assert name[j] in seg;
    }
  }

  /** A name without `.git` in it is only lower-cased. */
  lemma GetDirnameAsWrittenPlain(repoName: string)
    requires !Text.Contains(Text.Lower(repoName), ".git")
    ensures GetDirnameAsWritten(repoName) == Text.Lower(repoName)
  {
    Text.RemoveAllAbsent(Text.Lower(repoName), ".git");
  }

  /**
   * The `.git` in the middle of a GitHub Pages repository name is deleted
   * as well: `https://github.com/a/a.github.io` is cloned into `ahub.io`.
   */
  lemma GithubPagesNameMangled(url: string)
    requires url == "https://github.com/a/a.github.io"
    ensures RepoNameAsWritten(url) == "ahub.io"
    ensures CloneDirNameAsWritten(url) == "ahub.io"
  {
    GithubPagesSegment(url);
    DropsInnerGit("a.github.io");
    var name := "ahub.io";
    assert Text.Lower(name) == name;
    ContainsStep(name, ".git");
    ContainsStep(name[1..], ".git");
    ContainsStep(name[2..], ".git");
    ContainsStep(name[3..], ".git");
    assert name[4..] == ".io" && name[1..][1..] == name[2..] && name[2..][1..] == name[3..] && name[3..][1..] == name[4..];
    ContainsShort(".io", ".git");
    GetDirnameAsWrittenPlain(name);
  }

  /**
   * As written, an upper-case `.GIT` survives the name extraction, which
   * matches case, and is removed by `get_dirname` after lower-casing:
   * `https://x/Repo.GIT` is cloned into `repo`.
   */
  lemma UpperGitSuffixAsWritten(url: string)
    requires url == "https://x/Repo.GIT"
    ensures RepoNameAsWritten(url) == "Repo.GIT"
    ensures CloneDirNameAsWritten(url) == "repo"
  {
    var seg := "Repo.GIT";
    AfterLastOfPath("https://x", seg);
    assert "https://x" + "/" + seg == url;
    KeepsUpperGit(seg);
    Text.RemoveAllAbsent(seg, ".git");
    assert Text.Lower(seg) == "repo.git" by {
      assert Text.LowerChar('R') == 'r' && Text.LowerChar('G') == 'g';
      assert Text.LowerChar('I') == 'i' && Text.LowerChar('T') == 't';
    }
    DropsGitSuffix("repo.git");
  }

  /** Matching is case-sensitive: `Repo.GIT` holds no `.git`. */
  lemma KeepsUpperGit(seg: string)
    requires seg == "Repo.GIT"
    ensures !Text.Contains(seg, ".git")
  {
    var pat := ".git";
    assert seg[0] == 'R' && pat[0] == '.';
    ContainsStep(seg, pat);
    assert seg[1..] == "epo.GIT";
    ContainsStep("epo.GIT", pat);
    assert "epo.GIT"[1..] == "po.GIT";
    ContainsStep("po.GIT", pat);
    assert "po.GIT"[1..] == "o.GIT";
    ContainsStep("o.GIT", pat);
    assert "o.GIT"[1..] == ".GIT";
    assert !(pat <= ".GIT") by { assert ".GIT"[1] == 'G'; }
    ContainsStep(".GIT", pat);
    assert ".GIT"[1..] == "GIT";
    ContainsShort("GIT", pat);
  }

  /** `repo.git` loses its `.git`. */
  lemma DropsGitSuffix(low: string)
    requires low == "repo.git"
    ensures Text.RemoveAll(low, ".git") == "repo"
  {
    var pat := ".git";
    RemoveAllStep(low, pat);
    assert low[1..] == "epo.git";
    RemoveAllStep("epo.git", pat);
    assert "epo.git"[1..] == "po.git";
    RemoveAllStep("po.git", pat);
    assert "po.git"[1..] == "o.git";
    RemoveAllStep("o.git", pat);
    assert "o.git"[1..] == ".git";
    assert Text.RemoveAll(".git", pat) == "" by {
      assert pat <= ".git" && ".git"[4..] == "";
    }
  }

  lemma GithubPagesSegment(url: string)
    requires url == "https://github.com/a/a.github.io"
    ensures Text.AfterLast(url, '/') == "a.github.io"
  {
    AfterLastOfPath("https://github.com/a", "a.github.io");
    assert "https://github.com/a" + "/" + "a.github.io" == url;
  }

  lemma DropsInnerGit(seg: string)
    requires seg == "a.github.io"
    ensures Text.RemoveAll(seg, ".git") == "ahub.io"
  {
    var pat := ".git";
    RemoveAllStep(seg, pat);
    assert seg[1..] == ".github.io";
    assert Text.RemoveAll(".github.io", pat) == Text.RemoveAll("hub.io", pat) by {
      assert pat <= ".github.io";
      assert ".github.io"[4..] == "hub.io";
    }
    RemoveAllStep("hub.io", pat);
    assert "hub.io"[1..] == "ub.io";
    RemoveAllStep("ub.io", pat);
    assert "ub.io"[1..] == "b.io";
    RemoveAllStep("b.io", pat);
    assert "b.io"[1..] == ".io";
    assert Text.RemoveAll(".io", pat) == ".io";
  }

  /** The last segment of `dir + "/" + seg` is `seg` when `seg` holds no `/`. */
  lemma {:induction false} AfterLastOfPath(dir: string, seg: string)
    requires '/' !in seg
    ensures Text.AfterLast(dir + "/" + seg, '/') == seg
    decreases |seg|
  {
    if |seg| == 0 {
      assert dir + "/" + seg == dir + "/";
    } else {
      var p := seg[..|seg| - 1];
      AfterLastOfPath(dir, p);
      assert (dir + "/" + seg)[..|dir + "/" + seg| - 1] == dir + "/" + p;
      assert seg == p + [seg[|seg| - 1]];
    }
  }

  /** A character that does not start the pattern is kept and the scan moves on. */
  lemma RemoveAllStep(s: string, pat: string)
    requires |pat| > 0 && |s| >= |pat| && s[0] != pat[0]
    ensures Text.RemoveAll(s, pat) == [s[0]] + Text.RemoveAll(s[1..], pat)
  {
  }

  /** A position where the pattern does not start is passed over. */
  lemma ContainsStep(s: string, sub: string)
    requires |s| > 0 && !(sub <= s)
    ensures Text.Contains(s, sub) == Text.Contains(s[1..], sub)
  {
  }

  /** A string shorter than the pattern does not hold it. */
  lemma {:induction false} ContainsShort(s: string, sub: string)
    requires |s| < |sub|
    ensures !Text.Contains(s, sub)
    decreases |s|
  {
    if |s| > 0 {
      ContainsShort(s[1..], sub);
    }
  }

  // ---------------------------------------------------------------------
  // Corrected: only a trailing `.git` is removed

  /** `name` without a trailing `.git`. */
  function StripGitSuffix(name: string): string {
    if Text.EndsWith(name, ".git") then name[..|name| - 4] else name
  }

  /** `get_dirname(repo_name)`, removing only the suffix. */
  function GetDirname(repoName: string): string {
    StripGitSuffix(Text.Lower(repoName))
  }

  /** The repository name of a clone URL: its last segment without a trailing `.git`. */
  function RepoName(url: string): string {
    StripGitSuffix(Text.AfterLast(url, '/'))
  }

  /** The directory `clone_github_repo` creates under the output directory. */
  function CloneDirName(url: string): string {
    GetDirname(RepoName(url))
  }

  /** Only a trailing `.git` is removed: putting it back gives the name. */
  lemma StripGitSuffixMeaning(name: string)
    ensures Text.EndsWith(name, ".git") ==> StripGitSuffix(name) + ".git" == name
    ensures !Text.EndsWith(name, ".git") ==> StripGitSuffix(name) == name
  {
    if Text.EndsWith(name, ".git") {
      assert name == name[..|name| - 4] + name[|name| - 4..];
    }
  }

  /** What `StripGitSuffix` cuts off. */
  function GitTail(name: string): string {
    if Text.EndsWith(name, ".git") then ".git" else ""
  }

  /** The name is what is left with the cut-off tail put back. */
  lemma StripGitSuffixPrefix(name: string)
    ensures name == StripGitSuffix(name) + GitTail(name)
  {
    if Text.EndsWith(name, ".git") {
      assert name == name[..|name| - 4] + name[|name| - 4..];
    }
  }

  /** Lower-casing a string lower-cases each of its parts. */
  lemma LowerSplit(s: string, k: nat)
    requires k <= |s|
    ensures Text.Lower(s)[..k] == Text.Lower(s[..k])
    ensures Text.Lower(s)[k..] == Text.Lower(s[k..])
  {
  }

  /** The directory is a single path segment without upper-case letters. */
  lemma CloneDirNameShape(url: string)
    ensures '/' !in CloneDirName(url)
    ensures forall i :: 0 <= i < |CloneDirName(url)| ==> !Text.IsUpper(CloneDirName(url)[i])
  {
    var seg := Text.AfterLast(url, '/');
    Text.AfterLastShape(url, '/');
    var name := RepoName(url);
    StripGitSuffixPrefix(seg);
    var low := Text.Lower(name);
    var dir := CloneDirName(url);
    StripGitSuffixPrefix(low);
    forall i | 0 <= i < |dir| ensures dir[i] != '/' && !Text.IsUpper(dir[i]) {
      assert dir[i] == low[i] == Text.LowerChar(name[i]);
      assert name[i] == seg[i];
      assert seg[i] in seg;
    }
  }

  /**
   * The directory is the URL's last segment, lower-cased, with trailing
   * `.git` removed (once by the name extraction and once more, ignoring
   * case, by `get_dirname`); nothing else is removed, so a `.git` inside
   * the name is kept, and a segment that does not end in `.git` is only
   * lower-cased.
   */
  lemma CloneDirNameMeaning(url: string)
    ensures var seg, dir := Text.AfterLast(url, '/'), CloneDirName(url);
      && Text.Lower(seg) == dir + GitTail(Text.Lower(RepoName(url))) + GitTail(seg)
      && (!Text.EndsWith(Text.Lower(seg), ".git") ==> dir == Text.Lower(seg))
  {
    var seg := Text.AfterLast(url, '/');
    LowerKeepsGitTail(seg);
    StripGitSuffixPrefix(Text.Lower(RepoName(url)));
  }

  /** Lower-casing keeps a `.git` tail, which is already lower-case. */
  lemma LowerKeepsGitTail(seg: string)
    ensures Text.Lower(seg) == Text.Lower(StripGitSuffix(seg)) + GitTail(seg)
    ensures Text.EndsWith(seg, ".git") ==> Text.EndsWith(Text.Lower(seg), ".git")
  {
    var tail := GitTail(seg);
    StripGitSuffixPrefix(seg);
    LowerConcat(StripGitSuffix(seg), tail);
    if tail == ".git" {
      assert Text.Lower(tail) == tail by {
        assert Text.LowerChar('.') == '.' && Text.LowerChar('g') == 'g';
        assert Text.LowerChar('i') == 'i' && Text.LowerChar('t') == 't';
      }
      LowerSplit(seg, |seg| - 4);
    } else {
      assert Text.Lower(tail) == [];
    }
  }

  lemma LowerConcat(a: string, b: string)
    ensures Text.Lower(a + b) == Text.Lower(a) + Text.Lower(b)
  {
  }

  /**
   * The corrected name keeps the `.git` inside a GitHub Pages repository
   * name and still removes the clone suffix and the case.
   */
  lemma CloneDirNameExamples()
    ensures RepoName("https://github.com/a/a.github.io") == "a.github.io"
    ensures CloneDirName("https://x/Repo.git") == "repo"
  {
    GithubPagesSegment("https://github.com/a/a.github.io");
    AfterLastOfPath("https://x", "Repo.git");
    assert "https://x" + "/" + "Repo.git" == "https://x/Repo.git";
    assert Text.EndsWith("Repo.git", ".git");
    assert !Text.EndsWith("a.github.io", ".git") by {
      assert "a.github.io"[|"a.github.io"| - 4..] == "b.io";
    }
    assert Text.Lower("Repo") == "repo";
  }
}
