/**
 * The Web3 release digest (backend/generate_web3_releases.py): every
 * framework's release list is cut down to a summary record with a release
 * type, drafts are dropped, and the records of all frameworks are ordered
 * newest first.
 *
 * The release directory is given as a list of files, each with its stem
 * and its decoded content, or None for a file that could not be read or
 * decoded; writing the digest file is not modelled.
 */
module Releases {
  import opened Wrappers
  import opened Values
  import Text
  import Sorting

  datatype ReleaseType = Other | PreRelease | Security | Major | Minor | Patch {
    /** The label written into the digest. */
    function Label(): string {
      match this
      case Other => "other"
      case PreRelease => "pre-release"
      case Security => "security"
      case Major => "major"
      case Minor => "minor"
      case Patch => "patch"
    }
  }

  lemma LabelsDistinct(a: ReleaseType, b: ReleaseType)
    ensures a.Label() == b.Label() <==> a == b
  {
    if a != b {
      assert a.Label()[0] != b.Label()[0] || a.Label()[1] != b.Label()[1] || |a.Label()| != |b.Label()|;
    }
  }

  /** The first part of the version: `tag_name.lstrip('v').split('.')[0]`. */
  function VersionHead(tag: string): string {
    Text.BeforeFirst(Text.TrimStartChar(tag, 'v'), '.')
  }

  predicate PreReleaseTag(tag: string) {
    var t := Text.Lower(tag);
    Text.Contains(t, "alpha") || Text.Contains(t, "beta") || Text.Contains(t, "rc") || Text.Contains(t, "dev")
  }

  predicate SecurityNote(b: string) {
    Text.Contains(b, "security") || Text.Contains(b, "vulnerability") || Text.Contains(b, "fix")
  }

  predicate MajorNote(b: string) {
    Text.Contains(b, "breaking") || Text.Contains(b, "major")
  }

  predicate MinorNote(b: string) {
    Text.Contains(b, "feature") || Text.Contains(b, "minor")
  }

  /** The type read from the lower-cased release notes. */
  function NoteType(b: string): ReleaseType {
    if SecurityNote(b) then Security
    else if MajorNote(b) then Major
    else if MinorNote(b) then Minor
    else Patch
  }

  /**
   * `get_release_type(tag_name, body)`; None where `body.lower()` raises,
   * which needs a truthy body that is not a string.
   */
  function ClassifyRelease(tag: string, body: Json): Option<ReleaseType> {
    if !Text.IsDigits(VersionHead(tag)) then Some(Other)
    else if PreReleaseTag(tag) then Some(PreRelease)
    else if !Truthy(body) then Some(NoteType(""))
    else if body.JStr? then Some(NoteType(Text.Lower(body.s)))
    else None
  }

  /** The notes `get_release_type` reads: `body.lower() if body else ""`, for notes that can be read. */
  function NotesOf(body: Json): string {
    if Truthy(body) && body.JStr? then Text.Lower(body.s) else ""
  }

  /**
   * The release type in words: `other` when the version does not start
   * with digits, then `pre-release` for a tag naming one, then the first of
   * security, major and minor whose keywords the notes hold, then `patch`;
   * empty or missing notes give `patch`. Notes are read only when they are
   * needed, so a tag of the first two kinds never fails, and string or
   * falsy notes never fail.
   */
  lemma ClassifyReleaseMeaning(tag: string, body: Json)
    ensures ClassifyRelease(tag, body) == Some(Other) <==> !Text.IsDigits(VersionHead(tag))
    ensures ClassifyRelease(tag, body) == Some(PreRelease) <==> Text.IsDigits(VersionHead(tag)) && PreReleaseTag(tag)
    ensures ClassifyRelease(tag, body).None? <==>
      Text.IsDigits(VersionHead(tag)) && !PreReleaseTag(tag) && Truthy(body) && !body.JStr?
    ensures body.JStr? || !Truthy(body) ==> ClassifyRelease(tag, body).Some?
    ensures Text.IsDigits(VersionHead(tag)) && !PreReleaseTag(tag) && !Truthy(body) ==>
      ClassifyRelease(tag, body) == Some(Patch)
    ensures Text.IsDigits(VersionHead(tag)) && !PreReleaseTag(tag) && (body.JStr? || !Truthy(body)) ==>
      var notes := NotesOf(body);
      && (ClassifyRelease(tag, body) == Some(Security) <==> SecurityNote(notes))
      && (ClassifyRelease(tag, body) == Some(Major) <==> !SecurityNote(notes) && MajorNote(notes))
      && (ClassifyRelease(tag, body) == Some(Minor) <==> !SecurityNote(notes) && !MajorNote(notes) && MinorNote(notes))
      && (ClassifyRelease(tag, body) == Some(Patch) <==> !SecurityNote(notes) && !MajorNote(notes) && !MinorNote(notes))
  {
    if Text.IsDigits(VersionHead(tag)) && !PreReleaseTag(tag) && !Truthy(body) {
      assert !Text.Contains("", "security") && !Text.Contains("", "vulnerability") && !Text.Contains("", "fix");
      assert !Text.Contains("", "breaking") && !Text.Contains("", "major");
      assert !Text.Contains("", "feature") && !Text.Contains("", "minor");
      assert NoteType("") == Patch;
    }
  }

  /** The case of the release notes does not matter. */
  lemma ClassifyIgnoresNoteCase(tag: string, notes: string)
    ensures ClassifyRelease(tag, JStr(Text.Lower(notes))) == ClassifyRelease(tag, JStr(notes))
  {
    Text.LowerIdempotent(notes);
  }

  /** One digest record, the `release_info` dict. */
  datatype ReleaseInfo = ReleaseInfo(
    name: Json, author: Json, createdAt: Json, releaseUrl: Json, framework: string,
    releaseType: ReleaseType, tagName: string, body: Json, draft: Json, prerelease: Json)

  /** What the loop does with one release: skip it, keep its record, or stop the file. */
  datatype Step = Skip | Keep(info: ReleaseInfo) | Fail

  const BodyLimit: nat := 500

  /** `release.get("author", {}).get("login", "")`; None where the author is not a dict. */
  function AuthorLogin(m: map<string, Json>): Option<Json> {
    if "author" !in m then Some(JStr(""))
    else if m["author"].JObj? then Some(GetOr(m["author"].fields, "login", JStr("")))
    else None
  }

  /** `release.get("body", "")[:500] if release.get("body") else ""`; None where the slice raises. */
  function ShortBody(m: map<string, Json>): Option<Json> {
    var b := Get(m, "body");
    if !Truthy(b) then Some(JStr(""))
    else if b.JStr? then Some(JStr(Text.Take(b.s, BodyLimit)))
    else if b.JArr? then Some(JArr(Text.Take(b.items, BodyLimit)))
    else None
  }

  /** The per-release step of `process_release_files` for the framework `stem`. */
  function Transform(stem: string, release: Json): Step {
    if !release.JObj? then Fail
    else
      var m := release.fields;
      var tag := Get(m, "tag_name");
      if !Truthy(tag) then Skip
      else if !tag.JStr? then Fail
      else
        var author := AuthorLogin(m);
        var rtype := ClassifyRelease(tag.s, GetOr(m, "body", JStr("")));
        var body := ShortBody(m);
        if author.None? || rtype.None? || body.None? then Fail
        else
          var name := if Truthy(Get(m, "name")) then m["name"] else tag;
          var info := ReleaseInfo(name, author.value, GetOr(m, "created_at", JStr("")), GetOr(m, "html_url", JStr("")),
                                  stem, rtype.value, tag.s, body.value,
                                  GetOr(m, "draft", JBool(false)), GetOr(m, "prerelease", JBool(false)));
          if Truthy(info.draft) then Skip else Keep(info)
  }

  /**
   * A kept record belongs to the file's framework and is not a draft. Its
   * tag is the release's non-empty tag; its name is the release's `name`,
   * or the tag when the name is falsy; its notes are the first 500
   * characters (or entries) of the release's `body`, or "" when the body is
   * falsy; its type is the classification of the tag and the body; the
   * other fields are copied with their defaults.
   */
  lemma TransformKeep(stem: string, release: Json)
    requires Transform(stem, release).Keep?
    ensures release.JObj?
    ensures var r, m := Transform(stem, release).info, release.fields;
      var b := Get(m, "body");
      && r.framework == stem && |r.tagName| > 0
      && Get(m, "tag_name") == JStr(r.tagName)
      && Truthy(r.name)
      && (Truthy(Get(m, "name")) ==> r.name == Get(m, "name"))
      && (!Truthy(Get(m, "name")) ==> r.name == JStr(r.tagName))
      && ClassifyRelease(r.tagName, GetOr(m, "body", JStr(""))) == Some(r.releaseType)
      && !Truthy(r.draft) && r.draft == GetOr(m, "draft", JBool(false))
      && r.prerelease == GetOr(m, "prerelease", JBool(false))
      && r.createdAt == GetOr(m, "created_at", JStr("")) && r.releaseUrl == GetOr(m, "html_url", JStr(""))
      && AuthorLogin(m) == Some(r.author)
      && (!Truthy(b) ==> r.body == JStr(""))
      && (Truthy(b) && b.JStr? ==> r.body == JStr(b.s[..Min(|b.s|, BodyLimit)]))
      && (Truthy(b) && b.JArr? ==> r.body == JArr(b.items[..Min(|b.items|, BodyLimit)]))
      && (Truthy(b) ==> b.JStr? || b.JArr?)
  {
  }

  /** A release without a truthy tag is skipped, whatever else it holds. */
  lemma TransformSkipsUntagged(stem: string, m: map<string, Json>)
    requires !Truthy(Get(m, "tag_name"))
    ensures Transform(stem, JObj(m)) == Skip
  {
  }

  /**
   * The records one file contributes, and whether its loop stopped on a
   * release that raised; the records made before that release stay.
   */
  function ScanFile(stem: string, items: seq<Json>): (seq<ReleaseInfo>, bool)
    decreases |items|
  {
    if |items| == 0 then ([], false)
    else
      var (done, failed) := ScanFile(stem, items[..|items| - 1]);
      if failed then (done, true)
      else
        match Transform(stem, items[|items| - 1])
        case Fail => (done, true)
        case Skip => (done, false)
        case Keep(r) => (done + [r], false)
  }

  /** One release file, as read: its stem and its decoded content, or None when it cannot be read. */
  datatype ReleaseFile = ReleaseFile(stem: string, content: Option<Json>)

  /** The records a file contributes: none unless it holds a list. */
  function FileReleases(f: ReleaseFile): seq<ReleaseInfo> {
    if f.content.Some? && f.content.value.JArr? then ScanFile(f.stem, f.content.value.items).0 else []
  }

  /** The records of all files, in directory order. */
  function AllReleases(files: seq<ReleaseFile>): seq<ReleaseInfo>
    decreases |files|
  {
    if |files| == 0 then [] else AllReleases(files[..|files| - 1]) + FileReleases(files[|files| - 1])
  }

  predicate CreatedIsStr(r: ReleaseInfo) { r.createdAt.JStr? }

  /** `x.get("created_at", "")` */
  function CreatedKey(r: ReleaseInfo): string { StrOr(r.createdAt, "") }

  function Frameworks(rs: seq<ReleaseInfo>): set<string> {
    set i | 0 <= i < |rs| :: rs[i].framework
  }

  /** The digest written to `web3-releases.json`. */
  datatype Digest = Digest(totalReleases: nat, frameworks: set<string>, releases: seq<ReleaseInfo>)

  /** `process_release_files()`: the digest, or None where the sort raises and nothing is written. */
  function DigestOf(files: seq<ReleaseFile>): Option<Digest> {
    var all := AllReleases(files);
    if !Sorting.Comparable(all, CreatedIsStr) then None
    else
      var sorted := Sorting.SortDesc(all, CreatedKey);
      Some(Digest(|sorted|, Frameworks(sorted), sorted))
  }

  /** Every release a file contributes is the transform of one of its items. */
  lemma {:induction false} ScanFileSound(stem: string, items: seq<Json>)
    ensures forall r :: r in ScanFile(stem, items).0 ==> exists i :: 0 <= i < |items| && Transform(stem, items[i]) == Keep(r)
    decreases |items|
  {
    if |items| > 0 {
      var p := items[..|items| - 1];
      var last := items[|items| - 1];
      ScanFileSound(stem, p);
      forall r | r in ScanFile(stem, items).0 ensures exists i :: 0 <= i < |items| && Transform(stem, items[i]) == Keep(r) {
        if r in ScanFile(stem, p).0 {
          var i :| 0 <= i < |p| && Transform(stem, p[i]) == Keep(r);
          assert items[i] == p[i];
        } else {
          assert ScanFile(stem, items).0 == ScanFile(stem, p).0 + [Transform(stem, last).info];
          assert Transform(stem, last) == Keep(r);
        }
      }
    }
  }

  /** When no item fails, the file does not fail and every kept item's release is in it. */
  lemma {:induction false} ScanFileComplete(stem: string, items: seq<Json>)
    requires forall i :: 0 <= i < |items| ==> !Transform(stem, items[i]).Fail?
    ensures !ScanFile(stem, items).1
    ensures forall i :: 0 <= i < |items| && Transform(stem, items[i]).Keep? ==> Transform(stem, items[i]).info in ScanFile(stem, items).0
    decreases |items|
  {
    if |items| > 0 {
      var p := items[..|items| - 1];
      var last := items[|items| - 1];
      forall i | 0 <= i < |p| ensures !Transform(stem, p[i]).Fail? {
        assert p[i] == items[i];
      }
      ScanFileComplete(stem, p);
      var done := ScanFile(stem, p).0;
      assert ScanFile(stem, items).0 == done + (if Transform(stem, last).Keep? then [Transform(stem, last).info] else []);
      forall i | 0 <= i < |items| && Transform(stem, items[i]).Keep? ensures Transform(stem, items[i]).info in ScanFile(stem, items).0 {
        if i < |p| {
          assert p[i] == items[i];
          assert Transform(stem, p[i]).info in done;
        }
      }
    }
  }

  lemma {:induction false} AllReleasesMembers(files: seq<ReleaseFile>)
    ensures forall r :: r in AllReleases(files) ==>
      exists i :: 0 <= i < |files| && r in FileReleases(files[i])
    decreases |files|
  {
    if |files| > 0 {
      var p := files[..|files| - 1];
      AllReleasesMembers(p);
      forall r | r in AllReleases(files) ensures exists i :: 0 <= i < |files| && r in FileReleases(files[i]) {
        if r in AllReleases(p) {
          var i :| 0 <= i < |p| && r in FileReleases(p[i]);
          assert files[i] == p[i];
        }
      }
    }
  }

  /**
   * The digest lists every record the files contributed and nothing else,
   * newest first, records with the same date in directory order; its count
   * is the number of records and its frameworks are the frameworks of its
   * records. Every record is a kept, non-draft release of its framework's file.
   */
  lemma DigestContents(files: seq<ReleaseFile>)
    requires DigestOf(files).Some?
    ensures var d := DigestOf(files).value;
      && multiset(d.releases) == multiset(AllReleases(files))
      && Sorting.SortedDesc(d.releases, CreatedKey)
      && (forall k :: Sorting.WithKey(d.releases, CreatedKey, k) == Sorting.WithKey(AllReleases(files), CreatedKey, k))
      && d.totalReleases == |AllReleases(files)|
      && (forall fw :: fw in d.frameworks <==> exists r :: r in d.releases && r.framework == fw)
      && (forall r :: r in d.releases ==>
            (!Truthy(r.draft) && |r.tagName| > 0 &&
             exists i, j :: 0 <= i < |files| && files[i].content.Some? && files[i].content.value.JArr? &&
               0 <= j < |files[i].content.value.items| && files[i].stem == r.framework &&
               Transform(files[i].stem, files[i].content.value.items[j]) == Keep(r)))
  {
    var all := AllReleases(files);
    var d := DigestOf(files).value;
    Sorting.SortDescOrdered(all, CreatedKey);
    forall k ensures Sorting.WithKey(d.releases, CreatedKey, k) == Sorting.WithKey(all, CreatedKey, k) {
      Sorting.SortDescStable(all, CreatedKey, k);
    }
    forall fw ensures fw in d.frameworks <==> exists r :: r in d.releases && r.framework == fw {
      if fw in d.frameworks {
        var i :| 0 <= i < |d.releases| && d.releases[i].framework == fw;
        assert d.releases[i] in d.releases;
      }
      if exists r :: r in d.releases && r.framework == fw {
        var r :| r in d.releases && r.framework == fw;
        var i :| 0 <= i < |d.releases| && d.releases[i] == r;
        assert fw == d.releases[i].framework;
      }
    }
    AllReleasesMembers(files);
    forall r | r in d.releases
      ensures !Truthy(r.draft) && |r.tagName| > 0 &&
            exists i, j :: 0 <= i < |files| && files[i].content.Some? && files[i].content.value.JArr? &&
              0 <= j < |files[i].content.value.items| && files[i].stem == r.framework &&
              Transform(files[i].stem, files[i].content.value.items[j]) == Keep(r)
    {
      assert r in multiset(d.releases);
      assert r in all;
      var i :| 0 <= i < |files| && r in FileReleases(files[i]);
      var f := files[i];
      assert f.content.Some? && f.content.value.JArr?;
      ScanFileSound(f.stem, f.content.value.items);
      var j :| 0 <= j < |f.content.value.items| && Transform(f.stem, f.content.value.items[j]) == Keep(r);
      TransformKeep(f.stem, f.content.value.items[j]);
    }
  }

  /** The loop over one file's releases. */
  method ProcessFile(stem: string, items: seq<Json>, processed: seq<ReleaseInfo>) returns (processed': seq<ReleaseInfo>)
    ensures processed' == processed + ScanFile(stem, items).0
  {
    processed' := processed;
    var i := 0;
    while i < |items|
      invariant 0 <= i <= |items|
      invariant !ScanFile(stem, items[..i]).1
      invariant processed' == processed + ScanFile(stem, items[..i]).0
    {
      assert items[..i + 1][..i] == items[..i];
      var step := Transform(stem, items[i]);
      if step.Fail? {
        ScanFileStops(stem, items, i + 1);
        return;
      }
      if step.Keep? {
        processed' := processed' + [step.info];
      }
      i := i + 1;
    }
    assert items[..|items|] == items;
  }

  lemma {:induction false} ScanFileStops(stem: string, items: seq<Json>, n: nat)
    requires n <= |items| && ScanFile(stem, items[..n]).1
    ensures ScanFile(stem, items) == ScanFile(stem, items[..n])
    decreases |items| - n
  {
    if n < |items| {
      assert items[..n + 1][..n] == items[..n];
      ScanFileStops(stem, items, n + 1);
    } else {
      assert items[..n] == items;
    }
  }

  /** `process_release_files()` */
  method ProcessReleaseFiles(files: seq<ReleaseFile>) returns (digest: Option<Digest>)
    ensures digest == DigestOf(files)
  {
    var processed: seq<ReleaseInfo> := [];
    var i := 0;
    while i < |files|
      invariant 0 <= i <= |files|
      invariant processed == AllReleases(files[..i])
    {
      assert files[..i + 1][..i] == files[..i];
      var f := files[i];
      if f.content.Some? && f.content.value.JArr? {
        processed := ProcessFile(f.stem, f.content.value.items, processed);
      }
      i := i + 1;
    }
    assert files[..|files|] == files;
    if !Sorting.Comparable(processed, CreatedIsStr) {
      return None;
    }
    var sorted := Sorting.SortDesc(processed, CreatedKey);
    digest := Some(Digest(|sorted|, Frameworks(sorted), sorted));
  }
}
