/** `Package.extract_metadata`: which `pkginfo` reader the downloaded
    artifact is handed to, decided by the suffix of its path. */
module Archive {
  import opened PyStrings
  import opened Outcomes

  /** The readers `extract_metadata` can pick, and the case it leaves open. */
  datatype ArchiveKind = SDist | Wheel | Unsupported

  /** What `extract_metadata` returns: a reader of the given kind opened on
      the downloaded file. The parsing itself belongs to `pkginfo`. */
  datatype Metadata = Metadata(reader: ArchiveKind, path: string)

  /** The ways constructing a `Package` fails: `package_versions[-1]` on an
      empty list raises `IndexError`, and a path with neither suffix leaves
      `dist` unassigned, so `dist(pkgpath)` raises `UnboundLocalError`. */
  datatype PackageError = IndexError | UnboundDist(path: string)

  /** The suffix test: `.tar.gz` gives the source-distribution reader,
      `.whl` the wheel reader, and anything else no reader. */
  function KindOf(path: string): (k: ArchiveKind)
    ensures k == SDist <==> EndsWith(path, ".tar.gz")
    ensures k == Wheel <==> EndsWith(path, ".whl")
    ensures k == Unsupported <==> !EndsWith(path, ".tar.gz") && !EndsWith(path, ".whl")
  {
    if EndsWith(path, ".tar.gz") then
      assert path[|path| - 1] == 'z';
      SDist
    else if EndsWith(path, ".whl") then Wheel
    else Unsupported
  }

  /** `os.path.join(dir, name)` on POSIX: an absolute `name` replaces `dir`;
      otherwise `name` follows `dir`, with a `/` between them unless `dir` is
      empty or already ends in one. Either way `name` ends the result and
      stands at its start or just after a `/`. */
  function JoinPath(dir: string, name: string): (r: string)
    ensures |name| <= |r| && r[|r| - |name|..] == name
    ensures |r| == |name| || r[|r| - |name| - 1] == '/'
    ensures name != [] && name[0] == '/' ==> r == name
  {
    var p := if name != [] && name[0] == '/' then ""
      else if dir == [] || dir[|dir| - 1] == '/' then dir
      else dir + "/";
    assert (p + name)[|p|..] == name;
    p + name
  }

  /** The suffix test on the joined path gives the same answer as on the
      file name alone, whatever the temporary directory is called. */
  lemma KindOfJoin(dir: string, name: string)
    ensures KindOf(JoinPath(dir, name)) == KindOf(name)
  {
    var r := JoinPath(dir, name);
    var p := r[..|r| - |name|];
    assert r == p + name;
    EndsWithAfterSlash(p, name, ".tar.gz");
    EndsWithAfterSlash(p, name, ".whl");
  }

  /** `extract_metadata(filename, url)` once the artifact has been written to
      `tmpdir`: the reader for the suffix of the joined path, or the error
      the unassigned `dist` raises. */
  function ExtractMetadata(filename: string, tmpdir: string): (r: Result<Metadata, PackageError>)
    ensures r.Ok? <==> EndsWith(filename, ".tar.gz") || EndsWith(filename, ".whl")
    ensures r.Ok? ==> r.value == Metadata(KindOf(filename), JoinPath(tmpdir, filename))
    ensures r.Err? ==> r.error == UnboundDist(JoinPath(tmpdir, filename))
  {
    var path := JoinPath(tmpdir, filename);
    KindOfJoin(tmpdir, filename);
    match KindOf(path)
    case Unsupported => Err(UnboundDist(path))
    case k => Ok(Metadata(k, path))
  }

  /** The three cases on concrete artifact names. */
  lemma DispatchExamples(tmpdir: string)
    ensures ExtractMetadata("pkg-1.0.tar.gz", tmpdir).Ok?
    ensures ExtractMetadata("pkg-1.0.tar.gz", tmpdir).value.reader == SDist
    ensures ExtractMetadata("pkg-1.0-py3-none-any.whl", tmpdir).value.reader == Wheel
    ensures ExtractMetadata("pkg-1.0.zip", tmpdir).Err?
  {
    assert "pkg-1.0.tar.gz"[7..] == ".tar.gz";
    assert "pkg-1.0-py3-none-any.whl"[20..] == ".whl";
    assert "pkg-1.0.zip"[4..] != ".tar.gz";
    assert "pkg-1.0.zip"[7..] != ".whl";
  }
}

/** `Package`: resolves the latest artifact of one package and the reader for
    its metadata. */
module Packages {
  import opened Outcomes
  import opened Links
  import opened StrOrder
  import opened VersionSort
  import opened Archive
  import opened PyStrings

  /** `package_versions[-1]` after the sort; `None` where Python raises
      `IndexError` on an empty list. */
  function Latest(versions: seq<Link>): (r: Option<Link>)
    ensures r.None? <==> versions == []
  {
    if versions == [] then None else Some(SortByText(versions)[|versions| - 1])
  }

  /** The latest version is one of the fetched links. */
  lemma LatestIsFetched(versions: seq<Link>)
    requires versions != []
    ensures Latest(versions).value in versions
  {
    var t := SortByText(versions);
    SortByTextPermutes(versions);
    assert t[|t| - 1] in multiset(t);
  }

  /** Its file name is at least every fetched file name, as text. */
  lemma LatestIsGreatest(versions: seq<Link>, k: nat)
    requires k < |versions|
    ensures Le(versions[k].text, Latest(versions).value.text)
  {
    var t := SortByText(versions);
    SortByTextPermutes(versions);
    SortByTextSorted(versions);
    assert versions[k] in multiset(t);
    var i :| 0 <= i < |t| && t[i] == versions[k];
    if i == |t| - 1 {
      LeReflexive(versions[k].text);
    }
  }

  /** Among fetched links sharing the greatest file name, the latest version
      is the one fetched last. */
  lemma LatestIsLastOfTies(versions: seq<Link>) returns (k: nat)
    requires versions != []
    ensures k < |versions| && versions[k] == Latest(versions).value
    ensures forall j :: k < j < |versions| ==> versions[j].text != versions[k].text
  {
    var t := SortByText(versions);
    var g := t[|t| - 1].text;
    assert WithText(t, g) == WithText(t[..|t| - 1], g) + [t[|t| - 1]];
    SortByTextStable(versions, g);
    k := LastOfRun(versions, g);
  }

  /** Version numbers are compared as text, so 1.9 beats 1.10. */
  lemma TextualLatest(u1: string, u2: string)
    ensures Latest([Link("pkg-1.9.tar.gz", u1), Link("pkg-1.10.tar.gz", u2)])
         == Some(Link("pkg-1.9.tar.gz", u1))
  {
    var vs := [Link("pkg-1.9.tar.gz", u1), Link("pkg-1.10.tar.gz", u2)];
    LatestIsFetched(vs);
    LatestIsGreatest(vs, 0);
    TextualNotSemantic();
  }

  /** The `package_versions` attribute: the list `get_links` returned, held
      in a fresh array and sorted in place by file name, as
      `list.sort(key=lambda x: x[0])` does. */
  method SortedCopy(fetched: seq<Link>) returns (a: array<Link>)
    ensures fresh(a) && a[..] == SortByText(fetched)
  {
    a := new Link[|fetched|](k requires 0 <= k < |fetched| => fetched[k]);
    assert a[..] == fetched;
    SortInPlace(a);
  }

  /** A package resolved against an index: its fetched version links in
      sorted order, the latest of them, and the reader chosen for it. */
  class Package {
    const name: string
    const repoUrl: string
    const packageVersions: array<Link>
    const latestVersion: Link
    const metadata: Metadata

    constructor (name: string, repoUrl: string, packageVersions: array<Link>,
                 latestVersion: Link, metadata: Metadata)
      ensures this.name == name && this.repoUrl == repoUrl
      ensures this.packageVersions == packageVersions
      ensures this.latestVersion == latestVersion && this.metadata == metadata
    {
      this.name := name;
      this.repoUrl := repoUrl;
      this.packageVersions := packageVersions;
      this.latestVersion := latestVersion;
      this.metadata := metadata;
    }

    /** `Package(name, repo_url)`. `fetched` stands for what
        `get_links(repo_url + name)` returns and `tmpdir` for the temporary
        directory the artifact is downloaded into; a Python exception is an
        `Err`. */
    static method Create(name: string, repoUrl: string, fetched: seq<Link>, tmpdir: string)
      returns (r: Result<Package, PackageError>)
      ensures fetched == [] ==> r == Err(IndexError)
      ensures fetched != [] ==>
        var latest := Latest(fetched).value;
        && (r.Ok? <==> EndsWith(latest.text, ".tar.gz") || EndsWith(latest.text, ".whl"))
        && (r.Err? ==> r.error == UnboundDist(JoinPath(tmpdir, latest.text)))
      ensures r.Ok? ==>
        && fresh(r.value) && fresh(r.value.packageVersions)
        && r.value.name == name && r.value.repoUrl == repoUrl
        && r.value.packageVersions[..] == SortByText(fetched)
        && Some(r.value.latestVersion) == Latest(fetched)
        && r.value.metadata == Metadata(KindOf(r.value.latestVersion.text),
                                        JoinPath(tmpdir, r.value.latestVersion.text))
    {
      var versions := SortedCopy(fetched);
      if versions.Length == 0 {
        return Err(IndexError);
      }
      var latest := versions[versions.Length - 1];
      var md := ExtractMetadata(latest.text, tmpdir);
      if md.Err? {
        return Err(md.error);
      }
      var p := new Package(name, repoUrl, versions, latest, md.value);
      return Ok(p);
    }
  }
}
