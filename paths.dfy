/** The file names the loop uses (src/main.rs:91-93, 96, 110): the final path
    `videos/<createdAt>` with extension "mp4", the download path with
    extension "tmp", and the rename back to extension "mp4". A path is the
    sequence of its components; `set_extension` acts on the last one. */
module Paths {
  import opened Types

  /** The components are taken as Rust's `Path::components` yields them:
      no empty component and no "." after the first (a path that is just
      "." has no file name, as in Rust). `FileName` and
      `SetExtension` follow Rust only on such paths; `Videos` and every path
      `Join` builds from it are of this form. */
  datatype Path = Path(parts: seq<string>)

  const Videos: Path := Path(["videos"])

  /** `PathBuf::join` of a single relative component. Joining "" or "."
      leaves the components as they were (Rust's component view drops both). */
  function Join(dir: Path, name: string): (r: Path)
    ensures dir.parts <= r.parts
    ensures name !in {"", ".", ".."} ==> r.parts != [] && FileName(r) == Some(name) && Parent(r) == dir.parts
  {
    if name == "" || name == "." then dir else Path(dir.parts + [name])
  }

  /** Index of the last '.' of `s`, or -1. */
  function LastDot(s: string): (i: int)
    ensures -1 <= i < |s|
    ensures i >= 0 ==> s[i] == '.'
    ensures forall j :: i < j < |s| ==> s[j] != '.'
  {
    if s == [] then -1
    else if s[|s| - 1] == '.' then |s| - 1
    else LastDot(s[..|s| - 1])
  }

  /** The stem of a file name: everything before the last '.', unless that
      '.' is the first character (".bashrc" has no extension). */
  function FileStem(name: string): string {
    var i := LastDot(name);
    if name == ".." || i <= 0 then name else name[..i]
  }

  /** The extension of a file name: the text after the last '.', if any. */
  function Extension(name: string): Option<string> {
    var i := LastDot(name);
    if name == ".." || i <= 0 then None else Some(name[i + 1..])
  }

  /** `Path::file_name`: the last component, unless there is none or it is
      "." or "..". */
  function FileName(p: Path): Option<string> {
    if p.parts == [] || p.parts[|p.parts| - 1] in {"", ".", ".."} then None
    else Some(p.parts[|p.parts| - 1])
  }

  function Parent(p: Path): seq<string>
    requires p.parts != []
  {
    p.parts[..|p.parts| - 1]
  }

  /** An extension `set_extension` can later replace: non-empty, no '.'. */
  predicate SimpleExtension(ext: string) {
    ext != [] && '.' !in ext
  }

  /** `PathBuf::set_extension`: cut the file name after its stem and append
      "." and `ext` (nothing when `ext` is empty); no file name, no change. */
  function SetExtension(p: Path, ext: string): (r: Path)
    ensures FileName(p).None? ==> r == p
    ensures FileName(p).Some? && SimpleExtension(ext) ==>
      && r.parts != []
      && Parent(r) == Parent(p)
      && FileName(r).Some?
      && FileStem(FileName(r).value) == FileStem(FileName(p).value)
      && Extension(FileName(r).value) == Some(ext)
  {
    match FileName(p)
    case None => p
    case Some(name) =>
      var stem := FileStem(name);
      var renamed := if ext == [] then stem else stem + "." + ext;
      var r := Path(p.parts[..|p.parts| - 1] + [renamed]);
      if SimpleExtension(ext) then
        StemWithExtension(name, ext);
        r
      else r
  }

  /** Characterises LastDot by its three properties. */
  lemma LastDotIs(s: string, i: int)
    requires 0 <= i < |s| && s[i] == '.'
    requires forall j :: i < j < |s| ==> s[j] != '.'
    ensures LastDot(s) == i
  {
  }

  /** Appending a simple extension to the stem of a file name yields a name
      with that stem and that extension. */
  lemma StemWithExtension(name: string, ext: string)
    requires name !in {"", ".."} && SimpleExtension(ext)
    ensures var m := FileStem(name) + "." + ext;
      m !in {"", ".."} && FileStem(m) == FileStem(name) && Extension(m) == Some(ext)
  {
    var stem := FileStem(name);
    var m := stem + "." + ext;
    assert stem != [] by {
      var i := LastDot(name);
      if !(name == ".." || i <= 0) {
        assert |name[..i]| == i;
      }
    }
    assert m[|stem|] == '.';
    assert forall j :: |stem| < j < |m| ==> m[j] == ext[j - |stem| - 1];
    LastDotIs(m, |stem|);
    assert m[..|stem|] == stem;
    assert m[|stem| + 1..] == ext;
    assert m[|m| - 1] == ext[|ext| - 1];
  }

  /** Setting a simple extension and then another one is the same as setting
      only the second: the first leaves no trace. */
  lemma ReplaceExtension(p: Path, a: string, b: string)
    requires SimpleExtension(a)
    ensures SetExtension(SetExtension(p, a), b) == SetExtension(p, b)
  {
    var q := SetExtension(p, a);
    if FileName(p).Some? {
      assert q.parts[..|q.parts| - 1] == p.parts[..|p.parts| - 1];
    }
  }

  /** `videos/<createdAt>` with extension "mp4" (src/main.rs:91-93). */
  function FinalPath(createdAt: string): (r: Path)
    ensures createdAt != ".." ==> FileName(r).Some? && Extension(FileName(r).value) == Some("mp4")
    ensures createdAt !in {"", ".", ".."} ==> r.parts != [] && Parent(r) == Videos.parts
  {
    SetExtension(Join(Videos, createdAt), "mp4")
  }

  /** The download target: the final path with extension "tmp" (src/main.rs:96). */
  function TempPath(createdAt: string): (r: Path)
    ensures createdAt != ".." ==> FileName(r).Some? && Extension(FileName(r).value) == Some("tmp")
    ensures createdAt == ".." ==> r == FinalPath(createdAt)
  {
    var final := FinalPath(createdAt);
    assert SimpleExtension("tmp");
    assert createdAt == ".." ==> FileName(final).None? by {
      if createdAt == ".." {
        assert Join(Videos, createdAt).parts == ["videos", ".."];
      }
    }
    SetExtension(final, "tmp")
  }

  /** The rename of src/main.rs:110 lands exactly on the final path. */
  lemma RenameTargetIsFinalPath(createdAt: string)
    ensures SetExtension(TempPath(createdAt), "mp4") == FinalPath(createdAt)
  {
    var joined := Join(Videos, createdAt);
    var final := SetExtension(joined, "mp4");
    assert SimpleExtension("tmp") && SimpleExtension("mp4");
    ReplaceExtension(final, "tmp", "mp4");
    ReplaceExtension(joined, "mp4", "mp4");
  }

  /** The download path and the final path lie in the same directory, share
      their stem and differ only in the extension ("tmp" against "mp4"), so a
      partly written download never carries the final name. */
  lemma TempDiffersOnlyInExtension(createdAt: string)
    requires createdAt != ".."
    ensures FinalPath(createdAt).parts != [] && TempPath(createdAt).parts != []
    ensures Parent(TempPath(createdAt)) == Parent(FinalPath(createdAt))
    ensures FileName(FinalPath(createdAt)).Some? && FileName(TempPath(createdAt)).Some?
    ensures FileStem(FileName(TempPath(createdAt)).value) == FileStem(FileName(FinalPath(createdAt)).value)
    ensures Extension(FileName(FinalPath(createdAt)).value) == Some("mp4")
    ensures Extension(FileName(TempPath(createdAt)).value) == Some("tmp")
    ensures TempPath(createdAt) != FinalPath(createdAt)
  {
    var joined := Join(Videos, createdAt);
    assert FileName(joined).Some?;
    var final := SetExtension(joined, "mp4");
    assert SimpleExtension("mp4") && SimpleExtension("tmp");
    assert FileName(final).Some? && Extension(FileName(final).value) == Some("mp4");
    var tmp := SetExtension(final, "tmp");
    assert FileName(tmp).Some? && Extension(FileName(tmp).value) == Some("tmp");
  }

  /** The final path of a timestamp that is a proper file name. */
  lemma FinalPathParts(createdAt: string)
    requires createdAt !in {"", ".", ".."}
    ensures FinalPath(createdAt).parts == ["videos", FileStem(createdAt) + ".mp4"]
  {
    var joined := Join(Videos, createdAt);
    assert joined.parts == ["videos", createdAt];
    assert FileName(joined) == Some(createdAt);
    assert FileStem(createdAt) + "." + "mp4" == FileStem(createdAt) + ".mp4";
  }

  /** Distinct timestamps without a '.' get distinct final paths. */
  lemma FinalPathInjective(c1: string, c2: string)
    requires '.' !in c1 && '.' !in c2
    requires FinalPath(c1) == FinalPath(c2)
    ensures c1 == c2
  {
    if c1 != [] {
      assert LastDot(c1) == -1;
      FinalPathParts(c1);
    }
    if c2 != [] {
      assert LastDot(c2) == -1;
      FinalPathParts(c2);
    }
    if c1 != [] && c2 != [] {
      var n1 := c1 + ".mp4";
      var n2 := c2 + ".mp4";
      assert n1 == FinalPath(c1).parts[1] == FinalPath(c2).parts[1] == n2;
      assert |c1| == |c2|;
      assert c1 == n1[..|c1|] == n2[..|c2|] == c2;
    }
  }

  /** A stem, a '.' and a simple suffix: the suffix is the extension. */
  lemma FinalPathOfDotted(stem: string, z: string)
    requires stem != [] && SimpleExtension(z)
    ensures FinalPath(stem + "." + z).parts == ["videos", stem + ".mp4"]
  {
    var c := stem + "." + z;
    assert c[|stem|] == '.';
    assert forall j :: |stem| < j < |c| ==> c[j] == z[j - |stem| - 1];
    LastDotIs(c, |stem|);
    assert c[..|stem|] == stem;
    assert FileStem(c) == stem;
    assert |c| > 2;
    FinalPathParts(c);
  }

  /** `set_extension` replaces whatever follows the last '.' of `createdAt`:
      two timestamps that differ only there share one final path. */
  lemma FinalPathDropsLastDotSuffix(stem: string, x: string, y: string)
    requires stem != [] && SimpleExtension(x) && SimpleExtension(y)
    ensures FinalPath(stem + "." + x) == FinalPath(stem + "." + y)
    ensures FinalPath(stem + "." + x).parts == ["videos", stem + ".mp4"]
  {
    FinalPathOfDotted(stem, x);
    FinalPathOfDotted(stem, y);
  }
}
