/**
  The part of Rust's `std::path::Path` that `read_certs_key` relies on
  (src/quic/common.rs:27): `file_name` and `extension`, for Unix paths, where
  `/` is the only separator.
 */
module RustPath {
  import opened Types

  const Separator: char := '/'
  const Dot: char := '.'

  /** The index of the last `c` in `s`, or -1 when there is none. */
  function LastIndexOf(s: string, c: char): (k: int)
    ensures -1 <= k < |s|
    ensures k >= 0 ==> s[k] == c
    ensures forall j :: k < j < |s| ==> s[j] != c
  {
    if s == [] then -1
    else if s[|s| - 1] == c then |s| - 1
    else LastIndexOf(s[..|s| - 1], c)
  }

  /**
    A component `Path::components` reports as `Component::Normal`: not empty
    (repeated separators are skipped), not `.` (dropped unless leading) and not
    `..` (`Component::ParentDir`).
   */
  predicate IsNormal(name: string) {
    name != "" && name != "." && name != ".." && Separator !in name
  }

  /**
    `Path::file_name`: the last component of the path when it is a normal one.
    Empty and `.` components at the end are skipped; a path that ends in `..`,
    or that has no normal component at its end, has no file name.
   */
  function FileName(path: string): (r: Option<string>)
    ensures r.Some? ==> IsNormal(r.value)
    decreases |path|
  {
    var k := LastIndexOf(path, Separator);
    var last := path[k + 1..];
    if last == "" || last == "." then
      if k < 0 then None else FileName(path[..k])
    else if last == ".." then None
    else Some(last)
  }

  /**
    `rsplit_file_at_dot`: splits a file name at its last dot into the stem
    and the text after it. A name with no dot has no stem; a name whose only
    dot is its first character, and the name `..`, have no extension.
   */
  function SplitAtLastDot(name: string): (r: (Option<string>, Option<string>))
    ensures r.0.None? ==> Dot !in name && r.1 == Some(name)
    ensures r.0.Some? && r.1.Some? ==>
      r.0.value != [] && name == r.0.value + [Dot] + r.1.value && Dot !in r.1.value
    ensures r.1.None? ==> r.0 == Some(name) && (name == ".." || (name != [] && name[0] == Dot && Dot !in name[1..]))
  {
    if name == ".." then (Some(name), None)
    else
      var k := LastIndexOf(name, Dot);
      if k < 0 then (None, Some(name))
      else if k == 0 then
        assert forall j :: 0 <= j < |name[1..]| ==> name[1..][j] == name[j + 1];
        (Some(name), None)
      else
        assert name == name[..k] + [Dot] + name[k + 1..];
        (Some(name[..k]), Some(name[k + 1..]))
  }

  /** `Path::extension`: the text after the last dot of the file name. */
  function Extension(path: string): (r: Option<string>)
    ensures r.Some? ==> FileName(path).Some? && EndsWithExtension(FileName(path).value, r.value)
  {
    match FileName(path)
    case None => None
    case Some(name) =>
      var (stem, after) := SplitAtLastDot(name);
      if stem.Some? then after else None
  }

  /** `e` is what follows the last dot of `name`, and that dot is not the first character. */
  predicate EndsWithExtension(name: string, e: string) {
    |e| + 1 < |name| && name[|name| - |e| - 1] == Dot && name[|name| - |e|..] == e && Dot !in e
  }

  /** A name has at most one extension. */
  lemma EndsWithExtensionUnique(name: string, e1: string, e2: string)
    requires EndsWithExtension(name, e1) && EndsWithExtension(name, e2)
    ensures e1 == e2
  {
  }

  /** A path has extension `e` iff its file name ends in a dot and `e`, with text before the dot. */
  lemma ExtensionIff(path: string, e: string)
    ensures Extension(path) == Some(e) <==> FileName(path).Some? && EndsWithExtension(FileName(path).value, e)
  {
    match FileName(path)
    case None =>
    case Some(name) =>
      var k := LastIndexOf(name, Dot);
      if k > 0 {
        var ext := name[k + 1..];
        assert EndsWithExtension(name, ext) by {
          assert |name| - |ext| - 1 == k;
          forall j | 0 <= j < |ext| ensures ext[j] != Dot {
            assert ext[j] == name[k + 1 + j];
          }
        }
        if EndsWithExtension(name, e) {
          EndsWithExtensionUnique(name, e, ext);
        }
      }
  }

  /** A path has no extension iff it has no file name or no dot after its name's first character. */
  lemma ExtensionNone(path: string)
    ensures Extension(path) == None <==>
      FileName(path).None? || Dot !in FileName(path).value[1..]
  {
    match FileName(path)
    case None =>
    case Some(name) =>
      var k := LastIndexOf(name, Dot);
      if k > 0 {
        assert name[1..][k - 1] == Dot;
      } else {
        forall j | 0 <= j < |name[1..]| ensures name[1..][j] != Dot {
          assert name[1..][j] == name[j + 1];
        }
      }
  }

  /** The file name of a bare normal name is the name itself. */
  lemma FileNameOfName(name: string)
    requires IsNormal(name)
    ensures FileName(name) == Some(name)
  {
    assert LastIndexOf(name, Separator) == -1;
    assert name[0..] == name;
  }

  /** The file name of `dir/name` is `name`, whatever the directory. */
  lemma FileNameOfJoin(dir: string, name: string)
    requires IsNormal(name)
    ensures FileName(dir + [Separator] + name) == Some(name)
  {
    var path := dir + [Separator] + name;
    var k := LastIndexOf(path, Separator);
    assert path[|dir|] == Separator;
    assert k == |dir|;
    assert path[k + 1..] == name;
  }

  /** Trailing separators do not change the file name. */
  lemma FileNameTrailingSeparator(path: string)
    ensures FileName(path + [Separator]) == FileName(path)
  {
    var p := path + [Separator];
    assert LastIndexOf(p, Separator) == |path|;
    assert p[..|path|] == path;
  }

  /** A trailing `/.` does not change the file name. */
  lemma FileNameTrailingCurDir(path: string)
    ensures FileName(path + [Separator, Dot]) == FileName(path)
  {
    var p := path + [Separator, Dot];
    assert LastIndexOf(p, Separator) == |path|;
    assert p[|path| + 1..] == ".";
    assert p[..|path|] == path;
  }

  /** A path ending in `..` has no file name and so no extension. */
  lemma FileNameParentDir(path: string)
    ensures FileName(path + [Separator, Dot, Dot]) == None
    ensures Extension(path + [Separator, Dot, Dot]) == None
  {
    var p := path + [Separator, Dot, Dot];
    assert p[|path|] == Separator && p[|path| + 1] == Dot && p[|path| + 2] == Dot;
    assert LastIndexOf(p, Separator) == |path|;
    assert p[|path| + 1..] == "..";
  }
}
