/**
 * Unix paths as the component sequences `std::path::Path::components` yields, and the
 * `Path`/`PathBuf` operations `convert_file` uses: `strip_prefix`, `push`, `file_name`,
 * `file_stem`, `extension` and `set_extension`.
 */
module Paths {
  import opened Outcomes
  import Text

  /** One component of a Unix path. */
  datatype Component = RootDir | CurDir | ParentDir | Normal(name: string)

  type Path = seq<Component>

  /** A name that can appear as a `Normal` component: non-empty, no separator, not `.` or `..`. */
  predicate ValidName(name: string) {
    name != [] && '/' !in name && name != "." && name != ".."
  }

  /** The shape `components` produces: a root or a leading `.` only first, and valid names. */
  predicate WellFormed(p: Path) {
    forall i :: 0 <= i < |p| ==>
      (p[i] == RootDir ==> i == 0) && (p[i] == CurDir ==> i == 0) && (p[i].Normal? ==> ValidName(p[i].name))
  }

  /** `Path::strip_prefix`: succeeds exactly when `base`'s components start `path`'s, and yields the rest. */
  function StripPrefix(path: Path, base: Path): (r: Option<Path>)
    ensures r.Some? <==> base <= path
    ensures r.Some? ==> path == base + r.value
  {
    if base == [] then Some(path)
    else if path == [] || path[0] != base[0] then None
    else
      var r := StripPrefix(path[1..], base[1..]);
      assert path == [path[0]] + path[1..] && base == [base[0]] + base[1..];
      r
  }

  /** Stripping a base from a path built on that base gives back exactly the appended components. */
  lemma StripPrefixOfAppended(base: Path, rel: Path)
    ensures StripPrefix(base + rel, base) == Some(rel)
  {
    assert (base + rel)[..|base|] == base;
  }

  /**
   * `PathBuf::push`: an absolute path replaces the buffer; otherwise the components are
   * appended, a leading `.` of the pushed path disappearing once it is no longer first.
   */
  function Joined(base: Path, rel: Path): (r: Path)
    ensures rel != [] && rel[0] == RootDir ==> r == rel
    ensures rel == [] || rel[0].Normal? || rel[0] == ParentDir ==> r == base + rel
    ensures rel != [] && rel[0] == CurDir ==> r == (if base == [] then rel else base + rel[1..])
    ensures rel == [] || rel[0] != RootDir ==> base <= r
    ensures WellFormed(base) && WellFormed(rel) ==> WellFormed(r)
  {
    if rel != [] && rel[0] == RootDir then rel
    else if base != [] && rel != [] && rel[0] == CurDir then base + rel[1..]
    else base + rel
  }

  /** `Path::file_name`: the last component when it is a normal name. */
  function FileName(p: Path): (r: Option<string>)
    ensures r.Some? <==> p != [] && p[|p| - 1].Normal?
    ensures r.Some? ==> p == p[..|p| - 1] + [Normal(r.value)]
    ensures WellFormed(p) && r.Some? ==> ValidName(r.value)
  {
    if p != [] && p[|p| - 1].Normal? then Some(p[|p| - 1].name) else None
  }

  /** The file name of `dir/name` is `name`. */
  lemma FileNameOfFile(dir: Path, name: string)
    ensures FileName(dir + [Normal(name)]) == Some(name)
  {
  }

  /** `name` is not `..` and has a dot after its first character: the names Rust splits into stem and extension. */
  predicate DotAfterStart(name: string) {
    name != ".." && exists i :: 0 < i < |name| && name[i] == '.'
  }

  /**
   * Splits a file name at its last `.` the way Rust does for stems and extensions: `..`,
   * a name without a dot, and a name whose only dot is its first character have no extension.
   */
  function SplitAtLastDot(name: string): (r: (Option<string>, Option<string>))
    ensures r.0.Some? && r.1.Some? <==> DotAfterStart(name)
    ensures r.0.Some? && r.1.Some? ==> name == r.0.value + "." + r.1.value && r.0.value != [] && '.' !in r.1.value
    ensures r.0.None? ==> r.1 == Some(name) && '.' !in name
    ensures r.1.None? ==> r.0 == Some(name)
  {
    if name == ".." then (Some(name), None)
    else match Text.LastIndexOf(name, '.')
      case None => (None, Some(name))
      case Some(i) =>
        if i == 0 then
          assert forall k :: 0 < k < |name| ==> name[k] == name[1..][k - 1];
          (Some(name), None)
        else
          assert name == name[..i] + "." + name[i + 1..];
          (Some(name[..i]), Some(name[i + 1..]))
  }

  /** `file_stem`: the name without its extension. */
  function FileStem(name: string): (stem: string)
    ensures name != [] ==> stem != []
    ensures stem <= name
  {
    var parts := SplitAtLastDot(name);
    if parts.0.Some? then parts.0.value else parts.1.value
  }

  /** `extension`: the text after the last dot, when the name has one. */
  function Extension(name: string): (ext: Option<string>)
    ensures ext.Some? <==> DotAfterStart(name)
    ensures ext.Some? ==> name == FileStem(name) + "." + ext.value && '.' !in ext.value
    ensures ext.None? ==> FileStem(name) == name
  {
    var parts := SplitAtLastDot(name);
    if parts.0.Some? then parts.1 else None
  }

  /** A non-empty stem, a dot and a dot-free non-empty extension split back into that stem and extension. */
  lemma StemDotExtension(stem: string, ext: string)
    requires stem != [] && ext != [] && '.' !in ext
    ensures Extension(stem + "." + ext) == Some(ext)
    ensures FileStem(stem + "." + ext) == stem
  {
    var name := stem + "." + ext;
    LastDotBeforeExtension(stem, ext);
    assert name[..|stem|] == stem;
    assert name[|stem| + 1..] == ext;
    assert name != "..";
  }

  /**
   * The new file name `set_extension(ext)` gives a file called `name`: the name cut after
   * its stem, then `.ext` unless `ext` is empty. Reading back gives `ext` and the old stem.
   */
  function RenameExtension(name: string, ext: string): (r: string)
    ensures name != [] && ext != [] && '.' !in ext ==> Extension(r) == Some(ext) && FileStem(r) == FileStem(name)
  {
    var stem := FileStem(name);
    if ext == [] then stem
    else
      assert stem + ("." + ext) == stem + "." + ext;
      if name != [] && '.' !in ext then
        StemDotExtension(stem, ext);
        stem + "." + ext
      else stem + "." + ext
  }

  /** With a non-empty extension, the new name is the stem, a dot and the extension. */
  lemma RenameToExtension(name: string, ext: string)
    requires ext != []
    ensures RenameExtension(name, ext) == FileStem(name) + "." + ext
  {
  }

  /**
   * `PathBuf::set_extension`: when the path ends in a file name, replace that name's
   * extension (adding one if it had none); otherwise leave the path alone.
   */
  function WithExtension(p: Path, ext: string): (r: Path)
    ensures FileName(p).None? ==> r == p
    ensures FileName(p).Some? ==>
              |r| == |p| && r[..|p| - 1] == p[..|p| - 1] && FileName(r) == Some(RenameExtension(FileName(p).value, ext))
  {
    match FileName(p)
    case None => p
    case Some(name) => p[..|p| - 1] + [Normal(RenameExtension(name, ext))]
  }

  /** The last dot of `stem.ext` is the one put between them when `ext` has none. */
  lemma {:induction false} LastDotBeforeExtension(stem: string, ext: string)
    requires '.' !in ext
    ensures Text.LastIndexOf(stem + "." + ext, '.') == Some(|stem|)
  {
    if ext != [] {
      var shorter := ext[..|ext| - 1];
      assert (stem + "." + ext)[..|stem + "." + ext| - 1] == stem + "." + shorter;
      assert ext[|ext| - 1] in ext;
      LastDotBeforeExtension(stem, shorter);
    }
  }

  /** Setting the extension of `dir/name` renames the last component and keeps the directories. */
  lemma WithExtensionOfFile(dir: Path, name: string, ext: string)
    ensures WithExtension(dir + [Normal(name)], ext) == dir + [Normal(RenameExtension(name, ext))]
  {
    assert (dir + [Normal(name)])[..|dir|] == dir;
  }

  /** After `set_extension(ext)` on a path ending in a file name, `extension` reads back `ext` and the stem is kept. */
  lemma SetExtensionRoundTrip(p: Path, ext: string)
    requires WellFormed(p) && FileName(p).Some?
    requires ext != [] && '.' !in ext
    ensures FileName(WithExtension(p, ext)).Some?
    ensures Extension(FileName(WithExtension(p, ext)).value) == Some(ext)
    ensures FileStem(FileName(WithExtension(p, ext)).value) == FileStem(FileName(p).value)
  {
  }

  /** Renaming with an extension that holds neither a separator nor a dot keeps a path well formed. */
  lemma SetExtensionKeepsWellFormed(p: Path, ext: string)
    requires WellFormed(p)
    requires ext != [] && '.' !in ext && '/' !in ext
    ensures WellFormed(WithExtension(p, ext))
  {
    if FileName(p).Some? {
      var name := FileName(p).value;
      var renamed := RenameExtension(name, ext);
      assert |renamed| >= 3;
      assert '/' !in renamed by {
        assert FileStem(name) <= name;
        assert forall k :: 0 <= k < |FileStem(name)| ==> FileStem(name)[k] == name[k];
      }
    }
  }

  /** A path buffer: the mutable owner of a sequence of components. */
  class PathBuf {
    var components: Path

    constructor (p: Path)
      ensures components == p
    {
      components := p;
    }

    method Push(rel: Path)
      modifies this
      ensures components == Joined(old(components), rel)
    {
      if rel != [] && rel[0] == RootDir {
        components := rel;
      } else if components != [] && rel != [] && rel[0] == CurDir {
        components := components + rel[1..];
      } else {
        components := components + rel;
      }
    }

    method SetExtension(ext: string) returns (changed: bool)
      modifies this
      ensures changed <==> FileName(old(components)).Some?
      ensures components == WithExtension(old(components), ext)
    {
      var name := FileName(components);
      changed := name.Some?;
      if changed {
        var n := |components|;
        components := components[..n - 1] + [Normal(RenameExtension(name.value, ext))];
      }
    }
  }
}
