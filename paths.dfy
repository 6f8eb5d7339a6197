/**
 * Paths as a directory prefix, opaque to this model, and a final file name,
 * with the rules by which Rust's `Path::file_stem` and `Path::extension` cut
 * a file name at its last dot.
 */
module Paths {
  import opened Wrappers
  import opened Strings

  /** `fileName` is the empty string for a path that has no file name. */
  datatype Path = Path(parent: string, fileName: string)

  /**
   * `Path::file_stem`, with `""` for no stem: the text before the last dot,
   * unless there is no dot or the only split would leave an empty stem
   * (a name such as `.bashrc`), in which case the whole name.
   */
  function FileStem(name: string): (r: string)
    ensures |r| <= |name| && r == name[..|r|]
  {
    match LastIndexOf(name, '.')
    case Some(i) => if i == 0 then name else name[..i]
    case None => name
  }

  /** `Path::extension`, with `""` for no extension: the text after the last dot. */
  function FileExtension(name: string): (r: string)
    ensures '.' !in r
  {
    match LastIndexOf(name, '.')
    case Some(i) => if i == 0 then "" else name[i + 1..]
    case None => ""
  }

  /** A non-empty stem and a dot-free extension are read back from their join. */
  lemma StemAndExtensionOf(stem: string, ext: string)
    requires stem != [] && '.' !in ext
    ensures FileStem(stem + "." + ext) == stem
    ensures FileExtension(stem + "." + ext) == ext
  {
    RSplitOnceAt(stem, '.', ext);
    assert stem + "." + ext == stem + ['.'] + ext;
    var i := LastIndexOf(stem + "." + ext, '.').value;
    assert i == |stem|;
  }

  /** A name with no dot after its first character is all stem. */
  lemma AllStem(name: string)
    requires forall k :: 0 < k < |name| ==> name[k] != '.'
    ensures FileStem(name) == name && FileExtension(name) == ""
  {
  }

  /** A name with a dot after its first character and ending in something else has an extension. */
  lemma DottedNameHasExtension(name: string, i: nat)
    requires 0 < i < |name| && name[i] == '.' && name[|name| - 1] != '.'
    ensures FileExtension(name) != ""
  {
    var last := LastIndexOf(name, '.').value;
    assert i <= last < |name| - 1;
  }

  /** A name with a dot after its first character is cut at its last dot. */
  lemma CutAtLastDot(name: string, i: nat)
    requires 0 < i < |name| && name[i] == '.'
    requires forall k :: i < k < |name| ==> name[k] != '.'
    ensures FileStem(name) == name[..i] && FileExtension(name) == name[i + 1..]
  {
  }
}
