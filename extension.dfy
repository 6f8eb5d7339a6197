/**
 * The supported compression formats, the textual extensions that name them,
 * and the parsers that turn a file name or a `--format` value into a chain of
 * extensions, outermost first (src/extension.rs).
 */
module Extensions {
  import opened Wrappers
  import opened Strings
  import opened Paths

  /** `SUPPORTED_EXTENSIONS`, built with the optional RAR support. */
  const SupportedExtensions: seq<string> :=
    ["tar", "zip", "bz", "bz2", "gz", "lz4", "xz", "lzma", "lz", "sz", "zst", "rar", "7z", "br"]

  /** `SUPPORTED_ALIASES`. */
  const SupportedAliases: seq<string> := ["tgz", "tbz", "tlz4", "txz", "tlzma", "tsz", "tzst", "tlz"]

  /** Tokens that the catalog decodes although neither list above names them. */
  const UnlistedTokens: set<string> := {"bz3", "tbz2", "tbz3"}

  /** Whether `t` is one of `tokens`, checked one entry at a time (`contains`). */
  predicate Listed(tokens: seq<string>, t: string)
  {
    tokens != [] && (tokens[0] == t || Listed(tokens[1..], t))
  }

  /** `Listed` is membership. */
  lemma {:induction false} ListedIsIn(tokens: seq<string>, t: string)
    ensures Listed(tokens, t) <==> t in tokens
  {
    if tokens != [] {
      ListedIsIn(tokens[1..], t);
      assert tokens == [tokens[0]] + tokens[1..];
    }
  }

  /** A token of either list. */
  predicate IsSupportedToken(t: string)
  {
    Listed(SupportedExtensions, t) || Listed(SupportedAliases, t)
  }

  datatype CompressionFormat =
    Gzip | Bzip | Bzip3 | Lz4 | Xz | Lzma | Lzip | Snappy | Tar | Zstd | Zip | Rar | SevenZip | Brotli

  /** The formats that hold several files and a directory structure. */
  const ArchiveFormats: set<CompressionFormat> := {Tar, Zip, Rar, SevenZip}

  /** `CompressionFormat::archive_format`: an exhaustive match, no default arm. */
  function ArchiveFormat(f: CompressionFormat): (r: bool)
    ensures r <==> f in ArchiveFormats
  {
    match f
    case Tar | Zip | Rar | SevenZip => true
    case Bzip | Bzip3 | Lz4 | Lzma | Xz | Lzip | Snappy | Zstd | Brotli | Gzip => false
  }

  /** A stack of formats, outermost first; never empty. */
  type FormatStack = s: seq<CompressionFormat> | |s| > 0 witness [Gzip]

  /** One extension token, such as `tgz`, with the formats it denotes. */
  datatype Extension = Extension(compressionFormats: FormatStack, displayText: string)
  {
    /** `Extension::is_archive`: the outermost format decides. */
    function IsArchive(): (r: bool)
      ensures r <==> compressionFormats[0] in ArchiveFormats
    {
      ArchiveFormat(compressionFormats[0])
    }
  }

  /** `Extension::new`, which asserts that the formats are not empty. */
  function NewExtension(formats: seq<CompressionFormat>, text: string): (e: Extension)
    requires |formats| > 0
    ensures e.compressionFormats == formats && e.displayText == text
    ensures e.IsArchive() <==> formats[0] in ArchiveFormats
  {
    Extension(formats, text)
  }

  /** How a catalog entry is shaped: one format, or a tar archive and a compressor. */
  predicate WellShaped(formats: FormatStack)
  {
    |formats| == 1 || (|formats| == 2 && formats[0] == Tar && formats[1] !in ArchiveFormats)
  }

  /** The match of `to_extension`: the formats each token stands for, arm by arm. */
  function CatalogFormats(ext: string): (r: Option<FormatStack>)
    ensures r.Some? ==> WellShaped(r.value)
  {
    match ext
    case "tar" => Some([Tar])
    case "tgz" => Some([Tar, Gzip])
    case "tbz" => Some([Tar, Bzip])
    case "tbz2" => Some([Tar, Bzip])
    case "tbz3" => Some([Tar, Bzip3])
    case "tlz4" => Some([Tar, Lz4])
    case "txz" => Some([Tar, Xz])
    case "tlzma" => Some([Tar, Lzma])
    case "tlz" => Some([Tar, Lzip])
    case "tsz" => Some([Tar, Snappy])
    case "tzst" => Some([Tar, Zstd])
    case "zip" => Some([Zip])
    case "bz" => Some([Bzip])
    case "bz2" => Some([Bzip])
    case "bz3" => Some([Bzip3])
    case "gz" => Some([Gzip])
    case "lz4" => Some([Lz4])
    case "xz" => Some([Xz])
    case "lzma" => Some([Lzma])
    case "lz" => Some([Lzip])
    case "sz" => Some([Snappy])
    case "zst" => Some([Zstd])
    case "rar" => Some([Rar])
    case "7z" => Some([SevenZip])
    case "br" => Some([Brotli])
    case _ => None
  }

  /**
   * `to_extension`: the extension a token denotes, keeping the token as its
   * display text. Only the outermost format of an entry can be an archive,
   * and an entry holds one format or a tar archive and one compressor.
   */
  function ToExtension(ext: string): (r: Option<Extension>)
    ensures r.Some? ==> r.value.displayText == ext && WellShaped(r.value.compressionFormats)
    ensures r.Some? ==> (forall i :: 0 < i < |r.value.compressionFormats| ==>
      r.value.compressionFormats[i] !in ArchiveFormats)
  {
    match CatalogFormats(ext)
    case Some(formats) => Some(NewExtension(formats, ext))
    case None => None
  }

  /** The catalog decodes exactly the listed extensions and aliases and three unlisted tokens. */
  lemma ToExtensionDomain(t: string)
    ensures ToExtension(t).Some? <==> t in SupportedExtensions || t in SupportedAliases || t in UnlistedTokens
  {
  }

  /** A supported token is one that is in either list. */
  lemma SupportedTokenIsIn(t: string)
    ensures IsSupportedToken(t) <==> t in SupportedExtensions || t in SupportedAliases
  {
    ListedIsIn(SupportedExtensions, t);
    ListedIsIn(SupportedAliases, t);
  }

  /** Synonyms of the table: `bz` and `bz2`, `tbz` and `tbz2` denote the same formats. */
  lemma ToExtensionSynonyms()
    ensures ToExtension("tgz") == Some(Extension([Tar, Gzip], "tgz"))
    ensures ToExtension("bz") == Some(Extension([Bzip], "bz"))
    ensures ToExtension("bz2") == Some(Extension([Bzip], "bz2"))
    ensures ToExtension("tbz") == Some(Extension([Tar, Bzip], "tbz"))
    ensures ToExtension("tbz2") == Some(Extension([Tar, Bzip], "tbz2"))
  {
  }

  /** The table is case-sensitive and knows neither `lzip` nor the empty token. */
  lemma ToExtensionRefuses()
    ensures ToExtension("TAR").None? && ToExtension("lzip").None? && ToExtension("").None?
  {
  }

  /** Stems that `split_extension_at_end` refuses to peel from. */
  const ReservedStems: set<string> := {"", ".", ".."}

  /**
   * `split_extension_at_end`: cut the name at its last dot and decode the
   * token after it, unless there is no dot, the part before it is `""`, `"."`
   * or `".."`, or the token is unknown.
   */
  function SplitExtensionAtEnd(name: string): (r: Option<(string, Extension)>)
    ensures r.Some? ==> name == r.value.0 + "." + r.value.1.displayText
    ensures r.Some? ==> '.' !in r.value.1.displayText && r.value.0 !in ReservedStems
    ensures r.Some? ==> ToExtension(r.value.1.displayText) == Some(r.value.1)
    ensures '.' !in name ==> r.None?
  {
    match RSplitOnce(name, '.')
    case None => None
    case Some((newName, ext)) =>
      if newName in ReservedStems then None
      else match ToExtension(ext)
        case None => None
        case Some(e) => Some((newName, e))
  }

  /** Conversely, every admissible last-dot cut with a known token is found. */
  lemma SplitExtensionAtEndFinds(stem: string, token: string)
    requires '.' !in token && stem !in ReservedStems && ToExtension(token).Some?
    ensures SplitExtensionAtEnd(stem + "." + token) == Some((stem, ToExtension(token).value))
  {
    RSplitOnceAt(stem, '.', token);
    assert stem + "." + token == stem + ['.'] + token;
  }

  /** A cut whose stem is reserved, or whose token is unknown, is refused. */
  lemma SplitExtensionAtEndRefuses(stem: string, token: string)
    requires '.' !in token && (stem in ReservedStems || ToExtension(token).None?)
    ensures SplitExtensionAtEnd(stem + "." + token).None?
  {
    RSplitOnceAt(stem, '.', token);
    assert stem + "." + token == stem + ['.'] + token;
  }

  /** The chain found so far, with `tail` appended on the inner side. */
  function Extend(r: Result<(string, seq<Extension>)>, tail: seq<Extension>): Result<(string, seq<Extension>)>
  {
    match r
    case Ok((stem, exts)) => Ok((stem, exts + tail))
    case Err => Err
  }

  /**
   * What the loop of `separate_known_extensions_from_name` computes from a
   * file name: peel known tokens from the right; once an archive token is
   * peeled, stop, and fail if one more token could be peeled.
   */
  function Peel(name: string): Result<(string, seq<Extension>)>
    decreases |name|
  {
    match SplitExtensionAtEnd(name)
    case None => Ok((name, []))
    case Some((rest, ext)) =>
      if ext.IsArchive() then
        if SplitExtensionAtEnd(rest).Some? then Err else Ok((rest, [ext]))
      else
        Extend(Peel(rest), [ext])
  }

  /** `"." + display_text` of each extension, in order. */
  function Dotted(exts: seq<Extension>): string
  {
    if exts == [] then "" else Dotted(exts[..|exts| - 1]) + "." + exts[|exts| - 1].displayText
  }

  /** The stem followed by the peeled tokens spells the file name again. */
  lemma {:induction false} PeelReconstructs(name: string)
    requires Peel(name).Ok?
    ensures name == Peel(name).value.0 + Dotted(Peel(name).value.1)
    decreases |name|
  {
    var split := SplitExtensionAtEnd(name);
    if split.None? {
      assert name == name + Dotted([]);
    } else {
      var (rest, ext) := split.value;
      if ext.IsArchive() {
        DottedOne(rest, ext);
      } else {
        PeelReconstructs(rest);
        var (stem, exts) := Peel(rest).value;
        DottedStep(name, rest, ext, stem, exts);
      }
    }
  }

  /** One peeled token spells `"." + token`. */
  lemma DottedOne(rest: string, ext: Extension)
    ensures rest + Dotted([ext]) == rest + "." + ext.displayText
  {
    assert [ext][..0] == [];
  }

  /** Appending one token on the inner side extends the spelling by it. */
  lemma DottedStep(name: string, rest: string, ext: Extension, stem: string, exts: seq<Extension>)
    requires name == rest + "." + ext.displayText && rest == stem + Dotted(exts)
    ensures name == stem + Dotted(exts + [ext])
  {
    assert (exts + [ext])[..|exts|] == exts;
  }

  /** Only the outermost extension of a peeled chain can be an archive. */
  lemma {:induction false} PeelArchiveOutermost(name: string)
    requires Peel(name).Ok?
    ensures forall i :: 0 < i < |Peel(name).value.1| ==> !Peel(name).value.1[i].IsArchive()
    decreases |name|
  {
    var split := SplitExtensionAtEnd(name);
    if split.Some? && !split.value.1.IsArchive() {
      PeelArchiveOutermost(split.value.0);
    }
  }

  /** Peeling stops only where nothing more can be peeled. */
  lemma {:induction false} PeelStemIsFinal(name: string)
    requires Peel(name).Ok?
    ensures SplitExtensionAtEnd(Peel(name).value.0).None?
    decreases |name|
  {
    var split := SplitExtensionAtEnd(name);
    if split.Some? && !split.value.1.IsArchive() {
      PeelStemIsFinal(split.value.0);
    }
  }

  /** Every peeled extension is the catalog's entry for its own text. */
  lemma {:induction false} PeelFromCatalog(name: string)
    requires Peel(name).Ok?
    ensures forall i :: 0 <= i < |Peel(name).value.1| ==>
      ToExtension(Peel(name).value.1[i].displayText) == Some(Peel(name).value.1[i])
    decreases |name|
  {
    var split := SplitExtensionAtEnd(name);
    if split.Some? && !split.value.1.IsArchive() {
      PeelFromCatalog(split.value.0);
    }
  }

  /**
   * A failure always comes from an archive token with a further known token
   * to its left, all tokens to its right being non-archives.
   */
  lemma {:induction false} PeelFailure(name: string) returns (rest: string, archive: Extension, tail: seq<Extension>)
    requires Peel(name).Err?
    ensures name == rest + "." + archive.displayText + Dotted(tail)
    ensures archive.IsArchive() && SplitExtensionAtEnd(rest).Some?
    ensures forall i :: 0 <= i < |tail| ==> !tail[i].IsArchive()
    decreases |name|
  {
    var split := SplitExtensionAtEnd(name);
    var (r, ext) := split.value;
    if ext.IsArchive() {
      rest, archive, tail := r, ext, [];
    } else {
      var t;
      rest, archive, t := PeelFailure(r);
      tail := t + [ext];
      DottedStep(name, r, ext, rest + "." + archive.displayText, t);
    }
  }

  /** The formats of a chain, in order (`flatten_compression_formats`). */
  function FlattenCompressionFormats(exts: seq<Extension>): (r: seq<CompressionFormat>)
    ensures |r| >= |exts|
  {
    if exts == [] then [] else exts[0].compressionFormats + FlattenCompressionFormats(exts[1..])
  }

  /** Flattening maps concatenation of chains to concatenation of pipelines. */
  lemma {:induction false} FlattenAppend(a: seq<Extension>, b: seq<Extension>)
    ensures FlattenCompressionFormats(a + b) == FlattenCompressionFormats(a) + FlattenCompressionFormats(b)
  {
    if a == [] {
      assert a + b == b;
    } else {
      assert (a + b)[0] == a[0] && (a + b)[1..] == a[1..] + b;
      FlattenAppend(a[1..], b);
    }
  }

  /** A format is in the pipeline exactly when some extension of the chain has it. */
  lemma {:induction false} FlattenMembers(exts: seq<Extension>, f: CompressionFormat)
    ensures f in FlattenCompressionFormats(exts) <==>
      exists j :: 0 <= j < |exts| && f in exts[j].compressionFormats
  {
    if exts != [] {
      FlattenMembers(exts[1..], f);
      if f in FlattenCompressionFormats(exts[1..]) {
        var j :| 0 <= j < |exts[1..]| && f in exts[1..][j].compressionFormats;
        assert f in exts[j + 1].compressionFormats;
      }
      if j :| 0 < j < |exts| && f in exts[j].compressionFormats {
        assert f in exts[1..][j - 1].compressionFormats;
      }
    }
  }

  /**
   * `split_first_compression_format`: the first format of the pipeline and
   * the rest; it panics on an empty chain.
   */
  function SplitFirstCompressionFormat(exts: seq<Extension>): (r: (CompressionFormat, seq<CompressionFormat>))
    requires |exts| > 0
    ensures [r.0] + r.1 == FlattenCompressionFormats(exts)
    ensures r.0 == exts[0].compressionFormats[0]
  {
    var formats := FlattenCompressionFormats(exts);
    (formats[0], formats[1..])
  }

  /** Catalog extensions whose outermost format is no archive contain no archive. */
  lemma {:induction false} FlattenNoArchive(exts: seq<Extension>)
    requires forall i :: 0 <= i < |exts| ==> ToExtension(exts[i].displayText) == Some(exts[i])
    requires forall i :: 0 <= i < |exts| ==> !exts[i].IsArchive()
    ensures forall k :: 0 <= k < |FlattenCompressionFormats(exts)| ==>
      FlattenCompressionFormats(exts)[k] !in ArchiveFormats
  {
    if exts != [] {
      FlattenNoArchive(exts[1..]);
      var head := exts[0].compressionFormats;
      assert forall k :: 0 <= k < |head| ==> head[k] !in ArchiveFormats by {
        assert ToExtension(exts[0].displayText) == Some(exts[0]);
      }
    }
  }

  /**
   * In the pipeline of a peeled chain, an archive format can only be the
   * first codec applied.
   */
  lemma PeelPipelineArchiveFirst(name: string)
    requires Peel(name).Ok?
    ensures forall k :: 0 < k < |FlattenCompressionFormats(Peel(name).value.1)| ==>
      FlattenCompressionFormats(Peel(name).value.1)[k] !in ArchiveFormats
  {
    var exts := Peel(name).value.1;
    PeelArchiveOutermost(name);
    PeelFromCatalog(name);
    if exts != [] {
      var rest := exts[1..];
      assert forall i :: 0 <= i < |rest| ==> ToExtension(rest[i].displayText) == Some(rest[i]) by {
        forall i | 0 <= i < |rest| ensures ToExtension(rest[i].displayText) == Some(rest[i]) {
          assert rest[i] == exts[i + 1];
        }
      }
      assert forall i :: 0 <= i < |rest| ==> !rest[i].IsArchive() by {
        forall i | 0 <= i < |rest| ensures !rest[i].IsArchive() {
          assert rest[i] == exts[i + 1];
        }
      }
      FlattenNoArchive(rest);
      assert ToExtension(exts[0].displayText) == Some(exts[0]);
    }
  }

  /** The result of `separate_known_extensions_from_name`. */
  datatype Separated = Separated(stem: Path, extensions: seq<Extension>, warnsStem: bool)

  /**
   * Whether the warning of the parser is logged: the remaining stem, with
   * leading and trailing dots trimmed, is itself a listed extension or alias.
   */
  predicate StemWarns(stem: string)
  {
    IsSupportedToken(TrimMatches(stem, '.'))
  }

  /**
   * What `separate_known_extensions_from_name` returns: a path without a file
   * name comes back as it is; otherwise the remaining stem (as a path of its
   * own) and the peeled chain, or a failure for a misplaced archive token.
   */
  function SeparationOf(path: Path): Result<Separated>
  {
    if path.fileName == "" then Ok(Separated(path, [], false))
    else match Peel(path.fileName)
      case Ok((stem, exts)) => Ok(Separated(Path("", stem), exts, StemWarns(stem)))
      case Err => Err
  }

  /** Appending twice is appending the concatenation. */
  lemma ExtendTwice(r: Result<(string, seq<Extension>)>, middle: seq<Extension>, tail: seq<Extension>)
    ensures Extend(Extend(r, middle), tail) == Extend(r, middle + tail)
  {
    if r.Ok? {
      assert r.value.1 + middle + tail == r.value.1 + (middle + tail);
    }
  }

  /** One step of `Peel` at a cut of a compressor token. */
  lemma PeelCompressorStep(name: string, rest: string, ext: Extension)
    requires SplitExtensionAtEnd(name) == Some((rest, ext)) && !ext.IsArchive()
    ensures Peel(name) == Extend(Peel(rest), [ext])
  {
  }

  /** One step of `Peel` at a cut of an archive token. */
  lemma PeelArchiveStep(name: string, rest: string, ext: Extension)
    requires SplitExtensionAtEnd(name) == Some((rest, ext)) && ext.IsArchive()
    ensures Peel(name) == if SplitExtensionAtEnd(rest).Some? then Err else Ok((rest, [ext]))
  {
  }

  /** Where nothing can be cut, `Peel` stops. */
  lemma PeelStops(name: string)
    requires SplitExtensionAtEnd(name).None?
    ensures Peel(name) == Ok((name, []))
  {
  }

  /** `separate_known_extensions_from_name`, loop and all. */
  method SeparateKnownExtensionsFromName(path: Path) returns (r: Result<Separated>)
    ensures r == SeparationOf(path)
  {
    var extensions: seq<Extension> := [];
    if path.fileName == "" {
      return Ok(Separated(path, extensions, false));
    }
    var name := path.fileName;
    assert Peel(name).Ok? ==> Peel(name).value.1 + [] == Peel(name).value.1;
    var split := SplitExtensionAtEnd(name);
    while split.Some?
      invariant split == SplitExtensionAtEnd(name)
      invariant Peel(path.fileName) == Extend(Peel(name), extensions)
      decreases |name|
    {
      var (newName, extension) := split.value;
      ghost var oldName, oldExtensions := name, extensions;
      name := newName;
      extensions := [extension] + extensions;
      if extensions[0].IsArchive() {
        PeelArchiveStep(oldName, newName, extension);
        if SplitExtensionAtEnd(name).Some? {
          return Err;
        }
        assert Peel(path.fileName) == Ok((name, extensions));
        break;
      }
      PeelCompressorStep(oldName, newName, extension);
      ExtendTwice(Peel(newName), [extension], oldExtensions);
      split := SplitExtensionAtEnd(name);
    }
    if split.None? {
      PeelStops(name);
      assert [] + extensions == extensions;
    }
    return Ok(Separated(Path("", name), extensions, StemWarns(name)));
  }

  /** `extensions_from_path`: the chain alone. */
  method ExtensionsFromPath(path: Path) returns (r: Result<seq<Extension>>)
    ensures r.Ok? <==> SeparationOf(path).Ok?
    ensures r.Ok? ==> r.value == SeparationOf(path).value.extensions
  {
    var separated := SeparateKnownExtensionsFromName(path);
    match separated
    case Ok(s) => r := Ok(s.extensions);
    case Err => r := Err;
  }

  /** Peeling at an accepted cut whose token is a compressor goes on to the left. */
  lemma PeelAtCompressor(stem: string, token: string, e: Extension)
    requires '.' !in token && stem !in ReservedStems && ToExtension(token) == Some(e)
    requires !e.IsArchive()
    ensures Peel(stem + "." + token) == Extend(Peel(stem), [e])
  {
    SplitExtensionAtEndFinds(stem, token);
  }

  /** Peeling at an accepted cut whose token is an archive stops there, or fails. */
  lemma PeelAtArchive(stem: string, token: string, e: Extension)
    requires '.' !in token && stem !in ReservedStems && ToExtension(token) == Some(e)
    requires e.IsArchive()
    ensures Peel(stem + "." + token) == if SplitExtensionAtEnd(stem).Some? then Err else Ok((stem, [e]))
  {
    SplitExtensionAtEndFinds(stem, token);
  }

  /** A name without a dot is its own stem. */
  lemma PeelPlainName(name: string)
    requires '.' !in name
    ensures Peel(name) == Ok((name, []))
  {
  }

  /** So is a hidden name such as `.tar`: the part before its only dot is empty. */
  lemma PeelHiddenName(token: string)
    requires '.' !in token
    ensures Peel("." + token) == Ok(("." + token, []))
  {
    SplitExtensionAtEndRefuses("", token);
    assert "" + "." + token == "." + token;
  }

  /** The parser warns when the stem left over is itself a listed token, hidden or not (`tar`, `.tar`). */
  lemma StemWarnsOnToken(t: string)
    requires '.' !in t && IsSupportedToken(t)
    ensures StemWarns(t) && StemWarns("." + t)
  {
    TrimMatchesKeeps(t, '.');
    TrimMatchesLeading(t, '.');
  }

  /** It does not warn about an ordinary stem (`file`). */
  lemma StemQuiet(stem: string)
    requires '.' !in stem && !IsSupportedToken(stem)
    ensures !StemWarns(stem) && !StemWarns("." + stem)
  {
    TrimMatchesKeeps(stem, '.');
    TrimMatchesLeading(stem, '.');
  }

  /** A stem that does not start with a dot is never refused. */
  lemma NotReserved(stem: string)
    requires stem != [] && stem[0] != '.'
    ensures stem !in ReservedStems
  {
    assert stem != "." && stem != "..";
  }

  /** `file.tar` and the like: an archive token on a plain name is peeled, and only it. */
  lemma PeelArchiveOnPlainName(stem: string, a: string, ea: Extension)
    requires stem != [] && '.' !in stem && '.' !in a
    requires ToExtension(a) == Some(ea) && ea.IsArchive()
    ensures Peel(stem + "." + a) == Ok((stem, [ea]))
  {
    NotReserved(stem);
    PeelAtArchive(stem, a, ea);
  }

  /** `file.tar.gz` and the like: a compressor token above an archive token on a plain name. */
  lemma PeelCompressorOverArchive(stem: string, a: string, ea: Extension, c: string, ec: Extension)
    requires stem != [] && '.' !in stem && '.' !in a && '.' !in c
    requires ToExtension(a) == Some(ea) && ea.IsArchive()
    requires ToExtension(c) == Some(ec) && !ec.IsArchive()
    ensures Peel(stem + "." + a + "." + c) == Ok((stem, [ea, ec]))
  {
    var inner := stem + "." + a;
    assert inner[0] == stem[0];
    NotReserved(inner);
    PeelAtCompressor(inner, c, ec);
    PeelArchiveOnPlainName(stem, a, ea);
    assert [ea] + [ec] == [ea, ec];
  }

  /** `.tar.gz`: behind a leading dot, the archive token is part of the stem. */
  lemma PeelCompressorOverHiddenName(t: string, c: string, ec: Extension)
    requires t != [] && '.' !in t && '.' !in c
    requires ToExtension(c) == Some(ec) && !ec.IsArchive()
    ensures Peel("." + t + "." + c) == Ok(("." + t, [ec]))
  {
    var inner := "." + t;
    assert inner !in ReservedStems by {
      assert |inner| >= 2 && inner[1] == t[0];
    }
    PeelAtCompressor(inner, c, ec);
    PeelHiddenName(t);
    assert [] + [ec] == [ec];
  }

  /** `file.tar.zip` and the like: an archive token with a known token to its left is an error. */
  lemma PeelArchiveOverToken(stem: string, t: string, a: string, ea: Extension)
    requires stem != [] && stem[0] != '.' && '.' !in t && '.' !in a
    requires ToExtension(t).Some?
    requires ToExtension(a) == Some(ea) && ea.IsArchive()
    ensures Peel(stem + "." + t + "." + a).Err?
  {
    var inner := stem + "." + t;
    assert inner[0] == stem[0];
    NotReserved(stem);
    NotReserved(inner);
    SplitExtensionAtEndFinds(stem, t);
    PeelAtArchive(inner, a, ea);
  }

  /** `file.7z.zst.zip.lz4`: the error persists below further compressor tokens. */
  lemma PeelErrorPersists(name: string, c: string, ec: Extension)
    requires Peel(name).Err? && '.' !in c
    requires ToExtension(c) == Some(ec) && !ec.IsArchive()
    ensures Peel(name + "." + c).Err?
  {
    assert name !in ReservedStems;
    PeelAtCompressor(name, c, ec);
  }

  /** The non-empty `.`-separated segments of a `--format` value. */
  function FlagSegments(input: string): seq<string>
  {
    DropEmpty(Split(input, '.'))
  }

  /** Decode every segment, failing at the first unknown one. */
  function ToExtensions(segments: seq<string>): (r: Result<seq<Extension>>)
    ensures r.Ok? <==> forall i :: 0 <= i < |segments| ==> ToExtension(segments[i]).Some?
    ensures r.Ok? ==> |r.value| == |segments|
    ensures r.Ok? ==> forall i :: 0 <= i < |segments| ==> Some(r.value[i]) == ToExtension(segments[i])
  {
    if segments == [] then Ok([])
    else match ToExtension(segments[0])
      case None => Err
      case Some(e) =>
        match ToExtensions(segments[1..])
        case Err => Err
        case Ok(rest) => Ok([e] + rest)
  }

  /**
   * `parse_format_flag`: one extension per non-empty segment, left to right;
   * an unknown segment or no segment at all is an error.
   */
  function ParseFormatFlag(input: string): (r: Result<seq<Extension>>)
    ensures r.Ok? <==> (FlagSegments(input) != [] &&
      forall i :: 0 <= i < |FlagSegments(input)| ==> ToExtension(FlagSegments(input)[i]).Some?)
    ensures r.Ok? ==> |r.value| == |FlagSegments(input)| > 0
    ensures r.Ok? ==> forall i :: 0 <= i < |r.value| ==>
      r.value[i].displayText == FlagSegments(input)[i] && ToExtension(r.value[i].displayText) == Some(r.value[i])
  {
    match ToExtensions(FlagSegments(input))
    case Err => Err
    case Ok(exts) => if exts == [] then Err else Ok(exts)
  }

  /** The segments are the whole value minus its dots: joining all pieces gives it back. */
  lemma FlagSegmentsCover(input: string)
    ensures Join(Split(input, '.'), '.') == input
    ensures forall i :: 0 <= i < |FlagSegments(input)| ==> '.' !in FlagSegments(input)[i] && FlagSegments(input)[i] != []
  {
    JoinSplit(input, '.');
    DropEmptySub(Split(input, '.'));
  }

  lemma {:induction false} DropEmptySub(parts: seq<string>)
    requires forall i :: 0 <= i < |parts| ==> '.' !in parts[i]
    ensures forall i :: 0 <= i < |DropEmpty(parts)| ==> '.' !in DropEmpty(parts)[i]
  {
    if parts != [] {
      DropEmptySub(parts[1..]);
    }
  }

  /** Non-empty tokens without dots, joined with dots, are the segments again. */
  lemma FlagSegmentsOfJoin(tokens: seq<string>)
    requires |tokens| >= 1 && forall i :: 0 <= i < |tokens| ==> tokens[i] != [] && '.' !in tokens[i]
    ensures FlagSegments(Join(tokens, '.')) == tokens
  {
    SplitJoin(tokens, '.');
    DropEmptyExtremes(tokens);
  }

  /** `tar.gz` and the like: a dotted list of tokens is decoded token by token, left to right. */
  lemma ParseFormatFlagOfJoin(tokens: seq<string>)
    requires |tokens| >= 1 && forall i :: 0 <= i < |tokens| ==> tokens[i] != [] && '.' !in tokens[i]
    ensures ParseFormatFlag(Join(tokens, '.')) == ToExtensions(tokens)
  {
    FlagSegmentsOfJoin(tokens);
  }

  /** ``, `.`, `...`: a value with no segment is an error. */
  lemma ParseFormatFlagOnlyDots(input: string)
    requires forall i :: 0 <= i < |input| ==> input[i] == '.'
    ensures ParseFormatFlag(input).Err?
  {
    SplitOnlySeparators(input, '.');
    DropEmptyExtremes(Split(input, '.'));
  }

  /** A leading dot adds an empty segment, which is dropped. */
  lemma FlagSegmentsLeadingDot(a: string)
    ensures FlagSegments("." + a) == FlagSegments(a)
  {
    SplitAt("", '.', a);
    assert "" + ['.'] + a == "." + a;
    DropEmptyAppend([""], Split(a, '.'));
  }

  /** So does a trailing dot. */
  lemma FlagSegmentsTrailingDot(a: string)
    ensures FlagSegments(a + ".") == FlagSegments(a)
  {
    SplitAt(a, '.', "");
    assert a + ['.'] + "" == a + ".";
    DropEmptyAppend(Split(a, '.'), [""]);
    assert Split(a, '.') + [""] == Split(a, '.') + Split("", '.');
  }

  /** And a doubled dot. */
  lemma FlagSegmentsDoubledDot(a: string, b: string)
    ensures FlagSegments(a + ".." + b) == FlagSegments(a + "." + b)
  {
    SplitAt(a, '.', "." + b);
    assert a + ['.'] + ("." + b) == a + ".." + b;
    SplitAt("", '.', b);
    assert "" + ['.'] + b == "." + b;
    SplitAt(a, '.', b);
    assert a + ['.'] + b == a + "." + b;
    DropEmptyAppend(Split(a, '.'), [""] + Split(b, '.'));
    DropEmptyAppend([""], Split(b, '.'));
    DropEmptyAppend(Split(a, '.'), Split(b, '.'));
  }

  /** `..tar..gz.....` means `tar.gz`: extra dots anywhere do not change what the flag means. */
  lemma ParseFormatFlagIgnoresExtraDots(a: string, b: string)
    ensures ParseFormatFlag("." + a) == ParseFormatFlag(a)
    ensures ParseFormatFlag(a + ".") == ParseFormatFlag(a)
    ensures ParseFormatFlag(a + ".." + b) == ParseFormatFlag(a + "." + b)
  {
    FlagSegmentsLeadingDot(a);
    FlagSegmentsTrailingDot(a);
    FlagSegmentsDoubledDot(a, b);
  }

  /** The text up to the first dot, or all of it. */
  function Segment(s: string): (r: string)
    ensures |r| <= |s| && r == s[..|r|] && '.' !in r
    ensures |r| < |s| ==> s[|r|] == '.'
  {
    FirstIndexOfIsFirst(s, '.');
    match FirstIndexOf(s, '.')
    case Some(j) => s[..j]
    case None => s
  }

  // The scan for a dot is stated for any test `ok` of the segment after it;
  // `build_archive_file_suggestion` uses the test "is a listed token".

  /** A dot at `i` whose following segment, up to the next dot or the end, passes `ok`. */
  predicate DotBefore(path: string, i: int, ok: string -> bool)
  {
    0 <= i < |path| && path[i] == '.' && ok(Segment(path[i + 1..]))
  }

  /** The first such dot at or after `i`, scanning position by position. */
  function FirstDotFrom(path: string, i: nat, ok: string -> bool): (r: Option<nat>)
    ensures r.Some? ==> i <= r.value < |path|
    decreases |path| - i
  {
    if i >= |path| then None
    else if DotBefore(path, i, ok) then Some(i)
    else FirstDotFrom(path, i + 1, ok)
  }

  /** The scan finds the first such dot at or after `i`, and finds none only if there is none. */
  lemma {:induction false} FirstDotFromIsFirst(path: string, i: nat, ok: string -> bool)
    ensures var r := FirstDotFrom(path, i, ok);
      (r.Some? ==> i <= r.value && DotBefore(path, r.value, ok)) &&
      (r.Some? ==> forall k :: i <= k < r.value ==> !DotBefore(path, k, ok)) &&
      (r.None? ==> forall k :: i <= k < |path| ==> !DotBefore(path, k, ok))
    decreases |path| - i
  {
    if i < |path| && !DotBefore(path, i, ok) {
      FirstDotFromIsFirst(path, i + 1, ok);
      var r := FirstDotFrom(path, i + 1, ok);
      assert FirstDotFrom(path, i, ok) == r;
      var bound := if r.Some? then r.value else |path|;
      forall k | i <= k < bound
        ensures !DotBefore(path, k, ok)
      {
        if i < k {
          assert i + 1 <= k;
        }
      }
    }
  }

  /** A scan from `j` reaches the dot at `i` when no dot it stops at lies between. */
  lemma {:induction false} FirstDotReached(path: string, j: nat, i: nat, ok: string -> bool)
    requires j <= i && DotBefore(path, i, ok) && forall k :: j <= k < i ==> !DotBefore(path, k, ok)
    ensures FirstDotFrom(path, j, ok) == Some(i)
    decreases i - j
  {
    if j < i {
      FirstDotReached(path, j + 1, i, ok);
    }
  }

  /** A scan from `j` over no dot it stops at finds nothing. */
  lemma {:induction false} NoDotReached(path: string, j: nat, ok: string -> bool)
    requires forall k :: j <= k < |path| ==> !DotBefore(path, k, ok)
    ensures FirstDotFrom(path, j, ok).None?
    decreases |path| - j
  {
    if j < |path| {
      NoDotReached(path, j + 1, ok);
    }
  }

  /**
   * What `build_archive_file_suggestion` looks for: a dot at `i` whose
   * following segment is a listed token.
   */
  predicate SupportedDot(path: string, i: int)
  {
    DotBefore(path, i, IsSupportedToken)
  }

  /** `suggested` inserted just before the first dot whose segment passes `ok`; no such dot, nothing. */
  function SuggestionWith(path: string, suggested: string, ok: string -> bool): Option<string>
  {
    match FirstDotFrom(path, 0, ok)
    case None => None
    case Some(i) => Some(path[..i] + suggested + path[i..])
  }

  /**
   * The suggestion: `suggested` inserted just before the first supported
   * dot; no such dot, no suggestion.
   */
  function Suggestion(path: string, suggested: string): Option<string>
  {
    SuggestionWith(path, suggested, IsSupportedToken)
  }

  /** So the suggestion is made at the supported dot with none before it. */
  lemma SuggestionAt(path: string, i: nat, suggested: string)
    requires SupportedDot(path, i) && forall k :: 0 <= k < i ==> !SupportedDot(path, k)
    ensures Suggestion(path, suggested) == Some(path[..i] + suggested + path[i..])
  {
    forall k | 0 <= k < i
      ensures !DotBefore(path, k, IsSupportedToken)
    {
      assert !SupportedDot(path, k);
    }
    FirstDotReached(path, 0, i, IsSupportedToken);
  }

  /** Without a supported dot there is no suggestion. */
  lemma NoSuggestion(path: string, suggested: string)
    requires forall k :: 0 <= k < |path| ==> !SupportedDot(path, k)
    ensures Suggestion(path, suggested) == None
  {
    forall k | 0 <= k < |path|
      ensures !DotBefore(path, k, IsSupportedToken)
    {
      assert !SupportedDot(path, k);
    }
    NoDotReached(path, 0, IsSupportedToken);
  }

  /** A stretch without dots holds no dot the scan stops at, so it passes over it. */
  lemma {:induction false} ScanSkipsDotFree(path: string, start: nat, end: nat, ok: string -> bool)
    requires start <= end <= |path| && forall k :: start <= k < end ==> path[k] != '.'
    ensures FirstDotFrom(path, start, ok) == FirstDotFrom(path, end, ok)
    decreases end - start
  {
    if start < end {
      ScanSkipsDotFree(path, start + 1, end, ok);
    }
  }

  /**
   * One turn of the walk: the next dot lies at `start + pos`, and the scan
   * from `start` stops there exactly when the segment after it passes.
   */
  lemma ScanStep(path: string, start: nat, pos: nat, ok: string -> bool)
    requires start <= |path| && FirstIndexOf(path[start..], '.') == Some(pos)
    ensures start + pos < |path| && path[start..][pos + 1..] == path[start + pos + 1..]
    ensures FirstDotFrom(path, start, ok) ==
      if ok(Segment(path[start + pos + 1..])) then Some(start + pos)
      else FirstDotFrom(path, start + pos + 1, ok)
  {
    DotFreeBefore(path, start, pos);
    ScanSkipsDotFree(path, start, start + pos, ok);
  }

  /** The first dot of `path[start..]`, read in `path` itself. */
  lemma DotFreeBefore(path: string, start: nat, pos: nat)
    requires start <= |path| && FirstIndexOf(path[start..], '.') == Some(pos)
    ensures start + pos < |path| && path[start + pos] == '.'
    ensures path[start..][pos + 1..] == path[start + pos + 1..]
    ensures forall k :: start <= k < start + pos ==> path[k] != '.'
  {
    FirstIndexOfIsFirst(path[start..], '.');
    forall k | start <= k < start + pos
      ensures path[k] != '.'
    {
      assert path[k] == path[start..][k - start];
    }
  }

  /** With no dot left in `rest`, the scan from its start finds nothing. */
  lemma NoDotLeft(path: string, start: nat, ok: string -> bool)
    requires start <= |path| && FirstIndexOf(path[start..], '.').None?
    ensures FirstDotFrom(path, start, ok).None?
  {
    FirstIndexOfIsFirst(path[start..], '.');
    forall k | start <= k < |path|
      ensures path[k] != '.'
    {
      assert path[k] == path[start..][k - start];
    }
    ScanSkipsDotFree(path, start, |path|, ok);
  }

  /** The walk so far has passed no dot it stops at: the scan from `start` finds what the scan from 0 finds. */
  predicate ScanAgrees(path: string, start: nat, ok: string -> bool)
  {
    FirstDotFrom(path, 0, ok) == FirstDotFrom(path, start, ok)
  }

  /**
   * One turn of the walk of `build_archive_file_suggestion`: a segment
   * after the next dot that passes decides the suggestion, any other one
   * is passed over.
   */
  lemma WalkTurn(path: string, start: nat, pos: nat, suggested: string, ok: string -> bool)
    requires start <= |path| && FirstIndexOf(path[start..], '.') == Some(pos) && ScanAgrees(path, start, ok)
    ensures start + pos < |path| && path[start..][pos + 1..] == path[start + pos + 1..]
    ensures ok(Segment(path[start + pos + 1..])) ==>
      SuggestionWith(path, suggested, ok) == Some(path[..start + pos] + suggested + path[start + pos..])
    ensures !ok(Segment(path[start + pos + 1..])) ==> ScanAgrees(path, start + pos + 1, ok)
  {
    ScanStep(path, start, pos, ok);
  }

  /** The walk ran out of dots without stopping: nothing to suggest. */
  lemma WalkEnd(path: string, start: nat, suggested: string, ok: string -> bool)
    requires start <= |path| && FirstIndexOf(path[start..], '.').None? && ScanAgrees(path, start, ok)
    ensures SuggestionWith(path, suggested, ok).None?
  {
    NoDotLeft(path, start, ok);
  }

  /**
   * The loop of `build_archive_file_suggestion`, for any test of the
   * segment after a dot: from dot to dot, the first segment that passes
   * gets `suggested` inserted before its dot.
   */
  method SuggestBeforeFirstDot(path: string, suggested: string, ok: string -> bool) returns (r: Option<string>)
    ensures r == SuggestionWith(path, suggested, ok)
  {
    var rest := path;
    var positionToInsert: nat := 0;
    var found := FirstIndexOf(rest, '.');
    while found.Some?
      invariant positionToInsert <= |path| && rest == path[positionToInsert..]
      invariant found == FirstIndexOf(rest, '.')
      invariant ScanAgrees(path, positionToInsert, ok)
      decreases |rest|
    {
      var pos := found.value;
      WalkTurn(path, positionToInsert, pos, suggested, ok);
      rest := rest[pos + 1..];
      positionToInsert := positionToInsert + pos + 1;
      var maybeExtension := Segment(rest);
      if ok(maybeExtension) {
        return Some(path[..positionToInsert - 1] + suggested + path[positionToInsert - 1..]);
      }
      found := FirstIndexOf(rest, '.');
    }
    WalkEnd(path, positionToInsert, suggested, ok);
    return None;
  }

  /** `build_archive_file_suggestion`: the walk stops at a listed token. */
  method BuildArchiveFileSuggestion(path: string, suggested: string) returns (r: Option<string>)
    ensures r == Suggestion(path, suggested)
  {
    r := SuggestBeforeFirstDot(path, suggested, IsSupportedToken);
  }

  /** The segment of a token followed by nothing or by a dot is the token. */
  lemma SegmentUpToDot(t: string, more: string)
    requires '.' !in t && (more == [] || more[0] == '.')
    ensures Segment(t + more) == t
  {
    var s := t + more;
    FirstIndexOfIsFirst(s, '.');
    if more == [] {
      assert s == t;
    } else {
      assert s[|t|] == '.';
      assert forall k :: 0 <= k < |t| ==> s[k] == t[k];
    }
  }

  /** Inserting at the boundary of two parts puts the text between them. */
  lemma InsertBetween(a: string, b: string, x: string)
    ensures (a + b)[..|a|] + x + (a + b)[|a|..] == a + x + b
  {
    assert (a + b)[..|a|] == a && (a + b)[|a|..] == b;
  }

  /** Whatever follows a last segment, up to a dot, does not change it. */
  lemma SegmentBeforeDot(s: string, x: string)
    requires x == [] || x[0] == '.'
    ensures Segment(s + x) == Segment(s + ".")
  {
    FirstIndexOfIsFirst(s, '.');
    match FirstIndexOf(s, '.')
    case Some(j) =>
      var t, rest := s[..j], s[j..];
      assert s == t + rest && rest[0] == '.';
      assert s + x == t + (rest + x) && s + "." == t + (rest + ".");
      SegmentUpToDot(t, rest + x);
      SegmentUpToDot(t, rest + ".");
    case None =>
      SegmentUpToDot(s, x);
      SegmentUpToDot(s, ".");
  }

  /**
   * Whether a dot inside `pre` starts a listed token does not depend on
   * what follows `pre`, as long as that is nothing or begins with a dot.
   */
  lemma SupportedDotInPrefix(pre: string, x: string, k: nat)
    requires k < |pre| && (x == [] || x[0] == '.')
    ensures SupportedDot(pre + x, k) == SupportedDot(pre + ".", k)
  {
    assert (pre + x)[k] == pre[k] == (pre + ".")[k];
    assert (pre + x)[k + 1..] == pre[k + 1..] + x;
    assert (pre + ".")[k + 1..] == pre[k + 1..] + ".";
    SegmentBeforeDot(pre[k + 1..], x);
  }

  /** No dot of `pre` starts a listed token, whatever dotted text comes after `pre`. */
  predicate NoListedDot(pre: string)
  {
    forall k :: 0 <= k < |pre| ==> !SupportedDot(pre + ".", k)
  }

  /** A dot-free name holds no such dot. */
  lemma NoListedDotInStem(stem: string)
    requires '.' !in stem
    ensures NoListedDot(stem)
  {
    forall k | 0 <= k < |stem|
      ensures !SupportedDot(stem + ".", k)
    {
      assert (stem + ".")[k] == stem[k];
    }
  }

  /** An unknown token after a dot adds no such dot (`pkg` in `linux.pkg.zst`). */
  lemma NoListedDotAfterUnknown(pre: string, u: string)
    requires NoListedDot(pre) && '.' !in u && !IsSupportedToken(u)
    ensures NoListedDot(pre + "." + u)
  {
    var p := pre + "." + u;
    assert p + "." == pre + ("." + u + ".");
    assert (p + ".")[|pre| + 1..] == u + ".";
    SegmentUpToDot(u, ".");
    forall k | 0 <= k < |p|
      ensures !SupportedDot(p + ".", k)
    {
      if k < |pre| {
        SupportedDotInPrefix(pre, "." + u + ".", k);
      } else if k > |pre| {
        assert (p + ".")[k] == u[k - |pre| - 1];
      }
    }
  }

  /**
   * After such a prefix, a listed token gets the suggestion at its dot
   * (`linux.xz.gz.zst`, `linux.pkg.info.zst`).
   */
  lemma SuggestionAfterPrefix(pre: string, t: string, more: string, suggested: string)
    requires NoListedDot(pre) && '.' !in t && IsSupportedToken(t) && (more == [] || more[0] == '.')
    ensures Suggestion(pre + "." + t + more, suggested) == Some(pre + suggested + "." + t + more)
  {
    var tail := "." + t + more;
    assert pre + suggested + tail == pre + suggested + "." + t + more;
    var path := pre + "." + t + more;
    assert path == pre + tail;
    var i := |pre|;
    assert path[i] == '.';
    assert path[i + 1..] == t + more;
    SegmentUpToDot(t, more);
    forall k | 0 <= k < i
      ensures !SupportedDot(path, k)
    {
      SupportedDotInPrefix(pre, tail, k);
    }
    SuggestionAt(path, i, suggested);
    InsertBetween(pre, tail, suggested);
  }

  /** A name that is such a prefix gets no suggestion (`linux.png`). */
  lemma NoSuggestionForPrefix(pre: string, suggested: string)
    requires NoListedDot(pre)
    ensures Suggestion(pre, suggested).None?
  {
    forall k | 0 <= k < |pre|
      ensures !SupportedDot(pre, k)
    {
      assert pre + [] == pre;
      SupportedDotInPrefix(pre, [], k);
    }
    NoSuggestion(pre, suggested);
  }
}
