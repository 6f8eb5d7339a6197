/**
 * Guessing the format of a file from its first bytes (`try_infer_extension`
 * in src/utils/fs.rs): the file's first read lands in a 270-byte buffer of
 * zeros, and thirteen signature tests are tried in a fixed order, the first
 * that holds deciding the single-format extension returned.
 */
module Sniff {
  import opened Wrappers
  import opened Extensions

  /** The size of the buffer the first read fills. */
  const BufferSize: nat := 270

  function Zeros(n: nat): (r: seq<bv8>)
    ensures |r| == n && forall i :: 0 <= i < n ==> r[i] == 0
  {
    seq(n, i => 0)
  }

  type SniffBuffer = b: seq<bv8> | |b| == BufferSize witness Zeros(BufferSize)

  /**
   * The buffer after one `read` into `[0; 270]`: the bytes the read
   * delivered, at most 270 of them, and zeros after them.
   */
  function Buffer(delivered: seq<bv8>): (buf: SniffBuffer)
    ensures forall i :: 0 <= i < |delivered| && i < BufferSize ==> buf[i] == delivered[i]
    ensures forall i :: |delivered| <= i < BufferSize ==> buf[i] == 0
  {
    if |delivered| >= BufferSize then delivered[..BufferSize] else delivered + Zeros(BufferSize - |delivered|)
  }

  /** `<[u8]>::starts_with`. */
  predicate StartsWith(buf: seq<bv8>, prefix: seq<bv8>)
  {
    |prefix| <= |buf| && buf[..|prefix|] == prefix
  }

  // The signature tests, with the length guards of the source kept although
  // the buffer always holds 270 bytes.

  predicate IsZip(buf: SniffBuffer)
  {
    |buf| >= 3 && buf[..2] == [0x50, 0x4B] &&
    (buf[2..4] == [0x03, 0x04] || buf[2..4] == [0x05, 0x06] || buf[2..4] == [0x07, 0x08])
  }

  /** The text `ustar` as bytes. */
  const Ustar: seq<bv8> := [0x75, 0x73, 0x74, 0x61, 0x72]

  predicate IsTar(buf: SniffBuffer)
  {
    |buf| > 261 && buf[257..262] == Ustar
  }

  predicate IsGz(buf: SniffBuffer)
  {
    StartsWith(buf, [0x1F, 0x8B, 0x08])
  }

  predicate IsBz2(buf: SniffBuffer)
  {
    StartsWith(buf, [0x42, 0x5A, 0x68])
  }

  /** The text `BZ3v1` as bytes. */
  predicate IsBz3(buf: SniffBuffer)
  {
    StartsWith(buf, [0x42, 0x5A, 0x33, 0x76, 0x31])
  }

  predicate IsLzma(buf: SniffBuffer)
  {
    |buf| >= 14 && buf[0] == 0x5D && (buf[12] == 0x00 || buf[12] == 0xFF) && buf[13] == 0x00
  }

  predicate IsXz(buf: SniffBuffer)
  {
    StartsWith(buf, [0xFD, 0x37, 0x7A, 0x58, 0x5A, 0x00])
  }

  predicate IsLzip(buf: SniffBuffer)
  {
    StartsWith(buf, [0x4C, 0x5A, 0x49, 0x50])
  }

  predicate IsLz4(buf: SniffBuffer)
  {
    StartsWith(buf, [0x04, 0x22, 0x4D, 0x18])
  }

  predicate IsSz(buf: SniffBuffer)
  {
    StartsWith(buf, [0xFF, 0x06, 0x00, 0x00, 0x73, 0x4E, 0x61, 0x50, 0x70, 0x59])
  }

  predicate IsZst(buf: SniffBuffer)
  {
    StartsWith(buf, [0x28, 0xB5, 0x2F, 0xFD])
  }

  /** The first six bytes shared by both RAR signatures. */
  const RarPrefix: seq<bv8> := [0x52, 0x61, 0x72, 0x21, 0x1A, 0x07]

  predicate IsRar(buf: SniffBuffer)
  {
    |buf| >= 7 && StartsWith(buf, RarPrefix) && (buf[6] == 0x00 || (|buf| >= 8 && buf[6..8] == [0x01, 0x00]))
  }

  predicate IsSevenZ(buf: SniffBuffer)
  {
    StartsWith(buf, [0x37, 0x7A, 0xBC, 0xAF, 0x27, 0x1C])
  }

  /** The extension the sniffer reports for one format. */
  function Single(f: CompressionFormat, text: string): (e: Extension)
    ensures e.compressionFormats == [f] && e.displayText == text
  {
    NewExtension([f], text)
  }

  /** The chain of tests of `try_infer_extension`, first match wins. */
  function Classify(buf: SniffBuffer): Option<Extension>
  {
    if IsZip(buf) then Some(Single(Zip, "zip"))
    else if IsTar(buf) then Some(Single(Tar, "tar"))
    else if IsGz(buf) then Some(Single(Gzip, "gz"))
    else if IsBz2(buf) then Some(Single(Bzip, "bz2"))
    else if IsBz3(buf) then Some(Single(Bzip3, "bz3"))
    else if IsLzma(buf) then Some(Single(Lzma, "lzma"))
    else if IsXz(buf) then Some(Single(Xz, "xz"))
    else if IsLzip(buf) then Some(Single(Lzip, "lzip"))
    else if IsLz4(buf) then Some(Single(Lz4, "lz4"))
    else if IsSz(buf) then Some(Single(Snappy, "sz"))
    else if IsZst(buf) then Some(Single(Zstd, "zst"))
    else if IsRar(buf) then Some(Single(Rar, "rar"))
    else if IsSevenZ(buf) then Some(Single(SevenZip, "7z"))
    else None
  }

  /**
   * `try_infer_extension`: a file that cannot be opened gives nothing;
   * otherwise the buffer after the first read is classified. A failed read
   * is not checked and leaves the buffer as zeros, which `delivered == []`
   * stands for.
   */
  function TryInferExtension(openable: bool, delivered: seq<bv8>): Option<Extension>
  {
    if openable then Classify(Buffer(delivered)) else None
  }

  // A reference for the chain: the tests as a numbered table, scanned in order.

  /** The number of signature tests. */
  const SignatureCount: nat := 13

  /** The answer of test number `k` of the table. */
  function Answer(k: nat): Extension
    requires k < SignatureCount
  {
    match k
    case 0 => Single(Zip, "zip")
    case 1 => Single(Tar, "tar")
    case 2 => Single(Gzip, "gz")
    case 3 => Single(Bzip, "bz2")
    case 4 => Single(Bzip3, "bz3")
    case 5 => Single(Lzma, "lzma")
    case 6 => Single(Xz, "xz")
    case 7 => Single(Lzip, "lzip")
    case 8 => Single(Lz4, "lz4")
    case 9 => Single(Snappy, "sz")
    case 10 => Single(Zstd, "zst")
    case 11 => Single(Rar, "rar")
    case 12 => Single(SevenZip, "7z")
  }

  /** Test number `i` of the table. */
  predicate Matches(i: nat, buf: SniffBuffer)
  {
    match i
    case 0 => IsZip(buf)
    case 1 => IsTar(buf)
    case 2 => IsGz(buf)
    case 3 => IsBz2(buf)
    case 4 => IsBz3(buf)
    case 5 => IsLzma(buf)
    case 6 => IsXz(buf)
    case 7 => IsLzip(buf)
    case 8 => IsLz4(buf)
    case 9 => IsSz(buf)
    case 10 => IsZst(buf)
    case 11 => IsRar(buf)
    case 12 => IsSevenZ(buf)
    case _ => false
  }

  /** The number of the first test from `i` on that holds, or `SignatureCount` when none does. */
  function FirstMatchFrom(i: nat, buf: SniffBuffer): (k: nat)
    requires i <= SignatureCount
    ensures i <= k <= SignatureCount
    decreases SignatureCount - i
  {
    if i == SignatureCount then SignatureCount
    else if Matches(i, buf) then i
    else FirstMatchFrom(i + 1, buf)
  }

  /** The answer of the table for the number of a test, nothing past the last. */
  function AnswerAt(k: nat): (r: Option<Extension>)
    ensures r.Some? <==> k < SignatureCount
  {
    if k < SignatureCount then Some(Answer(k)) else None
  }

  /** The scan stops at a test that holds, after tests that all fail. */
  lemma {:induction false} FirstMatchFromIsFirst(i: nat, buf: SniffBuffer)
    requires i <= SignatureCount
    ensures FirstMatchFrom(i, buf) < SignatureCount ==> Matches(FirstMatchFrom(i, buf), buf)
    ensures forall l :: i <= l < FirstMatchFrom(i, buf) ==> !Matches(l, buf)
    decreases SignatureCount - i
  {
    if i < SignatureCount && !Matches(i, buf) {
      FirstMatchFromIsFirst(i + 1, buf);
    }
  }

  /** The chain of `try_infer_extension` gives the table's answer for the first test that holds. */
  lemma ClassifyIsFirstMatch(buf: SniffBuffer)
    ensures Classify(buf) == AnswerAt(FirstMatchFrom(0, buf))
  {
    assert FirstMatchFrom(0, buf) == if IsZip(buf) then 0 else FirstMatchFrom(1, buf);
    assert FirstMatchFrom(1, buf) == if IsTar(buf) then 1 else FirstMatchFrom(2, buf);
    assert FirstMatchFrom(2, buf) == if IsGz(buf) then 2 else FirstMatchFrom(3, buf);
    assert FirstMatchFrom(3, buf) == if IsBz2(buf) then 3 else FirstMatchFrom(4, buf);
    assert FirstMatchFrom(4, buf) == if IsBz3(buf) then 4 else FirstMatchFrom(5, buf);
    assert FirstMatchFrom(5, buf) == if IsLzma(buf) then 5 else FirstMatchFrom(6, buf);
    assert FirstMatchFrom(6, buf) == if IsXz(buf) then 6 else FirstMatchFrom(7, buf);
    assert FirstMatchFrom(7, buf) == if IsLzip(buf) then 7 else FirstMatchFrom(8, buf);
    assert FirstMatchFrom(8, buf) == if IsLz4(buf) then 8 else FirstMatchFrom(9, buf);
    assert FirstMatchFrom(9, buf) == if IsSz(buf) then 9 else FirstMatchFrom(10, buf);
    assert FirstMatchFrom(10, buf) == if IsZst(buf) then 10 else FirstMatchFrom(11, buf);
    assert FirstMatchFrom(11, buf) == if IsRar(buf) then 11 else FirstMatchFrom(12, buf);
    assert FirstMatchFrom(12, buf) == if IsSevenZ(buf) then 12 else FirstMatchFrom(13, buf);
  }

  /** Different tests give different answers: each names a different format. */
  lemma AnswersDistinct(i: nat, j: nat)
    requires i < SignatureCount && j < SignatureCount && Answer(i) == Answer(j)
    ensures i == j
  {
    assert Answer(i).compressionFormats[0] == Answer(j).compressionFormats[0];
  }

  /**
   * First match wins: the sniffer answers with test `j` exactly when test
   * `j` holds and no earlier one does, and answers nothing exactly when no
   * test holds.
   */
  lemma ClassifyFirstMatchWins(buf: SniffBuffer, j: nat)
    requires j < SignatureCount
    ensures Classify(buf) == Some(Answer(j)) <==> Matches(j, buf) && forall l :: 0 <= l < j ==> !Matches(l, buf)
    ensures Classify(buf).None? <==> forall l :: 0 <= l < SignatureCount ==> !Matches(l, buf)
  {
    ClassifyIsFirstMatch(buf);
    FirstMatchFromIsFirst(0, buf);
    var k := FirstMatchFrom(0, buf);
    if Classify(buf) == Some(Answer(j)) {
      AnswersDistinct(k, j);
    }
    if Matches(j, buf) && forall l :: 0 <= l < j ==> !Matches(l, buf) {
      assert !(k < j) && !(j < k);
    }
  }

  /**
   * Every answer is one format, never an archive with a compressor, and its
   * display text is the catalog token of that format, except for lzip,
   * whose text `lzip` the catalog does not know (it knows `lz`).
   */
  lemma ClassifyAnswers(buf: SniffBuffer)
    ensures Classify(buf).Some? ==> |Classify(buf).value.compressionFormats| == 1
    ensures Classify(buf).Some? && Classify(buf).value.compressionFormats != [Lzip] ==>
      ToExtension(Classify(buf).value.displayText) == Classify(buf)
    ensures Classify(buf).Some? && Classify(buf).value.compressionFormats == [Lzip] ==>
      Classify(buf).value.displayText == "lzip" && ToExtension("lzip").None? && ToExtension("lz") == Some(Single(Lzip, "lz"))
    ensures Classify(buf).Some? ==> Classify(buf).value.compressionFormats[0] != Brotli
  {
    ClassifyIsFirstMatch(buf);
    if Classify(buf).Some? {
      AnswerFacts(FirstMatchFrom(0, buf));
    }
  }

  /** What `ClassifyAnswers` states, for one entry of the table. */
  lemma AnswerFacts(k: nat)
    requires k < SignatureCount
    ensures |Answer(k).compressionFormats| == 1 && Answer(k).compressionFormats[0] != Brotli
    ensures Answer(k).compressionFormats != [Lzip] ==> ToExtension(Answer(k).displayText) == Some(Answer(k))
    ensures Answer(k).compressionFormats == [Lzip] ==>
      Answer(k).displayText == "lzip" && ToExtension("lzip").None? && ToExtension("lz") == Some(Single(Lzip, "lz"))
  {
  }

  /** The tar test looks only at the five bytes after offset 257, which must spell `ustar`. */
  lemma TarSignature(buf: SniffBuffer)
    ensures IsTar(buf) <==> forall i :: 0 <= i < 5 ==> buf[257 + i] == ("ustar"[i] as int) as bv8
  {
    assert forall i :: 0 <= i < 5 ==> Ustar[i] == ("ustar"[i] as int) as bv8;
    if forall i :: 0 <= i < 5 ==> buf[257 + i] == ("ustar"[i] as int) as bv8 {
      assert buf[257..262] == Ustar;
    }
  }

  /** The lzma test: byte 0 is 0x5D and byte 13 is zero, byte 12 is 0x00 or 0xFF. */
  lemma LzmaSignature(buf: SniffBuffer)
    ensures IsLzma(buf) <==> buf[0] == 0x5D && buf[12] in {0x00, 0xFF} && buf[13] == 0x00
  {
  }

  /** The two RAR signatures, of versions 1.5 to 4.x and of version 5. */
  const Rar4Signature: seq<bv8> := [0x52, 0x61, 0x72, 0x21, 0x1A, 0x07, 0x00]
  const Rar5Signature: seq<bv8> := [0x52, 0x61, 0x72, 0x21, 0x1A, 0x07, 0x01, 0x00]

  /** The rar test accepts exactly the buffers that begin with one of the two RAR signatures. */
  lemma RarSignatures(buf: SniffBuffer)
    ensures IsRar(buf) <==> StartsWith(buf, Rar4Signature) || StartsWith(buf, Rar5Signature)
  {
    assert Rar4Signature == RarPrefix + [0x00];
    assert Rar5Signature == RarPrefix + [0x01, 0x00];
    if StartsWith(buf, RarPrefix) {
      assert buf[..7] == buf[..6] + [buf[6]];
      assert buf[..8] == buf[..6] + buf[6..8];
    }
    if StartsWith(buf, Rar4Signature) {
      assert buf[..6] == buf[..7][..6];
    }
    if StartsWith(buf, Rar5Signature) {
      assert buf[..6] == buf[..8][..6];
    }
  }

  /** A delivery that stops at or before offset 257 cannot be taken for tar. */
  lemma ShortReadIsNotTar(delivered: seq<bv8>)
    requires |delivered| <= 257
    ensures !IsTar(Buffer(delivered))
  {
    assert Buffer(delivered)[257] == 0;
  }

  /** A buffer of zeros matches no signature. */
  lemma ZerosMatchNothing()
    ensures Classify(Zeros(BufferSize)).None?
  {
    var z := Zeros(BufferSize);
    assert forall n :: 0 < n <= |z| ==> z[..n][0] == 0;
    assert z[257..262][0] == 0;
  }

  /**
   * A file that cannot be opened, or whose first read delivers nothing,
   * leaves the format unknown.
   */
  lemma NothingReadIsUnknown(openable: bool, delivered: seq<bv8>)
    requires !openable || delivered == []
    ensures TryInferExtension(openable, delivered).None?
  {
    if openable {
      assert Buffer(delivered) == Zeros(BufferSize);
      ZerosMatchNothing();
    }
  }

  /**
   * The padding is invisible: a delivery and the same delivery followed by
   * zeros are classified alike.
   */
  lemma TrailingZerosDoNotMatter(delivered: seq<bv8>, n: nat)
    ensures TryInferExtension(true, delivered + Zeros(n)) == TryInferExtension(true, delivered)
  {
    var a := Buffer(delivered + Zeros(n));
    var b := Buffer(delivered);
    forall i | 0 <= i < BufferSize
      ensures a[i] == b[i]
    {
      if i < |delivered| {
        assert (delivered + Zeros(n))[i] == delivered[i];
      } else if i < |delivered| + n {
        assert (delivered + Zeros(n))[i] == 0;
      }
    }
    assert a == b;
  }
}
