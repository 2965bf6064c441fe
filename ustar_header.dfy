/** What the scanner does with one 512-byte block: the end-of-archive test,
    the header checksum, the content padding and the decoding of a header
    into an entry. */
module UstarHeader {
  import opened UstarOctal

  const BlockSize: nat := 512

  /** ustar header layout (byte offsets inside a header block). */
  const NameOffset: nat := 0
  const ModeOffset: nat := 100
  const ModeWidth: nat := 8
  const SizeOffset: nat := 124
  const SizeWidth: nat := 12
  const ChecksumOffset: nat := 148
  const ChecksumWidth: nat := 8
  const ChecksumEnd: nat := ChecksumOffset + ChecksumWidth
  const TypeOffset: nat := 156
  const LinkOffset: nat := 157

  /** ASCII space: what each checksum byte counts as while summing. */
  const Space: Byte := 0x20
  /** ustar type flags LNKTYPE ('1') and SYMTYPE ('2'). */
  const HardLinkType: Byte := 0x31
  const SymLinkType: Byte := 0x32

  datatype Option<T> = None | Some(value: T)

  // ---------------------------------------------------------------------
  // End of archive

  predicate AllZero(block: seq<Byte>) {
    forall k :: 0 <= k < |block| ==> block[k] == 0
  }

  /** is_end_of_archive: scans the block from its last byte down to its first. */
  method IsEndOfArchive(p: seq<Byte>) returns (r: bool)
    requires |p| == BlockSize
    ensures r <==> AllZero(p)
  {
    var n: int := 511;
    while n >= 0
      invariant -1 <= n <= 511
      invariant forall k :: n < k < BlockSize ==> p[k] == 0
    {
      if p[n] != 0 {
        return false;
      }
      n := n - 1;
    }
    return true;
  }

  // ---------------------------------------------------------------------
  // Checksum

  predicate InChecksumField(k: int) {
    ChecksumOffset <= k < ChecksumEnd
  }

  /** What byte `k` contributes to the header sum. */
  function CountedByte(block: seq<Byte>, k: nat): Byte
    requires k < |block|
  {
    if InChecksumField(k) then Space else block[k]
  }

  /** The header sum over bytes `0 .. k-1`. */
  function SumPrefix(block: seq<Byte>, k: nat): nat
    requires k <= |block|
  {
    if k == 0 then 0 else SumPrefix(block, k - 1) + CountedByte(block, k - 1)
  }

  function HeaderSum(block: seq<Byte>): nat
    requires |block| == BlockSize
  {
    SumPrefix(block, BlockSize)
  }

  /** The checksum the header claims, read as octal from its own field. */
  function StoredChecksum(block: seq<Byte>): nat
    requires |block| == BlockSize
  {
    ParseOctal(block[ChecksumOffset..ChecksumEnd])
  }

  predicate ChecksumOk(block: seq<Byte>)
    requires |block| == BlockSize
  {
    HeaderSum(block) == StoredChecksum(block)
  }

  /** verify_checksum: adds the unsigned bytes, counting the checksum field
      as spaces, and compares with the octal value in that field. */
  method VerifyChecksum(p: seq<Byte>) returns (ok: bool)
    requires |p| == BlockSize
    ensures ok <==> ChecksumOk(p)
  {
    var u: nat := 0;
    for n := 0 to BlockSize
      invariant u == SumPrefix(p, n)
    {
      if n < ChecksumOffset || n > ChecksumOffset + ChecksumWidth - 1 {
        u := u + p[n];
      } else {
        u := u + Space;
      }
    }
    var stored := ParseOct(p, ChecksumOffset, ChecksumWidth);
    ok := u == stored;
  }

  /** Plain sum of bytes: the reference the header sum is compared with. */
  function ByteSum(s: seq<Byte>): nat
  {
    if s == [] then 0 else ByteSum(s[..|s| - 1]) + s[|s| - 1]
  }

  lemma {:induction false} SumPrefixSplit(b: seq<Byte>, k: nat)
    requires |b| == BlockSize && k <= BlockSize
    ensures k <= ChecksumOffset ==> SumPrefix(b, k) == ByteSum(b[..k])
    ensures ChecksumOffset < k <= ChecksumEnd ==> SumPrefix(b, k) == ByteSum(b[..ChecksumOffset]) + (k - ChecksumOffset) * Space
    ensures ChecksumEnd < k ==> SumPrefix(b, k) == ByteSum(b[..ChecksumOffset]) + ChecksumWidth * Space + ByteSum(b[ChecksumEnd..k])
  {
    if k > 0 {
      SumPrefixSplit(b, k - 1);
      if k <= ChecksumOffset {
        assert b[..k][..k - 1] == b[..k - 1];
      } else if k == ChecksumEnd + 1 {
        assert b[ChecksumEnd..k][..0] == [];
      } else if k > ChecksumEnd + 1 {
        assert b[ChecksumEnd..k][..k - (ChecksumEnd + 1)] == b[ChecksumEnd..k - 1];
      }
    }
  }

  /** The header sum is the sum of every byte outside the checksum field plus
      eight spaces. */
  lemma HeaderSumOutsideField(b: seq<Byte>)
    requires |b| == BlockSize
    ensures HeaderSum(b) == ByteSum(b[..ChecksumOffset]) + ChecksumWidth * Space
                            + ByteSum(b[ChecksumEnd..])
  {
    SumPrefixSplit(b, BlockSize);
    assert b[ChecksumEnd..BlockSize] == b[ChecksumEnd..];
  }

  /** The bytes stored in the checksum field do not affect the header sum. */
  lemma HeaderSumIgnoresChecksumField(b: seq<Byte>, c: seq<Byte>)
    requires |b| == BlockSize && |c| == BlockSize
    requires forall k :: 0 <= k < BlockSize && !InChecksumField(k) ==> b[k] == c[k]
    ensures HeaderSum(b) == HeaderSum(c)
  {
    HeaderSumOutsideField(b);
    HeaderSumOutsideField(c);
    assert b[..ChecksumOffset] == c[..ChecksumOffset];
    assert b[ChecksumEnd..] == c[ChecksumEnd..];
  }

  lemma {:induction false} SumPrefixBound(b: seq<Byte>, k: nat)
    requires k <= |b|
    ensures SumPrefix(b, k) <= 255 * k
  {
    if k > 0 {
      SumPrefixBound(b, k - 1);
    }
  }

  /** Changing one byte outside the checksum field by `x - b[i]` shifts the
      header sum by the same amount. */
  lemma {:induction false} SumPrefixUpdate(b: seq<Byte>, i: nat, x: Byte, k: nat)
    requires i < |b| && !InChecksumField(i) && k <= |b|
    ensures SumPrefix(b[i := x], k) == SumPrefix(b, k) + (if i < k then x - b[i] else 0)
  {
    if k > 0 {
      SumPrefixUpdate(b, i, x, k - 1);
    }
  }

  /** A valid header with one byte outside the checksum field changed no
      longer passes the checksum test. */
  lemma ChecksumDetectsByteChange(b: seq<Byte>, i: nat, x: Byte)
    requires |b| == BlockSize && ChecksumOk(b)
    requires i < BlockSize && !InChecksumField(i) && x != b[i]
    ensures !ChecksumOk(b[i := x])
  {
    SumPrefixUpdate(b, i, x, BlockSize);
    assert b[i := x][ChecksumOffset..ChecksumEnd] == b[ChecksumOffset..ChecksumEnd];
  }

  /** A block with its checksum field filled in the way tar writers do it:
      six octal digits, a NUL and a space. */
  function WithChecksum(b: seq<Byte>): (r: seq<Byte>)
    requires |b| == BlockSize
    ensures |r| == BlockSize
  {
    b[..ChecksumOffset] + FormatOctal(HeaderSum(b), 6) + [0, Space] + b[ChecksumEnd..]
  }

  /** Any header whose checksum field is filled in by WithChecksum passes the
      checksum test, keeps every other byte, and is never an end-of-archive
      block. */
  lemma WithChecksumPasses(b: seq<Byte>)
    requires |b| == BlockSize
    ensures ChecksumOk(WithChecksum(b))
    ensures forall k :: 0 <= k < BlockSize && !InChecksumField(k) ==> WithChecksum(b)[k] == b[k]
    ensures !AllZero(WithChecksum(b))
  {
    var r := WithChecksum(b);
    var field := FormatOctal(HeaderSum(b), 6);
    assert r[ChecksumOffset..ChecksumEnd] == field + [0, Space];
    forall k | 0 <= k < BlockSize && !InChecksumField(k) ensures r[k] == b[k] {
      if k >= ChecksumEnd {
        assert r[k] == b[ChecksumEnd..][k - ChecksumEnd];
      }
    }
    HeaderSumIgnoresChecksumField(b, r);
    SumPrefixBound(b, BlockSize);
    assert Pow8(6) == 262144;
    ParseOctalRoundTrip([], HeaderSum(b), 6, [0, Space]);
    assert [] + field + [0, Space] == field + [0, Space];
    assert r[ChecksumOffset] == field[0];
  }

  // ---------------------------------------------------------------------
  // Content padding

  predicate IsBlockMultiple(m: nat) {
    m % BlockSize == 0
  }

  /** The size rounded up to whole 512-byte blocks. */
  function PaddedSize(size: nat): (padded: nat)
    ensures IsBlockMultiple(padded)
    ensures size <= padded < size + BlockSize
  {
    if size % BlockSize == 0 then size else (size / BlockSize + 1) * BlockSize
  }

  /** PaddedSize is the least multiple of 512 that holds `size` bytes. */
  lemma PaddedSizeIsLeast(size: nat, m: nat)
    requires IsBlockMultiple(m) && size <= m
    ensures PaddedSize(size) <= m
  {
  }

  lemma PaddedSizeExamples()
    ensures PaddedSize(0) == 0 && PaddedSize(1) == 512
    ensures PaddedSize(512) == 512 && PaddedSize(513) == 1024
    ensures PaddedSize(1000) == 1024
  {
  }

  /** `size_t` on LP64 targets: the type of `filesize`, and so of the
      advance past a header's content. */
  const SizeTModulus: int := 0x1_0000_0000_0000_0000

  /** A size field of octal 37777777000 (2^32 - 512 bytes) comes out of the
      int accumulator as -512. Stored in the `size_t` `filesize` that is
      2^64 - 512, already a multiple of 512, so rounding it up leaves it as
      it is and the advance 512 + padded size is 0 modulo 2^64: the scan
      comes back to the header it has just read. */
  lemma SizeFieldRereadsHeader()
    ensures ParseOctalInt32(NegativeSizeField) + SizeTModulus == SizeTModulus - 512
    ensures PaddedSize(SizeTModulus - 512) == SizeTModulus - 512
    ensures (BlockSize + PaddedSize(SizeTModulus - 512)) % SizeTModulus == 0
  {
    SizeFieldWrapsNegative();
    ModBlockUnique(SizeTModulus - 512, 0x7F_FFFF_FFFF_FFFF, 0);
    ModSizeTUnique(SizeTModulus, 1, 0);
  }

  /** Euclidean remainders by 512 and by 2^64 are determined by any decomposition. */
  lemma ModBlockUnique(y: int, q: int, m: int)
    requires y == q * BlockSize + m && 0 <= m < BlockSize
    ensures y % BlockSize == m
  {
  }

  lemma ModSizeTUnique(y: int, q: int, m: int)
    requires y == q * SizeTModulus + m && 0 <= m < SizeTModulus
    ensures y % SizeTModulus == m
  {
  }

  // ---------------------------------------------------------------------
  // Header decoding

  /** One entry found by the scan. `path` and `linkPath` are raw bytes. */
  datatype Entry = Entry(
    path: seq<Byte>,
    entryType: Byte,
    linkPath: Option<seq<Byte>>,
    headerStart: nat,
    readPosition: nat,
    size: nat,
    mode: nat)

  predicate IsLinkType(t: Byte) {
    t == HardLinkType || t == SymLinkType
  }

  /** The zero-terminated string starting at `off` (what strdup copies). The
      source does not confine the copy to the ustar field width: the name may
      run on past byte 99 and the link name past byte 256. Here the copy stops
      at the first zero byte or at the end of the block, whichever is first. */
  function CString(s: seq<Byte>, off: nat): seq<Byte>
    requires off <= |s|
    decreases |s| - off
  {
    if off == |s| || s[off] == 0 then [] else [s[off]] + CString(s, off + 1)
  }

  /** CString is the run of non-zero bytes at `off`: it is followed by a zero
      byte or by the end of the block. */
  lemma {:induction false} CStringIsTerminated(s: seq<Byte>, off: nat)
    requires off <= |s|
    ensures off + |CString(s, off)| <= |s|
    ensures CString(s, off) == s[off..off + |CString(s, off)|]
    ensures forall k :: 0 <= k < |CString(s, off)| ==> CString(s, off)[k] != 0
    ensures off + |CString(s, off)| == |s| || s[off + |CString(s, off)|] == 0
    decreases |s| - off
  {
    if off < |s| && s[off] != 0 {
      CStringIsTerminated(s, off + 1);
    }
  }

  /** The entry a checksum-valid header block at `position` describes. */
  function DecodeHeader(block: seq<Byte>, position: nat): Entry
    requires |block| == BlockSize
  {
    var t := block[TypeOffset];
    Entry(
      CString(block, NameOffset),
      t,
      if IsLinkType(t) then Some(CString(block, LinkOffset)) else None,
      position,
      0,
      ParseOctal(block[SizeOffset..SizeOffset + SizeWidth]),
      ParseOctal(block[ModeOffset..ModeOffset + ModeWidth]))
  }

  /** What a decoded entry holds: the numeric fields read as octal from their
      ustar fields, the raw type byte, a link name exactly for hard links and
      symbolic links, the zero-terminated name from byte 0, the given offset
      and a read position of 0. */
  lemma DecodeHeaderFields(block: seq<Byte>, position: nat)
    requires |block| == BlockSize
    ensures var e := DecodeHeader(block, position);
      && e.headerStart == position && e.readPosition == 0
      && e.size == ParseOctal(block[SizeOffset..SizeOffset + SizeWidth])
      && e.mode == ParseOctal(block[ModeOffset..ModeOffset + ModeWidth])
      && e.entryType == block[TypeOffset]
      && (e.linkPath.Some? <==> (e.entryType == HardLinkType || e.entryType == SymLinkType))
      && |e.path| <= BlockSize && e.path == block[..|e.path|]
      && (forall k :: 0 <= k < |e.path| ==> e.path[k] != 0)
      && (|e.path| == BlockSize || block[|e.path|] == 0)
      && (e.linkPath.Some? ==>
            var l := e.linkPath.value;
            && LinkOffset + |l| <= BlockSize && l == block[LinkOffset..LinkOffset + |l|]
            && (forall k :: 0 <= k < |l| ==> l[k] != 0)
            && (LinkOffset + |l| == BlockSize || block[LinkOffset + |l|] == 0))
  {
    CStringIsTerminated(block, NameOffset);
    CStringIsTerminated(block, LinkOffset);
  }

  /** The header fields of the block ltar_entries has just read and checked,
      as the loop body of ltar_entries decodes them. */
  method ReadHeader(buff: seq<Byte>, position: nat) returns (entry: Entry)
    requires |buff| == BlockSize
    ensures entry == DecodeHeader(buff, position)
  {
    var fileSize := ParseOct(buff, SizeOffset, SizeWidth);
    var entryType := buff[TypeOffset];
    var linkPath := if IsLinkType(entryType) then Some(CString(buff, LinkOffset)) else None;
    var mode := ParseOct(buff, ModeOffset, ModeWidth);
    entry := Entry(CString(buff, NameOffset), entryType, linkPath, position, 0, fileSize, mode);
  }
}
