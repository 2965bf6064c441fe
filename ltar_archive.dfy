/** The archive handle and its scan (ltar_entries, ltar_close).

    The underlying FILE is a Stream: an immutable byte sequence with a read
    cursor. Reading takes up to `count` bytes from the cursor (fewer near the
    end, none past it); seeking forward moves the cursor and may move it past
    the end, after which every read is short. */
module LtarArchive {
  import opened UstarOctal
  import opened UstarHeader

  datatype Result<T, E> = Success(value: T) | Failure(error: E)

  /** Why a scan gives no entry list. */
  datatype ScanError =
    | ArchiveClosed                        // "archive is closed"
    | ShortRead(path: string, got: nat)    // "Short read on <path>: expected 512, got <got>"
    | ChecksumFailure                      // "Checksum failure"

  function Min(a: nat, b: nat): nat {
    if a <= b then a else b
  }

  /** The bytes a read of `count` bytes at cursor `at` returns. */
  function Chunk(data: seq<Byte>, at: nat, count: nat): (r: seq<Byte>)
    ensures |r| == if at < |data| then Min(count, |data| - at) else 0
    ensures at < |data| ==> r == data[at..at + |r|]
    ensures at + count <= |data| ==> r == data[at..at + count]
  {
    if at < |data| then data[at..Min(at + count, |data|)] else []
  }

  /** The outcome of a scan and the stream cursor it leaves behind. */
  datatype Scanned = Scanned(result: Result<seq<Entry>, ScanError>, cursor: nat)

  /** What one turn of the loop found: a reason to stop, the end block, or a header. */
  datatype Turn = Failed(error: ScanError) | Ended | Found(entry: Entry, padded: nat)

  /** Puts `done` in front of the entries of a successful outcome; an error
      stays an error (the scan is all or nothing). */
  function Prepend(done: seq<Entry>, s: Scanned): Scanned {
    match s.result
    case Success(es) => Scanned(Success(done + es), s.cursor)
    case Failure(_) => s
  }

  /** The scan from the header expected at stream offset `base + position`,
      where `position` is the offset recorded as `headerStart` (it counts from
      where the scan began, `base`): read a block there and go on with it. */
  function ScanFrom(data: seq<Byte>, path: string, base: nat, position: nat): Scanned
    decreases |data| - Min(base + position, |data|), 1
  {
    ScanBlock(data, path, base, position, Chunk(data, base + position, BlockSize))
  }

  /** One turn of the loop of ltar_entries with `block` just read at `base + position`. */
  function ScanBlock(data: seq<Byte>, path: string, base: nat, position: nat, block: seq<Byte>): Scanned
    requires block == Chunk(data, base + position, BlockSize)
    decreases |data| - Min(base + position, |data|), 0
  {
    var at := base + position;
    if |block| < BlockSize then
      Scanned(Failure(ShortRead(path, |block|)), at + |block|)
    else if AllZero(block) then
      Scanned(Success([]), at + BlockSize)
    else if !ChecksumOk(block) then
      Scanned(Failure(ChecksumFailure), at + BlockSize)
    else
      var e := DecodeHeader(block, position);
      Prepend([e], ScanFrom(data, path, base, position + BlockSize + PaddedSize(e.size)))
  }

  /** The scan ltar_entries performs on an open archive whose stream cursor is `start`. */
  function Scan(data: seq<Byte>, path: string, start: nat): Scanned {
    ScanFrom(data, path, start, 0)
  }

  /** The FILE the archive reads (fread, fseek with SEEK_CUR, fclose). */
  class Stream {
    const data: seq<Byte>
    var cursor: nat
    var isOpen: bool

    constructor (data: seq<Byte>)
      ensures this.data == data && cursor == 0 && isOpen
    {
      this.data := data;
      cursor := 0;
      isOpen := true;
    }

    method Read(count: nat) returns (chunk: seq<Byte>)
      requires isOpen
      modifies this
      ensures chunk == Chunk(data, old(cursor), count)
      ensures cursor == old(cursor) + |chunk| && isOpen
    {
      chunk := Chunk(data, cursor, count);
      cursor := cursor + |chunk|;
    }

    method Seek(offset: nat)
      requires isOpen
      modifies this
      ensures cursor == old(cursor) + offset && isOpen
    {
      cursor := cursor + offset;
    }

    /** Closing a FILE twice is undefined, hence the precondition. */
    method Close()
      requires isOpen
      modifies this
      ensures !isOpen && cursor == old(cursor)
    {
      isOpen := false;
    }
  }

  /** TAR_ARCHIVE: the stream, the path it was opened from and the closed flag. */
  class Archive {
    const f: Stream
    const path: string
    var closed: bool

    /** The stream is open exactly while the archive is not closed. */
    ghost predicate Valid()
      reads this, f
    {
      closed == !f.isOpen
    }

    /** The state ltar_open leaves behind once fopen succeeded. */
    constructor (f: Stream, path: string)
      requires f.isOpen
      ensures Valid() && !closed && this.f == f && this.path == path
    {
      this.f := f;
      this.path := path;
      closed := false;
    }

    /** ltar_entries: on a closed archive, fails without touching the stream;
        otherwise reads from the current cursor and returns exactly what
        Scan describes, leaving the cursor where Scan says. */
    method Entries() returns (r: Result<seq<Entry>, ScanError>)
      requires Valid()
      modifies f
      ensures Valid() && closed == old(closed)
      ensures old(closed) ==> r == Failure(ArchiveClosed) && f.cursor == old(f.cursor)
      ensures !old(closed) ==> r == Scan(f.data, path, old(f.cursor)).result
      ensures !old(closed) ==> f.cursor == Scan(f.data, path, old(f.cursor)).cursor
    {
      if closed {
        return Failure(ArchiveClosed);
      }
      ghost var start := f.cursor;
      ghost var total := Scan(f.data, path, start);
      var entries: seq<Entry> := [];
      var fileIndex: nat := 1;
      var position: nat := 0;
      PrependNothing(total);
      while true
        invariant f.isOpen && f.cursor == start + position
        invariant fileIndex == |entries| + 1
        invariant total == Prepend(entries, ScanFrom(f.data, path, start, position))
        // The cursor only moves forward because sizes are unbounded here. In
        // the C code a size field that wraps the int accumulator to -512
        // makes the seek go back onto the same header, and this loop never
        // ends (see UstarHeader.SizeFieldRereadsHeader).
        decreases |f.data| - Min(f.cursor, |f.data|)
      {
        var turn := ReadTurn(start, position);
        if turn.Failed? {
          assert total == Prepend(entries, Scanned(Failure(turn.error), f.cursor));
          return Failure(turn.error);
        }
        if turn.Ended? {
          assert entries + [] == entries;
          break;
        }
        ghost var rest := ScanFrom(f.data, path, start, position + BlockSize + turn.padded);
        PrependAppend(entries, turn.entry, rest);
        assert total == Prepend(entries + [turn.entry], rest);
        entries := entries + [turn.entry];
        fileIndex := fileIndex + 1;
        position := position + BlockSize + turn.padded;
        f.Seek(turn.padded);
        assert ScanFrom(f.data, path, start, position) == rest;
      }
      return Success(entries);
    }

    /** The body of the loop of ltar_entries up to the seek: reads a block at
        `start + position` and stops on a short read, an all-zero block or a
        bad checksum, or decodes the header and pads its size. */
    method ReadTurn(ghost start: nat, position: nat) returns (turn: Turn)
      requires f.isOpen && f.cursor == start + position
      modifies f
      ensures f.isOpen
      ensures turn.Failed? ==> ScanFrom(f.data, path, start, position) == Scanned(Failure(turn.error), f.cursor)
      ensures turn.Ended? ==> ScanFrom(f.data, path, start, position) == Scanned(Success([]), f.cursor)
      ensures turn.Failed? ==> !IsHeaderAt(f.data, start, position)
      ensures turn.Ended? ==> IsEndAt(f.data, start, position)
      ensures !turn.Found? ==> f.cursor == start + position + |BlockAt(f.data, start, position)|
      ensures turn.Found? ==>
        && f.cursor == start + position + BlockSize
        && |BlockAt(f.data, start, position)| == BlockSize
        && turn.entry == DecodeHeader(BlockAt(f.data, start, position), position)
        && turn.padded == PaddedSize(turn.entry.size)
        && IsBlockMultiple(turn.padded)
        && ScanFrom(f.data, path, start, position)
           == Prepend([turn.entry], ScanFrom(f.data, path, start, position + BlockSize + turn.padded))
    {
      var buff := f.Read(BlockSize);
      if |buff| < BlockSize {
        ScanStops(f.data, path, start, position, buff);
        return Failed(ShortRead(path, |buff|));
      }
      var eof := IsEndOfArchive(buff);
      if eof {
        ScanStops(f.data, path, start, position, buff);
        return Ended;
      }
      var ok := VerifyChecksum(buff);
      if !ok {
        ScanStops(f.data, path, start, position, buff);
        return Failed(ChecksumFailure);
      }
      var entry := ReadHeader(buff, position);
      var padded := PaddedSize(entry.size);
      ScanStep(f.data, path, start, position, buff, entry, position + BlockSize + padded);
      return Found(entry, padded);
    }

    /** ltar_close: releases the stream and marks the archive closed, once;
        on a closed archive it changes nothing. */
    method Close()
      requires Valid()
      modifies this, f
      ensures Valid() && closed
      ensures f.cursor == old(f.cursor)
      ensures old(closed) ==> unchanged(this, f)
    {
      if !closed {
        f.Close();
        closed := true;
      }
    }
  }

  /** The three ways ScanFrom stops at the block at `position`. */
  lemma ScanStops(data: seq<Byte>, path: string, base: nat, position: nat, block: seq<Byte>)
    requires block == Chunk(data, base + position, BlockSize)
    ensures |block| < BlockSize ==>
              ScanFrom(data, path, base, position)
              == Scanned(Failure(ShortRead(path, |block|)), base + position + |block|)
    ensures |block| == BlockSize && AllZero(block) ==>
              ScanFrom(data, path, base, position) == Scanned(Success([]), base + position + BlockSize)
    ensures |block| == BlockSize && !AllZero(block) && !ChecksumOk(block) ==>
              ScanFrom(data, path, base, position)
              == Scanned(Failure(ChecksumFailure), base + position + BlockSize)
  {
  }

  /** The loop of ltar_entries moves one header further: the entry decoded
      from the block at `position` comes first, then the scan from `next`. */
  lemma ScanStep(data: seq<Byte>, path: string, base: nat, position: nat,
                 block: seq<Byte>, e: Entry, next: nat)
    requires block == Chunk(data, base + position, BlockSize) && |block| == BlockSize
    requires !AllZero(block) && ChecksumOk(block) && e == DecodeHeader(block, position)
    requires next == position + BlockSize + PaddedSize(e.size)
    ensures ScanFrom(data, path, base, position) == Prepend([e], ScanFrom(data, path, base, next))
  {
    assert ScanFrom(data, path, base, position) == ScanBlock(data, path, base, position, block);
  }

  lemma PrependNothing(s: Scanned)
    ensures Prepend([], s) == s
  {
    if s.result.Success? {
      assert [] + s.result.value == s.result.value;
    }
  }

  lemma PrependAppend(done: seq<Entry>, e: Entry, s: Scanned)
    ensures Prepend(done, Prepend([e], s)) == Prepend(done + [e], s)
  {
    if s.result.Success? {
      assert done + ([e] + s.result.value) == (done + [e]) + s.result.value;
    }
  }

  // ---------------------------------------------------------------------
  // What a scan produces

  /** The block the scan reads at `position`, and whether it is a header the
      scan accepts (full, not all zero, checksum correct). */
  function BlockAt(data: seq<Byte>, base: nat, position: nat): seq<Byte> {
    Chunk(data, base + position, BlockSize)
  }

  predicate IsHeaderAt(data: seq<Byte>, base: nat, position: nat) {
    var block := BlockAt(data, base, position);
    |block| == BlockSize && !AllZero(block) && ChecksumOk(block)
  }

  /** Where the header after the one at `position` is expected. */
  function NextHeader(data: seq<Byte>, base: nat, position: nat): nat
    requires IsHeaderAt(data, base, position)
  {
    position + BlockSize + PaddedSize(DecodeHeader(BlockAt(data, base, position), position).size)
  }

  /** One accepted header: its entry comes first, then the rest of the scan. */
  lemma ScanContinues(data: seq<Byte>, path: string, base: nat, position: nat)
    requires IsHeaderAt(data, base, position)
    ensures ScanFrom(data, path, base, position)
            == Prepend([DecodeHeader(BlockAt(data, base, position), position)],
                       ScanFrom(data, path, base, NextHeader(data, base, position)))
  {
  }

  /** A scan that fails does so with a short read of fewer than 512 bytes,
      reported with the archive path, or with a checksum failure; never with
      the closed-archive error. */
  lemma {:induction false} ScanErrorKinds(data: seq<Byte>, path: string, base: nat, position: nat)
    ensures var r := ScanFrom(data, path, base, position).result;
      r.Failure? ==>
        (r.error.ShortRead? && r.error.path == path && r.error.got < BlockSize)
        || r.error == ChecksumFailure
    decreases |data| - Min(base + position, |data|)
  {
    var block := BlockAt(data, base, position);
    ScanStops(data, path, base, position, block);
    if IsHeaderAt(data, base, position) {
      ScanContinues(data, path, base, position);
      ScanErrorKinds(data, path, base, NextHeader(data, base, position));
    }
  }

  /** Entries come in archive order: the first header is at `position`, each
      next one right after the previous header and its padded content. */
  predicate Chained(es: seq<Entry>, position: nat) {
    && (|es| > 0 ==> es[0].headerStart == position)
    && (forall i :: 0 <= i < |es| - 1 ==>
          es[i + 1].headerStart == es[i].headerStart + BlockSize + PaddedSize(es[i].size))
  }

  /** The entries of a successful scan from `position` are Chained from `position`. */
  lemma {:induction false} ScanOffsetsChain(data: seq<Byte>, path: string, base: nat, position: nat)
    ensures var r := ScanFrom(data, path, base, position).result;
      r.Success? ==> Chained(r.value, position)
    decreases |data| - Min(base + position, |data|)
  {
    var block := BlockAt(data, base, position);
    ScanStops(data, path, base, position, block);
    if IsHeaderAt(data, base, position) {
      var next := NextHeader(data, base, position);
      ScanContinues(data, path, base, position);
      ScanOffsetsChain(data, path, base, next);
    }
  }

  /** In a chain from `position`, entry `i` sits on the 512-byte grid from
      `position`, at least 512 * i bytes further. */
  lemma {:induction false} ChainedOnGrid(es: seq<Entry>, position: nat, i: nat)
    requires Chained(es, position) && i < |es|
    ensures es[i].headerStart >= position + BlockSize * i
    ensures IsBlockMultiple(es[i].headerStart - position)
    decreases i
  {
    if i > 0 {
      ChainedOnGrid(es, position, i - 1);
      var prev := es[i - 1].headerStart - position;
      var pad := PaddedSize(es[i - 1].size);
      BlockMultipleSum(prev, BlockSize);
      BlockMultipleSum(prev + BlockSize, pad);
      assert es[i].headerStart - position == prev + BlockSize + pad;
    }
  }

  /** In a chain, later entries start strictly later. */
  lemma {:induction false} ChainedIncrease(es: seq<Entry>, position: nat, i: nat, j: nat)
    requires Chained(es, position) && i < j < |es|
    ensures es[i].headerStart < es[j].headerStart
    decreases j - i
  {
    if i + 1 < j {
      ChainedIncrease(es, position, i + 1, j);
    }
  }

  /** Header offsets stay on the 512-byte grid that starts at `position`. */
  lemma ScanOffsetsOnGrid(data: seq<Byte>, path: string, base: nat, position: nat)
    ensures var r := ScanFrom(data, path, base, position).result;
      r.Success? ==>
        forall i :: 0 <= i < |r.value| ==>
          r.value[i].headerStart >= position && IsBlockMultiple(r.value[i].headerStart - position)
  {
    ScanOffsetsChain(data, path, base, position);
    var r := ScanFrom(data, path, base, position).result;
    if r.Success? {
      forall i | 0 <= i < |r.value|
        ensures r.value[i].headerStart >= position && IsBlockMultiple(r.value[i].headerStart - position)
      {
        ChainedOnGrid(r.value, position, i);
      }
    }
  }

  /** Header offsets grow strictly, so no two entries share one. */
  lemma ScanOffsetsIncrease(data: seq<Byte>, path: string, base: nat, position: nat)
    ensures var r := ScanFrom(data, path, base, position).result;
      r.Success? ==>
        forall i, j :: 0 <= i < j < |r.value| ==> r.value[i].headerStart < r.value[j].headerStart
  {
    ScanOffsetsChain(data, path, base, position);
    var r := ScanFrom(data, path, base, position).result;
    if r.Success? {
      forall i, j | 0 <= i < j < |r.value| ensures r.value[i].headerStart < r.value[j].headerStart {
        ChainedIncrease(r.value, position, i, j);
      }
    }
  }

  lemma BlockMultipleSum(a: nat, b: nat)
    requires IsBlockMultiple(a) && IsBlockMultiple(b)
    ensures IsBlockMultiple(a + b)
  {
    assert a == BlockSize * (a / BlockSize);
    assert b == BlockSize * (b / BlockSize);
    assert a + b == BlockSize * (a / BlockSize + b / BlockSize);
  }

  /** Every entry is the decoding of an accepted header block found at its
      own `headerStart`. */
  lemma {:induction false} ScanEntriesDecoded(data: seq<Byte>, path: string, base: nat, position: nat)
    ensures var r := ScanFrom(data, path, base, position).result;
      r.Success? ==>
        forall i :: 0 <= i < |r.value| ==>
          var e := r.value[i];
          IsHeaderAt(data, base, e.headerStart) && e == DecodeHeader(BlockAt(data, base, e.headerStart), e.headerStart)
    decreases |data| - Min(base + position, |data|)
  {
    var block := BlockAt(data, base, position);
    ScanStops(data, path, base, position, block);
    if IsHeaderAt(data, base, position) {
      var next := NextHeader(data, base, position);
      ScanContinues(data, path, base, position);
      ScanEntriesDecoded(data, path, base, next);
    }
  }

  /** Where the block after the last of `es` is expected (`position` when there is none). */
  function EndOffset(es: seq<Entry>, position: nat): nat {
    if es == [] then position
    else es[|es| - 1].headerStart + BlockSize + PaddedSize(es[|es| - 1].size)
  }

  /** A full all-zero block at `position`: is_end_of_archive holds there. */
  predicate IsEndAt(data: seq<Byte>, base: nat, position: nat) {
    var block := BlockAt(data, base, position);
    |block| == BlockSize && AllZero(block)
  }

  /** A successful scan ends on an all-zero block right after the last entry
      (or at `position` when there is none) and leaves the cursor after it. */
  lemma {:induction false} ScanEndsAtZeroBlock(data: seq<Byte>, path: string, base: nat, position: nat)
    ensures var s := ScanFrom(data, path, base, position);
      s.result.Success? ==>
        var end := EndOffset(s.result.value, position);
        IsEndAt(data, base, end) && s.cursor == base + end + BlockSize
    decreases |data| - Min(base + position, |data|)
  {
    var block := BlockAt(data, base, position);
    ScanStops(data, path, base, position, block);
    if IsHeaderAt(data, base, position) {
      var next := NextHeader(data, base, position);
      ScanContinues(data, path, base, position);
      ScanEndsAtZeroBlock(data, path, base, next);
      var s := ScanFrom(data, path, base, next);
      if s.result.Success? {
        var e := DecodeHeader(block, position);
        var es' := s.result.value;
        assert e.headerStart == position;
        assert EndOffset([e] + es', position) == EndOffset(es', next) by {
          var es := [e] + es';
          assert es[|es| - 1] == if es' == [] then e else es'[|es'| - 1];
        }
      }
    }
  }

  // ---------------------------------------------------------------------
  // Whole archives

  /** An archive that is one all-zero block scans to no entries. */
  lemma EmptyArchive(data: seq<Byte>, path: string)
    requires |data| >= BlockSize && AllZero(data[..BlockSize])
    ensures Scan(data, path, 0) == Scanned(Success([]), BlockSize)
  {
    ScanStops(data, path, 0, 0, BlockAt(data, 0, 0));
  }

  /** A stream shorter than one block fails with a short read that reports
      how many bytes there were. */
  lemma TruncatedArchive(data: seq<Byte>, path: string)
    requires |data| < BlockSize
    ensures Scan(data, path, 0).result == Failure(ShortRead(path, |data|))
  {
    ScanStops(data, path, 0, 0, BlockAt(data, 0, 0));
  }

  /** One valid header, its padded content, then an all-zero block: the scan
      gives exactly that header's entry, at offset 0. */
  lemma SingleEntryArchive(header: seq<Byte>, content: seq<Byte>, zeros: seq<Byte>, tail: seq<Byte>, path: string)
    requires |header| == BlockSize && !AllZero(header) && ChecksumOk(header)
    requires |content| == PaddedSize(DecodeHeader(header, 0).size)
    requires |zeros| == BlockSize && AllZero(zeros)
    ensures Scan(header + content + zeros + tail, path, 0).result == Success([DecodeHeader(header, 0)])
  {
    var data := header + content + zeros + tail;
    assert BlockAt(data, 0, 0) == header;
    ScanContinues(data, path, 0, 0);
    var next := NextHeader(data, 0, 0);
    assert BlockAt(data, 0, next) == zeros;
    ScanStops(data, path, 0, next, zeros);
    assert [DecodeHeader(header, 0)] + [] == [DecodeHeader(header, 0)];
  }

  /** After an entry of 1000 bytes at offset 0 (content padded to 1024), the
      next header is at 512 + 1024 = 1536. */
  lemma SecondHeaderAfterThousandBytes(data: seq<Byte>, path: string)
    requires Scan(data, path, 0).result.Success?
    requires |Scan(data, path, 0).result.value| >= 2
    requires Scan(data, path, 0).result.value[0].size == 1000
    ensures Scan(data, path, 0).result.value[1].headerStart == 1536
  {
    ScanOffsetsChain(data, path, 0, 0);
  }
}
