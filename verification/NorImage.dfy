/**
  The check of a flash image in iburn.c: the file is read through one buffer of 64 KiB
  that is used again for every read, and its CRC is taken piece by piece.

  How much a read returns is up to the system, so it is a parameter; the code only looks
  at whether it is positive.  image.h is not part of this model, so the layout of the
  header is a parameter as well.
 */
module NorImage {
  import opened Basics
  import opened Crc32
  import opened Words

  const CHUNK: nat := 0x1_0000

  /** What the check needs to know of an image header, both fields in host order. */
  datatype Layout = Layout(length: nat, size: seq<Byte> -> Word, dcrc: seq<Byte> -> Word)

  /** What the system is ready to return for a read at a position of the file; negative for an error. */
  type Grants = nat -> int

  /** Regular files and flash partitions: no read returns less than what is left. */
  ghost predicate FullReads(grants: Grants) {
    forall pos: nat :: grants(pos) >= CHUNK
  }

  /** An unsigned value stored in an int of 32 bits. */
  function AsInt(w: Word): (r: int)
    ensures -0x8000_0000 <= r < 0x8000_0000 && (r - w) % WORD == 0
  {
    if w < 0x8000_0000 then w else w - WORD
  }

  /** datalen: header and payload together */
  function DataLen(layout: Layout, header: seq<Byte>): int {
    AsInt(Wrap(layout.length + layout.size(header)))
  }

  /** The result of read(fd, buf, 64 KiB) at pos. */
  function ReadCount(file: seq<Byte>, pos: nat, grants: Grants): (n: int)
    requires pos <= |file|
    ensures n <= CHUNK && pos + n <= |file|
  {
    if grants(pos) < 0 then -1 else Min(grants(pos), Min(CHUNK, |file| - pos))
  }

  /** The buffer after a read of n bytes at pos, over what was there. */
  function ReadInto(b: seq<Byte>, file: seq<Byte>, pos: nat, n: nat): (b': seq<Byte>)
    requires |b| == CHUNK && n <= CHUNK && pos + n <= |file|
    ensures |b'| == CHUNK
  {
    file[pos..pos + n] + b[n..]
  }

  /** The check value after the loop, or none if a read came back empty or failed. */
  function Remaining(b: seq<Byte>, file: seq<Byte>, pos: nat, len: nat, datalen: int, crc: Word, grants: Grants)
    : Option<Word>
    requires |b| == CHUNK && pos <= |file|
    decreases datalen - len
  {
    if len >= datalen then Some(crc)
    else
      var n := ReadCount(file, pos, grants);
      if n <= 0 then None
      else
        var b' := ReadInto(b, file, pos, n);
        Remaining(b', file, pos + n, len + CHUNK, datalen, Crc(crc, b'[..Min(CHUNK, datalen - len)]), grants)
  }

  /** Whether verify_nor_image returns 0. */
  predicate Accepts(b: seq<Byte>, file: seq<Byte>, layout: Layout, mtdSize: int, grants: Grants)
    requires |b| == CHUNK && layout.length <= CHUNK
  {
    var n := ReadCount(file, 0, grants);
    && n > 0
    && var b' := ReadInto(b, file, 0, n);
    var header := b'[..layout.length];
    && layout.dcrc(header) != ONES
    && DataLen(layout, header) <= mtdSize
    && Remaining(b', file, n, CHUNK, DataLen(layout, header), Crc(0, b'[layout.length..]), grants)
       == Some(layout.dcrc(header))
  }

  // --- the code ---

  /** read(fd, buf, sizeof(buf)): index is the count, 0 at the end of the file, negative for an error */
  method Read(buf: array<Byte>, file: seq<Byte>, pos: nat, grants: Grants) returns (index: int)
    requires buf.Length == CHUNK && pos <= |file|
    modifies buf
    ensures index == ReadCount(file, pos, grants)
    ensures buf[..] == if index > 0 then ReadInto(old(buf[..]), file, pos, index) else old(buf[..])
  {
    index := ReadCount(file, pos, grants);
    forall k | 0 <= k < index {
      buf[k] := file[pos + k];
    }
  }

  /** verify_nor_image; crc is the table of uboot.c */
  method VerifyNorImage(crc: CrcUnit, buf: array<Byte>, file: seq<Byte>, layout: Layout, mtdSize: int, grants: Grants)
    returns (r: int)
    requires crc.Valid() && buf.Length == CHUNK && layout.length <= CHUNK
    modifies crc, buf
    ensures crc.Valid()
    ensures r == if Accepts(old(buf[..]), file, layout, mtdSize, grants) then 0 else -1
  {
    hide Crc, ReadInto, ReadCount;
    var pos := Read(buf, file, 0, grants);
    if pos <= 0 {
      return -1;
    }
    var header := buf[..layout.length];
    if layout.dcrc(header) == ONES {
      return -1;
    }
    var datalen := DataLen(layout, header);
    if datalen > mtdSize {
      return -1;
    }
    var len := CHUNK;
    var newcrc := crc.Crc32(0, buf, layout.length, CHUNK - layout.length);
    ghost var verdict := Remaining(buf[..], file, pos, len, datalen, newcrc, grants);
    assert buf[layout.length..CHUNK] == buf[..][layout.length..];
    assert Accepts(old(buf[..]), file, layout, mtdSize, grants) <==> verdict == Some(layout.dcrc(header));
    while len < datalen
      invariant crc.Valid() && 0 <= pos <= |file| && CHUNK <= len
      invariant Remaining(buf[..], file, pos, len, datalen, newcrc, grants) == verdict
    {
      var n := Min(CHUNK, datalen - len);
      ghost var before := buf[..];
      var index := Read(buf, file, pos, grants);
      assert Remaining(before, file, pos, len, datalen, newcrc, grants) == verdict;
      if index <= 0 {
        assert verdict == None;
        return -1;
      }
      pos := pos + index;
      len := len + CHUNK;
      newcrc := crc.Crc32(newcrc, buf, 0, n);
    }
    if newcrc != layout.dcrc(header) {
      return -1;
    }
    r := 0;
  }

  // --- what the check covers ---

  /** What the buffer holds after each of the reads from pos on, up to the first that fails. */
  function Seen(b: seq<Byte>, file: seq<Byte>, pos: nat, grants: Grants): seq<Byte>
    requires |b| == CHUNK && pos <= |file|
    decreases |file| - pos
  {
    var n := ReadCount(file, pos, grants);
    if n <= 0 then []
    else
      var b' := ReadInto(b, file, pos, n);
      b' + Seen(b', file, pos + n, grants)
  }

  lemma CrcOfNothing(crc: Word)
    ensures Crc(crc, []) == crc
  {
    XorBack(crc, ONES);
  }

  /** The loop takes the CRC of the buffers, one behind the other, as far as the image goes. */
  lemma {:induction false} RemainingIsSeen(
      b: seq<Byte>, file: seq<Byte>, pos: nat, len: nat, datalen: int, crc: Word, grants: Grants)
    requires |b| == CHUNK && pos <= |file| && len <= datalen
    ensures var seen := Seen(b, file, pos, grants);
            Remaining(b, file, pos, len, datalen, crc, grants) ==
            if datalen - len <= |seen| then Some(Crc(crc, seen[..datalen - len])) else None
    decreases |file| - pos
  {
    hide Crc, ReadCount, ReadInto;
    var seen, left := Seen(b, file, pos, grants), datalen - len;
    var n := ReadCount(file, pos, grants);
    if left == 0 {
      CrcOfNothing(crc);
      assert seen[..0] == [];
    } else if n > 0 {
      var b' := ReadInto(b, file, pos, n);
      var rest := Seen(b', file, pos + n, grants);
      if left <= CHUNK {
        assert (b' + rest)[..left] == b'[..left];
      } else {
        assert b'[..CHUNK] == b';
        RemainingIsSeen(b', file, pos + n, len + CHUNK, datalen, Crc(crc, b'), grants);
        if left - CHUNK <= |rest| {
          CrcComposes(crc, b', rest[..left - CHUNK]);
          assert (b' + rest)[..left] == b' + rest[..left - CHUNK];
        }
      }
    }
  }

  /** Exactly what is checked, however much the reads return: everything behind the header, to the end of the
      image, but not less than the first buffer. */
  lemma WhatIsChecked(b: seq<Byte>, file: seq<Byte>, layout: Layout, mtdSize: int, grants: Grants)
    requires |b| == CHUNK && layout.length <= CHUNK
    ensures Accepts(b, file, layout, mtdSize, grants) <==>
              var seen := Seen(b, file, 0, grants);
              && |seen| >= CHUNK
              && var header := seen[..layout.length];
              var end := if DataLen(layout, header) < CHUNK then CHUNK else DataLen(layout, header);
              && layout.dcrc(header) != ONES && DataLen(layout, header) <= mtdSize
              && end <= |seen| && Crc(0, seen[layout.length..end]) == layout.dcrc(header)
  {
    hide Crc, ReadCount, ReadInto, DataLen;
    var n := ReadCount(file, 0, grants);
    if n > 0 {
      var b' := ReadInto(b, file, 0, n);
      var rest := Seen(b', file, n, grants);
      var seen, h := b' + rest, layout.length;
      assert seen[..h] == b'[..h];
      var datalen := DataLen(layout, b'[..h]);
      assert seen[h..CHUNK] == b'[h..];
      if datalen >= CHUNK {
        RemainingIsSeen(b', file, n, CHUNK, datalen, Crc(0, b'[h..]), grants);
        if datalen <= |seen| {
          CrcComposes(0, b'[h..], rest[..datalen - CHUNK]);
          assert seen[h..datalen] == b'[h..] + rest[..datalen - CHUNK];
        }
      }
    }
  }

  /** The bytes of the last buffer that a last, short read leaves over from the buffer before. */
  function Stale(b: seq<Byte>, file: seq<Byte>, pos: nat): seq<Byte>
    requires |b| == CHUNK && pos <= |file|
  {
    var r := (|file| - pos) % CHUNK;
    if r == 0 then []
    else if |file| - pos < CHUNK then b[r..]
    else file[|file| - CHUNK..|file| - r]
  }

  lemma FullRead(b: seq<Byte>, file: seq<Byte>, pos: nat, grants: Grants)
    requires |b| == CHUNK && pos <= |file| && FullReads(grants)
    ensures ReadCount(file, pos, grants) == Min(CHUNK, |file| - pos)
    ensures |file| - pos >= CHUNK ==> ReadInto(b, file, pos, CHUNK) == file[pos..pos + CHUNK]
  {
  }

  lemma StaleAfterChunk(b: seq<Byte>, file: seq<Byte>, pos: nat)
    requires |b| == CHUNK && pos + CHUNK <= |file|
    ensures Stale(file[pos..pos + CHUNK], file, pos + CHUNK) == Stale(b, file, pos)
  {
    var left := |file| - pos;
    var r := left % CHUNK;
    assert (left - CHUNK) % CHUNK == r;
    if left - CHUNK < CHUNK {
      assert r == left - CHUNK;
      assert file[pos..pos + CHUNK][r..] == file[pos + r..pos + CHUNK];
    }
  }

  lemma LastBuffer(b: seq<Byte>, file: seq<Byte>, pos: nat)
    requires |b| == CHUNK && pos <= |file| < pos + CHUNK
    ensures |file| > pos ==> ReadInto(b, file, pos, |file| - pos) == file[pos..] + Stale(b, file, pos)
    ensures |file| == pos ==> file[pos..] + Stale(b, file, pos) == []
  {
    assert (|file| - pos) % CHUNK == |file| - pos;
    assert file[pos..|file|] == file[pos..];
  }

  /** With full reads the buffers are the file, and what the last read did not overwrite. */
  lemma {:induction false} SeenInFull(b: seq<Byte>, file: seq<Byte>, pos: nat, grants: Grants)
    requires |b| == CHUNK && pos <= |file| && FullReads(grants)
    ensures Seen(b, file, pos, grants) == file[pos..] + Stale(b, file, pos)
    decreases |file| - pos
  {
    hide FullReads, ReadCount, ReadInto, Stale;
    FullRead(b, file, pos, grants);
    if |file| - pos >= CHUNK {
      var b' := file[pos..pos + CHUNK];
      SeenInFull(b', file, pos + CHUNK, grants);
      StaleAfterChunk(b, file, pos);
      assert file[pos..] == b' + file[pos + CHUNK..];
    } else {
      LastBuffer(b, file, pos);
      if |file| > pos {
        FullRead(ReadInto(b, file, pos, |file| - pos), file, |file|, grants);
      }
    }
  }

  /** For an image of at least 64 KiB that is all there, wherever the file ends: the one-shot CRC decides. */
  lemma LargeImage(b: seq<Byte>, file: seq<Byte>, layout: Layout, mtdSize: int, grants: Grants)
    requires |b| == CHUNK && layout.length <= CHUNK <= |file| && FullReads(grants)
    requires CHUNK <= DataLen(layout, file[..layout.length]) <= |file|
    ensures Accepts(b, file, layout, mtdSize, grants) <==>
              var header := file[..layout.length];
              && layout.dcrc(header) != ONES
              && DataLen(layout, header) <= mtdSize
              && Crc(0, file[layout.length..DataLen(layout, header)]) == layout.dcrc(header)
  {
    hide Crc, Accepts, Seen, Stale, DataLen;
    InFull(b, file, layout, grants);
    WhatIsChecked(b, file, layout, mtdSize, grants);
    var datalen := DataLen(layout, file[..layout.length]);
    assert (file + Stale(b, file, 0))[layout.length..datalen] == file[layout.length..datalen];
  }

  lemma InFull(b: seq<Byte>, file: seq<Byte>, layout: Layout, grants: Grants)
    requires |b| == CHUNK && layout.length <= CHUNK <= |file| && FullReads(grants)
    ensures Seen(b, file, 0, grants) == file + Stale(b, file, 0)
    ensures Seen(b, file, 0, grants)[..layout.length] == file[..layout.length]
  {
    hide Seen, Stale;
    SeenInFull(b, file, 0, grants);
    assert file[0..] == file;
  }

  /** For one of at least 64 KiB that the file does not hold in full: the check value covers stale bytes of the
      buffer, and the image is refused for certain only if even these do not make up for what is missing. */
  lemma TruncatedImage(b: seq<Byte>, file: seq<Byte>, layout: Layout, mtdSize: int, grants: Grants)
    requires |b| == CHUNK && layout.length <= CHUNK <= |file| && FullReads(grants)
    requires |file| < DataLen(layout, file[..layout.length])
    ensures Accepts(b, file, layout, mtdSize, grants) <==>
              var header := file[..layout.length];
              var padded := file + Stale(b, file, 0);
              && layout.dcrc(header) != ONES
              && DataLen(layout, header) <= mtdSize
              && DataLen(layout, header) <= |padded|
              && Crc(0, padded[layout.length..DataLen(layout, header)]) == layout.dcrc(header)
  {
    hide Crc, Accepts, Seen, Stale, DataLen;
    InFull(b, file, layout, grants);
    WhatIsChecked(b, file, layout, mtdSize, grants);
  }

  /** For a smaller one the check value runs on to the end of the buffer. */
  lemma SmallImage(b: seq<Byte>, file: seq<Byte>, layout: Layout, mtdSize: int, grants: Grants)
    requires |b| == CHUNK && layout.length <= CHUNK <= |file| && FullReads(grants)
    requires DataLen(layout, file[..layout.length]) < CHUNK
    ensures Accepts(b, file, layout, mtdSize, grants) <==>
              var header := file[..layout.length];
              && layout.dcrc(header) != ONES
              && DataLen(layout, header) <= mtdSize
              && Crc(0, file[layout.length..CHUNK]) == layout.dcrc(header)
  {
    hide Crc, Accepts, Seen, Stale, DataLen;
    InFull(b, file, layout, grants);
    WhatIsChecked(b, file, layout, mtdSize, grants);
    assert (file + Stale(b, file, 0))[layout.length..CHUNK] == file[layout.length..CHUNK];
  }

  // --- images that are what their headers say ---

  /** An image whose header is right about it. */
  ghost predicate Good(img: seq<Byte>, layout: Layout, mtdSize: int) {
    && layout.length <= CHUNK && layout.length <= |img| <= mtdSize
    && var header := img[..layout.length];
    && DataLen(layout, header) == |img|
    && layout.dcrc(header) != ONES
    && Crc(0, img[layout.length..]) == layout.dcrc(header)
  }

  /** Of two files that go on differently after the same short image, at most one is accepted. */
  lemma TrailingByteCounts(b: seq<Byte>, img: seq<Byte>, layout: Layout, mtdSize: int, grants: Grants)
    requires |b| == CHUNK && Good(img, layout, mtdSize) && |img| < CHUNK && FullReads(grants)
    ensures var zeros := Zeros(CHUNK - |img| - 1);
            !(Accepts(b, img + (zeros + [0]), layout, mtdSize, grants)
              && Accepts(b, img + (zeros + [1]), layout, mtdSize, grants))
  {
    hide Crc, Accepts, DataLen, FullReads;
    var zeros := Zeros(CHUNK - |img| - 1);
    var f, g := img + (zeros + [0]), img + (zeros + [1]);
    assert f[..layout.length] == img[..layout.length] == g[..layout.length];
    SmallImage(b, f, layout, mtdSize, grants);
    SmallImage(b, g, layout, mtdSize, grants);
    var middle := img[layout.length..] + zeros;
    assert f[layout.length..CHUNK] == middle + [0] + [];
    assert g[layout.length..CHUNK] == middle + [1] + [];
    var u, v: seq<Byte> := [0], [1];
    assert u[0] != v[0];
    BurstDetected(0, middle, u, v, []);
  }

  /** A good image is accepted whatever follows it in the file exactly when it has at least 64 KiB. */
  lemma GoodImageAccepted(b: seq<Byte>, img: seq<Byte>, layout: Layout, mtdSize: int, grants: Grants)
    requires |b| == CHUNK && Good(img, layout, mtdSize) && FullReads(grants)
    ensures (forall tail: seq<Byte> :: Accepts(b, img + tail, layout, mtdSize, grants)) <==> |img| >= CHUNK
  {
    hide Crc, Accepts, Zeros, FullReads;
    if |img| >= CHUNK {
      forall tail: seq<Byte> ensures Accepts(b, img + tail, layout, mtdSize, grants) {
        var file := img + tail;
        assert file[..layout.length] == img[..layout.length];
        assert file[layout.length..|img|] == img[layout.length..];
        LargeImage(b, file, layout, mtdSize, grants);
      }
    } else {
      TrailingByteCounts(b, img, layout, mtdSize, grants);
    }
  }

  // --- a layout, and an image that shows the failure ---

  function BigEndian(h: seq<Byte>, p: nat): Word {
    if p + 4 <= |h| then
      h[p] as int * 0x100_0000 + h[p + 1] as int * 0x1_0000 + h[p + 2] as int * 0x100 + h[p + 3]
    else 0
  }

  function Encoded(w: Word): (s: seq<Byte>)
    ensures |s| == 4
  {
    [w / 0x100_0000, w / 0x1_0000 % 0x100, w / 0x100 % 0x100, w % 0x100]
  }

  /** A header of 64 bytes with the payload's size at byte 12 and its CRC at byte 24, in network order. */
  const EXAMPLE: Layout := Layout(64, (h: seq<Byte>) => BigEndian(h, 12), (h: seq<Byte>) => BigEndian(h, 24))

  function ExampleHeader(payload: seq<Byte>): (h: seq<Byte>)
    requires |payload| < WORD
    ensures |h| == 64
  {
    Zeros(12) + Encoded(|payload|) + Zeros(8) + Encoded(Crc(0, payload)) + Zeros(36)
  }

  lemma WordOfEncoded(w: Word)
    ensures BigEndian(Encoded(w), 0) == w
  {
    var a, b, c := w / 0x100, w / 0x1_0000, w / 0x100_0000;
    assert a / 0x100 == b && b / 0x100 == c;
  }

  lemma BigEndianAt(h: seq<Byte>, p: nat, w: Word)
    requires p + 4 <= |h| && h[p..p + 4] == Encoded(w)
    ensures BigEndian(h, p) == w
  {
    hide Encoded;
    WordOfEncoded(w);
    var e := h[p..p + 4];
    assert e[0] == h[p] && e[1] == h[p + 1] && e[2] == h[p + 2] && e[3] == h[p + 3];
  }

  /** Every payload whose CRC is not the one value the check reserves makes a good image. */
  lemma ExampleIsGood(payload: seq<Byte>, mtdSize: int)
    requires 64 + |payload| <= mtdSize && 64 + |payload| < 0x8000_0000 && Crc(0, payload) != ONES
    ensures Good(ExampleHeader(payload) + payload, EXAMPLE, mtdSize)
  {
    hide Crc, Encoded, BigEndian;
    var h := ExampleHeader(payload);
    var img := h + payload;
    assert img[..64] == h && img[64..] == payload;
    assert h[12..16] == Encoded(|payload|) && h[24..28] == Encoded(Crc(0, payload));
    BigEndianAt(h, 12, |payload|);
    BigEndianAt(h, 24, Crc(0, payload));
  }

  /** A good image that is not accepted in every file: a header, and an empty payload. */
  lemma ShortImageFails(b: seq<Byte>, mtdSize: int, grants: Grants)
    requires |b| == CHUNK && mtdSize >= 64 && FullReads(grants)
    ensures var img := ExampleHeader([]);
            && |img| == 64 && Good(img, EXAMPLE, mtdSize)
            && exists tail: seq<Byte> :: !Accepts(b, img + tail, EXAMPLE, mtdSize, grants)
  {
    hide Crc, Accepts, FullReads, ExampleHeader, Good;
    CrcOfNothing(0);
    ExampleIsGood([], mtdSize);
    var img := ExampleHeader([]);
    assert img + [] == img;
    GoodImageAccepted(b, img, EXAMPLE, mtdSize, grants);
  }
}
