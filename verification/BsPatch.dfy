/**
  bspatch.c: rebuild a new file from an old one and a patch in the BSDIFF40 format.

  The three blocks of the patch are taken as they are after decompression.
 */
module BsPatch {
  import opened Basics

  datatype Outcome = Patched(file: seq<Byte>) | Corrupt

  const MAGIC: seq<Byte> := [66, 83, 68, 73, 70, 70, 52, 48]

  // --- lengths: eight bytes, sign and magnitude ---

  /** The value of bytes, lowest first. */
  function Value(b: seq<Byte>): nat {
    if b == [] then 0 else b[0] as int + 256 * Value(b[1..])
  }

  /** What offtin reads. */
  function Offtin(b: seq<Byte>): int
    requires |b| == 8
  {
    var v: int := Value(b[7 := b[7] % 128]);
    if b[7] >= 128 then -v else v
  }

  function Power(n: nat): (p: nat)
    ensures p >= 1
  {
    if n == 0 then 1 else 256 * Power(n - 1)
  }

  /** v in n bytes, lowest first. */
  function Bytes(v: nat, n: nat): (b: seq<Byte>)
    ensures |b| == n
  {
    if n == 0 then [] else [v % 256] + Bytes(v / 256, n - 1)
  }

  /** The lengths that fit: their magnitude has 63 bits. */
  predicate Fits(x: int) {
    -0x8000_0000_0000_0000 < x < 0x8000_0000_0000_0000
  }

  /** The encoder that offtin undoes. */
  function Offtout(x: int): (b: seq<Byte>)
    requires Fits(x)
    ensures |b| == 8
  {
    var b := Bytes(if x < 0 then -x else x, 8);
    if x < 0 then b[7 := (b[7] as int + 128) % 256] else b
  }

  lemma {:induction false} ValueOfBytes(v: nat, n: nat)
    requires v < Power(n)
    ensures Value(Bytes(v, n)) == v
  {
    if n > 0 {
      ValueOfBytes(v / 256, n - 1);
      assert Bytes(v, n)[1..] == Bytes(v / 256, n - 1);
    }
  }

  lemma {:induction false} BytesOfValue(b: seq<Byte>)
    ensures Value(b) < Power(|b|) && Bytes(Value(b), |b|) == b
  {
    if b != [] {
      BytesOfValue(b[1..]);
      assert b == [b[0]] + b[1..];
    }
  }

  lemma SevenBytes()
    ensures Power(7) == 0x100_0000_0000_0000 && Power(8) == 0x1_0000_0000_0000_0000
  {
    assert Power(2) == 0x1_0000;
    assert Power(4) == 0x1_0000_0000;
    assert Power(6) == 0x1_0000_0000_0000;
  }

  /** The top byte of a value of n + 1 bytes. */
  lemma {:induction false} TopByte(b: seq<Byte>, n: nat)
    requires |b| == n + 1
    ensures Value(b) == Value(b[..n]) + b[n] * Power(n)
  {
    if n > 0 {
      TopByte(b[1..], n - 1);
      assert b[1..][..n - 1] == b[..n][1..];
    } else {
      assert b[1..] == [];
    }
  }

  lemma TopByteSmall(v: nat)
    requires v < 0x8000_0000_0000_0000
    ensures Value(Bytes(v, 8)) == v && Bytes(v, 8)[7] < 128
  {
    hide Value, Bytes, Power;
    SevenBytes();
    ValueOfBytes(v, 8);
    TopByte(Bytes(v, 8), 7);
  }

  /** Reading back what was encoded. */
  lemma OfftinOfOfftout(x: int)
    requires Fits(x)
    ensures Offtin(Offtout(x)) == x
  {
    hide Value, Bytes;
    var v := if x < 0 then -x else x;
    var b := Bytes(v, 8);
    TopByteSmall(v);
    assert b[7 := b[7] + 128][7 := b[7]] == b;
    assert b[7 := b[7]] == b;
  }

  lemma Magnitude(b: seq<Byte>)
    requires |b| == 8 && b[7] < 128
    ensures Value(b) < 0x8000_0000_0000_0000 && Bytes(Value(b), 8) == b
  {
    hide Value, Bytes, Power;
    SevenBytes();
    TopByte(b, 7);
    BytesOfValue(b[..7]);
    BytesOfValue(b);
  }

  const NEGATIVE_ZERO: seq<Byte> := [0, 0, 0, 0, 0, 0, 0, 128]

  /** Only a zero with the sign set is not the encoding of what it reads as. */
  lemma OfftoutOfOfftin(b: seq<Byte>)
    requires |b| == 8
    ensures Fits(Offtin(b))
    ensures Offtout(Offtin(b)) == b <==> b != NEGATIVE_ZERO
  {
    hide Value, Bytes;
    var m := b[7 := b[7] % 128];
    Magnitude(m);
    if b[7] >= 128 {
      ZeroBytes();
      assert b == m[7 := b[7]];
      if Value(m) > 0 {
        assert Offtout(Offtin(b)) == m[7 := (m[7] + 128) % 256];
        assert Offtout(Offtin(b)) == b;
      } else {
        assert Offtout(Offtin(b)) == m && m[7] != b[7];
        assert m == [0, 0, 0, 0, 0, 0, 0, 0];
      }
      assert b == NEGATIVE_ZERO ==> m == [0, 0, 0, 0, 0, 0, 0, 0];
    } else {
      assert m == b;
    }
  }

  function FourBytes(b0: nat, b1: nat, b2: nat, b3: nat): nat {
    b0 + 0x100 * b1 + 0x1_0000 * b2 + 0x100_0000 * b3
  }

  /** The places of the eight bytes: the first is the lowest, and the top bit of the last is the sign. */
  lemma OfftinByPlaces(b: seq<Byte>)
    requires |b| == 8
    ensures var low := FourBytes(b[0], b[1], b[2], b[3]);
            var high := FourBytes(b[4], b[5], b[6], b[7] % 128);
            var v := low + 0x1_0000_0000 * high;
            Offtin(b) == if b[7] >= 128 then -v else v
  {
    hide Value;
    var m := b[7 := b[7] % 128];
    FourPlaces(m);
    FourPlaces(m[4..]);
    assert m[4..][4..] == [] && Value([]) == 0 by {
      ZeroBytes();
    }
  }

  lemma FourPlaces(b: seq<Byte>)
    requires |b| >= 4
    ensures Value(b) == FourBytes(b[0], b[1], b[2], b[3]) + 0x1_0000_0000 * Value(b[4..])
  {
    assert b[1..][1..] == b[2..] && b[2..][1..] == b[3..] && b[3..][1..] == b[4..];
    assert Value(b[2..]) == b[2] as int + 0x100 * (b[3] as int + 0x100 * Value(b[4..]));
  }

  lemma ZeroBytes()
    ensures Bytes(0, 8) == [0, 0, 0, 0, 0, 0, 0, 0] && Value([0, 0, 0, 0, 0, 0, 0, 0]) == 0 && Value([]) == 0
  {
    ValueOfBytes(0, 8);
    assert Bytes(0, 4) == [0, 0, 0, 0];
  }

  /** offtin */
  method ReadOfft(buf: seq<Byte>) returns (y: int)
    requires |buf| == 8
    ensures y == Offtin(buf)
  {
    ghost var b := buf[7 := buf[7] % 128];
    y := buf[7] % 128;
    assert b[8..] == [];
    var k := 7;
    while k > 0
      invariant 0 <= k <= 7 && y == Value(b[k..])
    {
      assert b[k - 1..][1..] == b[k..];
      k := k - 1;
      y := y * 256;
      y := y + buf[k];
    }
    assert b[0..] == b;
    if buf[7] >= 128 {
      y := -y;
    }
  }

  // --- the patch loop ---

  /** A byte of the old file; nothing is added outside it. */
  function OldAt(orig: seq<Byte>, i: int): Byte {
    if 0 <= i < |orig| then orig[i] else 0
  }

  /** The diff bytes, with the old file from oldpos on added to them. */
  function Added(diff: seq<Byte>, orig: seq<Byte>, oldpos: int): (s: seq<Byte>)
    ensures |s| == |diff|
  {
    seq(|diff|, i requires 0 <= i < |diff| => (diff[i] + OldAt(orig, oldpos + i)) % 256)
  }

  datatype Triple = Triple(x: int, y: int, z: int)

  function TripleAt(ctrl: seq<Byte>): Triple
    requires |ctrl| >= 24
  {
    Triple(Offtin(ctrl[..8]), Offtin(ctrl[8..16]), Offtin(ctrl[16..24]))
  }

  /** What is left to read. */
  datatype Blocks = Blocks(ctrl: seq<Byte>, diff: seq<Byte>, extra: seq<Byte>)

  function After(b: Blocks, t: Triple): Blocks
    requires |b.ctrl| >= 24 && 0 <= t.x <= |b.diff| && 0 <= t.y <= |b.extra|
  {
    Blocks(b.ctrl[24..], b.diff[t.x..], b.extra[t.y..])
  }

  /** The rest of the run, with out written so far. */
  function Patch(b: Blocks, orig: seq<Byte>, oldpos: int, out: seq<Byte>, newsize: int): Outcome
    decreases |b.ctrl|
  {
    if |out| >= newsize then Patched(out)
    else if |b.ctrl| < 24 then Corrupt
    else
      var t := TripleAt(b.ctrl);
      if |out| + t.x > newsize || t.x < 0 || t.x > |b.diff| then Corrupt
      else
        var out' := out + Added(b.diff[..t.x], orig, oldpos);
        if |out'| + t.y > newsize || t.y < 0 || t.y > |b.extra| then Corrupt
        else Patch(After(b, t), orig, oldpos + t.x + t.z,
                   out' + b.extra[..t.y], newsize)
  }

  /** bspatch_main after the files were opened */
  function Run(header: seq<Byte>, b: Blocks, orig: seq<Byte>): Outcome {
    if |header| < 32 || header[..8] != MAGIC then Corrupt
    else if Offtin(header[8..16]) < 0 || Offtin(header[16..24]) < 0 || Offtin(header[24..32]) < 0 then Corrupt
    else Patch(b, orig, 0, [], Offtin(header[24..32]))
  }

  lemma OneTurn(b: Blocks, orig: seq<Byte>, oldpos: int, out: seq<Byte>, newsize: int)
    ensures |out| >= newsize ==> Patch(b, orig, oldpos, out, newsize) == Patched(out)
    ensures |out| < newsize && |b.ctrl| < 24 ==> Patch(b, orig, oldpos, out, newsize) == Corrupt
    ensures |out| < newsize && |b.ctrl| >= 24 ==>
              var t := TripleAt(b.ctrl);
              if |out| + t.x > newsize || t.x < 0 || t.x > |b.diff| then
                Patch(b, orig, oldpos, out, newsize) == Corrupt
              else if |out| + t.x + t.y > newsize || t.y < 0 || t.y > |b.extra| then
                Patch(b, orig, oldpos, out, newsize) == Corrupt
              else
                Patch(b, orig, oldpos, out, newsize) ==
                Patch(After(b, t), orig, oldpos + t.x + t.z,
                      out + Added(b.diff[..t.x], orig, oldpos) + b.extra[..t.y], newsize)
  {
    hide TripleAt, Added, After;
  }

  lemma Advanced(ctrl: seq<Byte>, diff: seq<Byte>, extra: seq<Byte>, c: nat, d: nat, e: nat, t: Triple)
    requires 0 <= t.x <= d <= |diff| && 0 <= t.y <= e <= |extra| && 24 <= c <= |ctrl|
    ensures After(Blocks(ctrl[c - 24..], diff[d - t.x..], extra[e - t.y..]), t) ==
            Blocks(ctrl[c..], diff[d..], extra[e..])
  {
  }

  /** Reducing a byte sum or difference subtracts or adds 256, or nothing. */
  lemma ByteRange(x: int)
    requires -256 <= x < 512
    ensures x % 256 == if x < 0 then x + 256 else if x < 256 then x else x - 256
  {
  }

  /** Byte by byte: a sum that wraps around inside the old file, the diff byte itself outside. */
  lemma AddedStep(diff: seq<Byte>, orig: seq<Byte>, oldpos: int, i: nat)
    requires i < |diff|
    ensures Added(diff, orig, oldpos)[i] ==
            if 0 <= oldpos + i < |orig| then (diff[i] as int + orig[oldpos + i]) % 256 else diff[i]
  {
    ByteRange(diff[i]);
  }

  /** A read of the diff block into the new file, and the loop that adds the old bytes. */
  method AddDiff(target: array<Byte>, newpos: nat, diff: seq<Byte>, orig: seq<Byte>, oldpos: int)
    requires newpos + |diff| <= target.Length
    modifies target
    ensures target[..newpos + |diff|] == old(target[..newpos]) + Added(diff, orig, oldpos)
  {
    forall i | 0 <= i < |diff| {
      target[newpos + i] := diff[i];
    }
    var i := 0;
    while i < |diff|
      invariant i <= |diff|
      invariant target[..newpos] == old(target[..newpos])
      invariant forall k | 0 <= k < i :: target[newpos + k] == Added(diff, orig, oldpos)[k]
      invariant forall k | i <= k < |diff| :: target[newpos + k] == diff[k]
    {
      AddedStep(diff, orig, oldpos, i);
      if oldpos + i >= 0 && oldpos + i < |orig| {
        target[newpos + i] := (target[newpos + i] as int + orig[oldpos + i]) % 256;
      }
      i := i + 1;
    }
    assert target[newpos..newpos + |diff|] == Added(diff, orig, oldpos);
  }

  /** A read of the extra block into the new file. */
  method CopyExtra(target: array<Byte>, newpos: nat, extra: seq<Byte>)
    requires newpos + |extra| <= target.Length
    modifies target
    ensures target[..newpos + |extra|] == old(target[..newpos]) + extra
  {
    forall i | 0 <= i < |extra| {
      target[newpos + i] := extra[i];
    }
    assert target[newpos..newpos + |extra|] == extra;
  }

  /** The three lengths that steer one turn of the loop. */
  method ReadTriple(ctrl: seq<Byte>, c: nat) returns (t: Triple)
    requires c + 24 <= |ctrl|
    ensures t == TripleAt(ctrl[c..])
  {
    var x := ReadOfft(ctrl[c..c + 8]);
    var y := ReadOfft(ctrl[c + 8..c + 16]);
    var z := ReadOfft(ctrl[c + 16..c + 24]);
    assert ctrl[c..][..8] == ctrl[c..c + 8];
    assert ctrl[c..][8..16] == ctrl[c + 8..c + 16];
    assert ctrl[c..][16..24] == ctrl[c + 16..c + 24];
    t := Triple(x, y, z);
  }

  /** The loop of bspatch_main; newpos, oldpos and the three read positions move forward.
      It ends because every turn takes 24 bytes of the control block, also when it writes nothing. */
  method PatchLoop(ctrl: seq<Byte>, diff: seq<Byte>, extra: seq<Byte>, orig: seq<Byte>, newsize: nat)
    returns (r: Outcome)
    ensures r == Patch(Blocks(ctrl, diff, extra), orig, 0, [], newsize)
  {
    hide Added, TripleAt, Patch, After;
    var target := new Byte[newsize + 1];
    var oldpos, newpos: nat := 0, 0;
    var c: nat, d: nat, e: nat := 0, 0, 0;
    assert target[..newpos] == [];
    assert ctrl[c..] == ctrl && diff[d..] == diff && extra[e..] == extra;
    while newpos < newsize
      invariant newpos <= newsize && c <= |ctrl| && d <= |diff| && e <= |extra|
      invariant Patch(Blocks(ctrl[c..], diff[d..], extra[e..]), orig, oldpos, target[..newpos], newsize)
             == Patch(Blocks(ctrl, diff, extra), orig, 0, [], newsize)
      decreases |ctrl| - c
    {
      ghost var b := Blocks(ctrl[c..], diff[d..], extra[e..]);
      OneTurn(b, orig, oldpos, target[..newpos], newsize);
      if |ctrl| - c < 24 {
        return Corrupt;
      }
      var t := ReadTriple(ctrl, c);
      if newpos + t.x > newsize {
        return Corrupt;
      }
      if t.x < 0 || |diff| - d < t.x {
        return Corrupt;
      }
      AddDiff(target, newpos, diff[d..d + t.x], orig, oldpos);
      assert b.diff[..t.x] == diff[d..d + t.x];
      newpos := newpos + t.x;
      oldpos := oldpos + t.x;
      if newpos + t.y > newsize {
        return Corrupt;
      }
      if t.y < 0 || |extra| - e < t.y {
        return Corrupt;
      }
      CopyExtra(target, newpos, extra[e..e + t.y]);
      assert b.extra[..t.y] == extra[e..e + t.y];
      newpos := newpos + t.y;
      oldpos := oldpos + t.z;
      c, d, e := c + 24, d + t.x, e + t.y;
      Advanced(ctrl, diff, extra, c, d, e, t);
    }
    OneTurn(Blocks(ctrl[c..], diff[d..], extra[e..]), orig, oldpos, target[..newpos], newsize);
    r := Patched(target[..newsize]);
  }

  /** bspatch_main between opening the files and writing the new one */
  method BsPatchMain(header: seq<Byte>, ctrl: seq<Byte>, diff: seq<Byte>, extra: seq<Byte>, orig: seq<Byte>)
    returns (r: Outcome)
    ensures r == Run(header, Blocks(ctrl, diff, extra), orig)
  {
    if |header| < 32 {
      return Corrupt;
    }
    if header[..8] != MAGIC {
      return Corrupt;
    }
    var bzctrllen := ReadOfft(header[8..16]);
    var bzdatalen := ReadOfft(header[16..24]);
    var newsize := ReadOfft(header[24..32]);
    if bzctrllen < 0 || bzdatalen < 0 || newsize < 0 {
      return Corrupt;
    }
    r := PatchLoop(ctrl, diff, extra, orig, newsize);
  }

  // --- what a patch is ---

  /** The diff bytes that turn the old file from oldpos on into s. */
  function Subtracted(s: seq<Byte>, orig: seq<Byte>, oldpos: int): (diff: seq<Byte>)
    ensures |diff| == |s|
  {
    seq(|s|, i requires 0 <= i < |s| => (s[i] - OldAt(orig, oldpos + i)) % 256)
  }

  /** Adding nothing copies the old file. */
  lemma AddingZeros(orig: seq<Byte>, p: nat, n: nat)
    requires p + n <= |orig|
    ensures Added(Zeros(n), orig, p) == orig[p..p + n]
  {
    forall k | 0 <= k < n ensures Added(Zeros(n), orig, p)[k] == orig[p..p + n][k] {
      AddedStep(Zeros(n), orig, p, k);
      ByteRange(orig[p + k]);
    }
  }

  /** Outside the old file there is nothing to add. */
  lemma AddingOutside(diff: seq<Byte>, orig: seq<Byte>, p: int)
    requires p + |diff| <= 0 || |orig| <= p
    ensures Added(diff, orig, p) == diff
  {
    forall k | 0 <= k < |diff| ensures Added(diff, orig, p)[k] == diff[k] {
      AddedStep(diff, orig, p, k);
    }
  }

  /** A range can be cut where it enters or leaves the old file. */
  lemma AddedInParts(diff: seq<Byte>, diff': seq<Byte>, orig: seq<Byte>, p: int)
    ensures Added(diff + diff', orig, p) == Added(diff, orig, p) + Added(diff', orig, p + |diff|)
  {
    var l, r := Added(diff + diff', orig, p), Added(diff, orig, p) + Added(diff', orig, p + |diff|);
    forall k | 0 <= k < |diff| + |diff'| ensures l[k] == r[k] {
      if k >= |diff| {
        assert (diff + diff')[k] == diff'[k - |diff|] && p + k == p + |diff| + (k - |diff|);
      }
    }
  }

  lemma ByteBack(d: Byte, o: Byte)
    ensures ((d + o) % 256 - o) % 256 == d && ((d - o) % 256 + o) % 256 == d
  {
    ByteRange(d + o);
    ByteRange(d - o);
    ByteRange((d + o) % 256 - o);
    ByteRange((d - o) % 256 + o);
  }

  /** Adding and subtracting the old file undo each other. */
  lemma AddedSubtracted(s: seq<Byte>, diff: seq<Byte>, orig: seq<Byte>, oldpos: int)
    ensures Added(diff, orig, oldpos) == s <==> diff == Subtracted(s, orig, oldpos)
  {
    if |diff| == |s| {
      forall i | 0 <= i < |s|
        ensures Added(diff, orig, oldpos)[i] == s[i] <==> diff[i] == Subtracted(s, orig, oldpos)[i]
      {
        ByteBack(diff[i], OldAt(orig, oldpos + i));
        ByteBack(s[i], OldAt(orig, oldpos + i));
      }
    }
  }

  /** The blocks begin with this triple, with the differences of its diff segment and with its extra segment. */
  predicate Begins(b: Blocks, orig: seq<Byte>, oldpos: int, file: seq<Byte>, newpos: nat, t: Triple) {
    && 0 <= t.x && 0 <= t.y && newpos < |file| && newpos + t.x + t.y <= |file|
    && |b.ctrl| >= 24 && TripleAt(b.ctrl) == t && t.x <= |b.diff| && t.y <= |b.extra|
    && b.diff[..t.x] == Subtracted(file[newpos..newpos + t.x], orig, oldpos)
    && b.extra[..t.y] == file[newpos + t.x..newpos + t.x + t.y]
  }

  /** The triples cut file, from newpos on, into diff and extra segments that cover every byte once, and the blocks
      begin with them. */
  ghost predicate Encodes(b: Blocks, orig: seq<Byte>, oldpos: int, file: seq<Byte>, newpos: nat, ts: seq<Triple>)
    decreases |ts|
  {
    if ts == [] then newpos == |file|
    else
      var t := ts[0];
      && Begins(b, orig, oldpos, file, newpos, t)
      && Encodes(After(b, t), orig, oldpos + t.x + t.z, file, newpos + t.x + t.y, ts[1..])
  }

  lemma TwoMore(file: seq<Byte>, p: nat, q: nat, r: nat)
    requires p <= q <= r <= |file|
    ensures file[..p] + file[p..q] == file[..q] && file[..q] + file[q..r] == file[..r]
  {
  }

  /** A turn that writes the next segments of the file. */
  lemma SegmentIsTurn(b: Blocks, orig: seq<Byte>, oldpos: int, file: seq<Byte>, newpos: nat, t: Triple)
    requires Begins(b, orig, oldpos, file, newpos, t)
    ensures Patch(b, orig, oldpos, file[..newpos], |file|) ==
            Patch(After(b, t), orig, oldpos + t.x + t.z, file[..newpos + t.x + t.y], |file|)
  {
    hide TripleAt, Added, Subtracted, Patch, After;
    var q, r := newpos + t.x, newpos + t.x + t.y;
    OneTurn(b, orig, oldpos, file[..newpos], |file|);
    AddedSubtracted(file[newpos..q], b.diff[..t.x], orig, oldpos);
    TwoMore(file, newpos, q, r);
  }

  lemma WithinBounds(b: Blocks, orig: seq<Byte>, oldpos: int, file: seq<Byte>, newpos: nat, t: Triple)
    requires Begins(b, orig, oldpos, file, newpos, t)
    ensures 0 <= t.x <= |b.diff| && 0 <= t.y <= |b.extra| && newpos + t.x + t.y <= |file|
    ensures |b.ctrl| >= 24 && |After(b, t).ctrl| == |b.ctrl| - 24
  {
  }

  lemma NothingLeft(b: Blocks, orig: seq<Byte>, oldpos: int, file: seq<Byte>)
    ensures Patch(b, orig, oldpos, file[..|file|], |file|) == Patched(file)
    ensures Encodes(b, orig, oldpos, file, |file|, [])
  {
    assert file[..|file|] == file;
  }

  lemma NoTriples(b: Blocks, orig: seq<Byte>, oldpos: int, file: seq<Byte>, newpos: nat)
    requires Encodes(b, orig, oldpos, file, newpos, [])
    ensures newpos == |file|
  {
  }

  lemma FirstOfEncodes(b: Blocks, orig: seq<Byte>, oldpos: int, file: seq<Byte>, newpos: nat, ts: seq<Triple>)
    requires ts != []
    ensures Encodes(b, orig, oldpos, file, newpos, ts) <==>
              var t := ts[0];
              && Begins(b, orig, oldpos, file, newpos, t)
              && Encodes(After(b, t), orig, oldpos + t.x + t.z, file, newpos + t.x + t.y, ts[1..])
  {
    hide Begins, After;
  }

  /** A patch that encodes a file is accepted and yields that file. */
  lemma {:induction false} EncodedIsPatched(
      b: Blocks, orig: seq<Byte>, oldpos: int, file: seq<Byte>, newpos: nat, ts: seq<Triple>)
    requires newpos <= |file| && Encodes(b, orig, oldpos, file, newpos, ts)
    ensures Patch(b, orig, oldpos, file[..newpos], |file|) == Patched(file)
    decreases |ts|
  {
    hide Begins, Patch, After, Encodes;
    if ts == [] {
      NoTriples(b, orig, oldpos, file, newpos);
      NothingLeft(b, orig, oldpos, file);
    } else {
      var t := ts[0];
      FirstOfEncodes(b, orig, oldpos, file, newpos, ts);
      WithinBounds(b, orig, oldpos, file, newpos, t);
      SegmentIsTurn(b, orig, oldpos, file, newpos, t);
      EncodedIsPatched(After(b, t), orig, oldpos + t.x + t.z, file, newpos + t.x + t.y, ts[1..]);
    }
  }

  /** A run that is accepted only ever appends. */
  lemma {:induction false} PatchExtends(b: Blocks, orig: seq<Byte>, oldpos: int, out: seq<Byte>, newsize: int)
    requires Patch(b, orig, oldpos, out, newsize).Patched? && |out| <= newsize
    ensures var file := Patch(b, orig, oldpos, out, newsize).file;
            |file| == newsize && out <= file
    decreases |b.ctrl|
  {
    hide TripleAt, Added;
    if |out| < newsize {
      var t := TripleAt(b.ctrl);
      var out' := out + Added(b.diff[..t.x], orig, oldpos);
      PatchExtends(After(b, t), orig, oldpos + t.x + t.z,
                   out' + b.extra[..t.y], newsize);
    }
  }

  /** A turn of an accepted run writes the next segments of the file. */
  lemma TurnIsSegment(b: Blocks, orig: seq<Byte>, oldpos: int, file: seq<Byte>, newpos: nat) returns (t: Triple)
    requires newpos < |file| && Patch(b, orig, oldpos, file[..newpos], |file|) == Patched(file)
    ensures Begins(b, orig, oldpos, file, newpos, t)
    ensures Patch(After(b, t), orig, oldpos + t.x + t.z, file[..newpos + t.x + t.y], |file|) == Patched(file)
  {
    hide TripleAt, Added, Subtracted, Patch, After;
    OneTurn(b, orig, oldpos, file[..newpos], |file|);
    t := TripleAt(b.ctrl);
    var q, r := newpos + t.x, newpos + t.x + t.y;
    var u, v := Added(b.diff[..t.x], orig, oldpos), b.extra[..t.y];
    PatchExtends(After(b, t), orig, oldpos + t.x + t.z, file[..newpos] + u + v, |file|);
    SameParts(file, newpos, q, r, u, v);
    AddedSubtracted(file[newpos..q], b.diff[..t.x], orig, oldpos);
    TwoMore(file, newpos, q, r);
  }

  /** A patch that is accepted encodes the file it yields: each byte comes from one diff or extra segment. */
  lemma {:induction false} PatchedIsEncoded(b: Blocks, orig: seq<Byte>, oldpos: int, file: seq<Byte>, newpos: nat)
    returns (ts: seq<Triple>)
    requires newpos <= |file| && Patch(b, orig, oldpos, file[..newpos], |file|) == Patched(file)
    ensures Encodes(b, orig, oldpos, file, newpos, ts)
    decreases |b.ctrl|
  {
    hide Begins, Patch, After, Encodes;
    if newpos == |file| {
      ts := [];
      NothingLeft(b, orig, oldpos, file);
    } else {
      var t := TurnIsSegment(b, orig, oldpos, file, newpos);
      WithinBounds(b, orig, oldpos, file, newpos, t);
      var rest := PatchedIsEncoded(After(b, t), orig, oldpos + t.x + t.z, file, newpos + t.x + t.y);
      ts := [t] + rest;
      assert ts[1..] == rest;
      FirstOfEncodes(b, orig, oldpos, file, newpos, ts);
    }
  }

  lemma Middle(a: seq<Byte>, u: seq<Byte>, v: seq<Byte>)
    ensures (a + u + v)[|a|..|a| + |u|] == u && (a + u + v)[|a| + |u|..] == v
  {
  }

  lemma PrefixSlice(w: seq<Byte>, file: seq<Byte>, p: nat, q: nat)
    requires w <= file && p <= q <= |w|
    ensures w[p..q] == file[p..q]
  {
  }

  lemma SameParts(file: seq<Byte>, p: nat, q: nat, r: nat, u: seq<Byte>, v: seq<Byte>)
    requires p <= q <= r <= |file| && |u| == q - p && |v| == r - q && file[..p] + u + v <= file
    ensures u == file[p..q] && v == file[q..r]
  {
    var w := file[..p] + u + v;
    Middle(file[..p], u, v);
    PrefixSlice(w, file, p, q);
    PrefixSlice(w, file, q, r);
  }

  /** Exactly the encodings of a file yield it. */
  lemma PatchedIffEncoded(b: Blocks, orig: seq<Byte>, file: seq<Byte>)
    ensures Patch(b, orig, 0, [], |file|) == Patched(file) <==> exists ts :: Encodes(b, orig, 0, file, 0, ts)
  {
    assert file[..0] == [];
    if Patch(b, orig, 0, [], |file|) == Patched(file) {
      var ts := PatchedIsEncoded(b, orig, 0, file, 0);
    }
    if ts :| Encodes(b, orig, 0, file, 0, ts) {
      EncodedIsPatched(b, orig, 0, file, 0, ts);
    }
  }

  // --- the encoder ---

  /** The triples cut what is left of the file into segments. */
  predicate Segmentation(ts: seq<Triple>, left: nat) {
    if ts == [] then left == 0
    else
      var t := ts[0];
      && left > 0 && 0 <= t.x && 0 <= t.y && t.x + t.y <= left
      && Fits(t.x) && Fits(t.y) && Fits(t.z) && Segmentation(ts[1..], left - t.x - t.y)
  }

  /** The three blocks for a segmentation of file from newpos on. */
  function Encode(file: seq<Byte>, newpos: nat, orig: seq<Byte>, oldpos: int, ts: seq<Triple>): Blocks
    requires newpos <= |file| && Segmentation(ts, |file| - newpos)
    decreases |ts|
  {
    if ts == [] then Blocks([], [], [])
    else
      var t := ts[0];
      var q, r := newpos + t.x, newpos + t.x + t.y;
      var rest := Encode(file, r, orig, oldpos + t.x + t.z, ts[1..]);
      Blocks(Offtout(t.x) + Offtout(t.y) + Offtout(t.z) + rest.ctrl,
             Subtracted(file[newpos..q], orig, oldpos) + rest.diff,
             file[q..r] + rest.extra)
  }

  lemma TripleOfEncoding(t: Triple, rest: seq<Byte>)
    requires Fits(t.x) && Fits(t.y) && Fits(t.z)
    ensures var ctrl := Offtout(t.x) + Offtout(t.y) + Offtout(t.z) + rest;
            TripleAt(ctrl) == t && ctrl[24..] == rest
  {
    hide Offtout, Offtin;
    var ctrl := Offtout(t.x) + Offtout(t.y) + Offtout(t.z) + rest;
    OfftinOfOfftout(t.x);
    OfftinOfOfftout(t.y);
    OfftinOfOfftout(t.z);
    assert ctrl[..8] == Offtout(t.x) && ctrl[8..16] == Offtout(t.y) && ctrl[16..24] == Offtout(t.z);
  }

  /** What the first triple adds to the three blocks. */
  lemma FirstSegment(file: seq<Byte>, newpos: nat, orig: seq<Byte>, oldpos: int, ts: seq<Triple>)
    requires newpos <= |file| && ts != [] && Segmentation(ts, |file| - newpos)
    ensures var b, t := Encode(file, newpos, orig, oldpos, ts), ts[0];
            && Begins(b, orig, oldpos, file, newpos, t)
            && After(b, t) == Encode(file, newpos + t.x + t.y, orig, oldpos + t.x + t.z, ts[1..])
  {
    hide TripleAt, Subtracted, Offtout;
    var t := ts[0];
    var r := newpos + t.x + t.y;
    TripleOfEncoding(t, Encode(file, r, orig, oldpos + t.x + t.z, ts[1..]).ctrl);
  }

  lemma FirstOfSegmentation(ts: seq<Triple>, left: nat)
    requires ts != [] && Segmentation(ts, left)
    ensures 0 <= ts[0].x && 0 <= ts[0].y && ts[0].x + ts[0].y <= left
    ensures Segmentation(ts[1..], left - ts[0].x - ts[0].y)
  {
  }

  lemma EncodeStep(file: seq<Byte>, newpos: nat, orig: seq<Byte>, oldpos: int, ts: seq<Triple>)
    requires newpos <= |file| && ts != [] && Segmentation(ts, |file| - newpos)
    requires var t, r := ts[0], newpos + ts[0].x + ts[0].y;
             Encodes(Encode(file, r, orig, oldpos + t.x + t.z, ts[1..]), orig, oldpos + t.x + t.z, file, r, ts[1..])
    ensures Encodes(Encode(file, newpos, orig, oldpos, ts), orig, oldpos, file, newpos, ts)
  {
    hide Begins, After, Encode, Encodes, Segmentation;
    FirstSegment(file, newpos, orig, oldpos, ts);
    FirstOfEncodes(Encode(file, newpos, orig, oldpos, ts), orig, oldpos, file, newpos, ts);
  }

  lemma {:induction false} EncodeEncodes(
      file: seq<Byte>, newpos: nat, orig: seq<Byte>, oldpos: int, ts: seq<Triple>)
    requires newpos <= |file| && Segmentation(ts, |file| - newpos)
    ensures Encodes(Encode(file, newpos, orig, oldpos, ts), orig, oldpos, file, newpos, ts)
    decreases |ts|
  {
    if ts != [] {
      hide Begins, After, Encode, Encodes, Segmentation;
      FirstOfSegmentation(ts, |file| - newpos);
      EncodeEncodes(file, newpos + ts[0].x + ts[0].y, orig, oldpos + ts[0].x + ts[0].z, ts[1..]);
      EncodeStep(file, newpos, orig, oldpos, ts);
    }
  }

  /** The header of a patch whose compressed control and diff blocks have these lengths. */
  function Header(bzctrllen: nat, bzdatalen: nat, newsize: nat): (h: seq<Byte>)
    requires Fits(bzctrllen) && Fits(bzdatalen) && Fits(newsize)
    ensures |h| == 32
  {
    MAGIC + Offtout(bzctrllen) + Offtout(bzdatalen) + Offtout(newsize)
  }

  /** For any two files and any segmentation of the new one, applying the patch gives the new file. */
  lemma RoundTrip(file: seq<Byte>, orig: seq<Byte>, ts: seq<Triple>, bzctrllen: nat, bzdatalen: nat)
    requires Fits(|file|) && Fits(bzctrllen) && Fits(bzdatalen) && Segmentation(ts, |file|)
    ensures Run(Header(bzctrllen, bzdatalen, |file|), Encode(file, 0, orig, 0, ts), orig) == Patched(file)
  {
    hide Patch, Encode, Segmentation, Encodes, Offtin, Offtout;
    var h := Header(bzctrllen, bzdatalen, |file|);
    assert h[..8] == MAGIC;
    assert h[8..16] == Offtout(bzctrllen) && h[16..24] == Offtout(bzdatalen) && h[24..32] == Offtout(|file|);
    OfftinOfOfftout(bzctrllen);
    OfftinOfOfftout(bzdatalen);
    OfftinOfOfftout(|file|);
    EncodeEncodes(file, 0, orig, 0, ts);
    EncodedIsPatched(Encode(file, 0, orig, 0, ts), orig, 0, file, 0, ts);
    assert file[..0] == [];
  }

  // --- copying from the old file ---

  /** Triples that only add to the old file, and only inside it. */
  predicate InsideOld(orig: seq<Byte>, oldpos: int, ts: seq<Triple>)
    decreases |ts|
  {
    ts == [] ||
    (var t := ts[0];
     && 0 <= t.x && t.y == 0 && Fits(t.x) && Fits(t.z)
     && (t.x > 0 ==> 0 <= oldpos && oldpos + t.x <= |orig|)
     && InsideOld(orig, oldpos + t.x + t.z, ts[1..]))
  }

  /** The slices of the old file that the triples walk over. */
  function Slices(orig: seq<Byte>, oldpos: int, ts: seq<Triple>): seq<Byte>
    requires InsideOld(orig, oldpos, ts)
    decreases |ts|
  {
    if ts == [] then []
    else
      var t := ts[0];
      Slice(orig, oldpos, t) + Slices(orig, oldpos + t.x + t.z, ts[1..])
  }

  function Controls(ts: seq<Triple>): seq<Byte>
    requires forall k | 0 <= k < |ts| :: Fits(ts[k].x) && Fits(ts[k].y) && Fits(ts[k].z)
  {
    if ts == [] then []
    else Offtout(ts[0].x) + Offtout(ts[0].y) + Offtout(ts[0].z) + Controls(ts[1..])
  }

  lemma {:induction false} AllFit(orig: seq<Byte>, oldpos: int, ts: seq<Triple>)
    requires InsideOld(orig, oldpos, ts)
    ensures forall k | 0 <= k < |ts| :: Fits(ts[k].x) && Fits(ts[k].y) && Fits(ts[k].z)
    decreases |ts|
  {
    if ts != [] {
      AllFit(orig, oldpos + ts[0].x + ts[0].z, ts[1..]);
      assert forall k | 1 <= k < |ts| :: ts[k] == ts[1..][k - 1];
    }
  }

  /** The slice a triple copies. */
  function Slice(orig: seq<Byte>, oldpos: int, t: Triple): (s: seq<Byte>)
    requires 0 <= t.x && (t.x > 0 ==> 0 <= oldpos && oldpos + t.x <= |orig|)
    ensures |s| == t.x
  {
    if t.x > 0 then orig[oldpos..oldpos + t.x] else []
  }

  /** One turn of the loop on zeros of the diff block. */
  lemma CopyTurn(orig: seq<Byte>, oldpos: int, t: Triple, rest: seq<Byte>, out: seq<Byte>, n: nat)
    requires 0 <= t.x <= n && 0 < n && t.y == 0 && Fits(t.x) && Fits(t.z)
    requires t.x > 0 ==> 0 <= oldpos && oldpos + t.x <= |orig|
    ensures var ctrl := Offtout(t.x) + Offtout(t.y) + Offtout(t.z) + rest;
            Patch(Blocks(ctrl, Zeros(n), []), orig, oldpos, out, |out| + n) ==
            Patch(Blocks(rest, Zeros(n - t.x), []), orig, oldpos + t.x + t.z, out + Slice(orig, oldpos, t), |out| + n)
  {
    hide Patch, Offtout, Added, TripleAt, Zeros;
    var b := Blocks(Offtout(t.x) + Offtout(t.y) + Offtout(t.z) + rest, Zeros(n), []);
    TripleOfEncoding(t, rest);
    OneTurn(b, orig, oldpos, out, |out| + n);
    assert Zeros(n)[..t.x] == Zeros(t.x) && Zeros(n)[t.x..] == Zeros(n - t.x);
    if t.x > 0 {
      AddingZeros(orig, oldpos, t.x);
    } else {
      assert Added(Zeros(0), orig, oldpos) == [];
    }
    assert b.extra[..0] == [] && b.extra[0..] == [];
    assert out + Slice(orig, oldpos, t) + [] == out + Slice(orig, oldpos, t);
  }

  lemma FirstOfSlices(orig: seq<Byte>, oldpos: int, ts: seq<Triple>)
    requires InsideOld(orig, oldpos, ts) && Slices(orig, oldpos, ts) != []
    ensures ts != []
    ensures var t := ts[0];
            && 0 <= t.x && t.y == 0 && Fits(t.x) && Fits(t.y) && Fits(t.z)
            && (t.x > 0 ==> 0 <= oldpos && oldpos + t.x <= |orig|)
            && InsideOld(orig, oldpos + t.x + t.z, ts[1..])
            && Slices(orig, oldpos, ts) == Slice(orig, oldpos, t) + Slices(orig, oldpos + t.x + t.z, ts[1..])
  {
    hide Slice;
  }

  lemma FirstOfControls(ts: seq<Triple>)
    requires ts != [] && forall k | 0 <= k < |ts| :: Fits(ts[k].x) && Fits(ts[k].y) && Fits(ts[k].z)
    ensures Controls(ts) == Offtout(ts[0].x) + Offtout(ts[0].y) + Offtout(ts[0].z) + Controls(ts[1..])
  {
    hide Offtout;
  }

  /** A patch whose diff block is all zeros copies the slices of the old file its triples seek to. */
  lemma {:induction false} SeeksAndCopies(orig: seq<Byte>, oldpos: int, ts: seq<Triple>, out: seq<Byte>)
    requires InsideOld(orig, oldpos, ts)
    ensures forall k | 0 <= k < |ts| :: Fits(ts[k].x) && Fits(ts[k].y) && Fits(ts[k].z)
    ensures var s := Slices(orig, oldpos, ts);
            Patch(Blocks(Controls(ts), Zeros(|s|), []), orig, oldpos, out, |out| + |s|) == Patched(out + s)
    decreases |ts|
  {
    hide Patch, Offtout, Zeros, Slices, Slice, Controls, InsideOld;
    AllFit(orig, oldpos, ts);
    var s := Slices(orig, oldpos, ts);
    if s == [] {
      OneTurn(Blocks(Controls(ts), Zeros(0), []), orig, oldpos, out, |out|);
      assert out + s == out;
    } else {
      FirstOfSlices(orig, oldpos, ts);
      FirstOfControls(ts);
      var t := ts[0];
      var first, rest := Slice(orig, oldpos, t), Slices(orig, oldpos + t.x + t.z, ts[1..]);
      SeeksAndCopies(orig, oldpos + t.x + t.z, ts[1..], out + first);
      CopyTurn(orig, oldpos, t, Controls(ts[1..]), out, |s|);
      assert out + first + rest == out + s;
    }
  }

  // --- a fixed patch ---

  /** A small length in its eight bytes; sign is 0 or 128. */
  function Small(x: Byte, sign: Byte): (b: seq<Byte>) {
    [x, 0, 0, 0, 0, 0, 0, sign]
  }

  lemma OfftinOfSmall(x: Byte, sign: Byte)
    requires sign == 0 || sign == 128
    ensures Offtin(Small(x, sign)) == if sign == 128 then -(x as int) else x
  {
    hide Offtin;
    OfftinByPlaces(Small(x, sign));
  }

  /** The order of the three lengths of a triple. */
  lemma TripleByPlaces(x: Byte, y: Byte, z: Byte, sign: Byte, rest: seq<Byte>)
    requires sign == 0 || sign == 128
    ensures var ctrl := Small(x, 0) + Small(y, 0) + Small(z, sign) + rest;
            && TripleAt(ctrl) == Triple(x, y, if sign == 128 then -(z as int) else z)
            && |ctrl| >= 24 && ctrl[24..] == rest
  {
    var ctrl := Small(x, 0) + Small(y, 0) + Small(z, sign) + rest;
    assert |Small(x, 0)| == 8 && |Small(y, 0)| == 8 && |Small(z, sign)| == 8;
    OfftinOfSmall(x, 0);
    OfftinOfSmall(y, 0);
    OfftinOfSmall(z, sign);
    hide Offtin, Small;
    assert ctrl[..8] == Small(x, 0) && ctrl[8..16] == Small(y, 0) && ctrl[16..24] == Small(z, sign);
  }

  lemma FirstFixedTurn(ctrl: seq<Byte>, rest: seq<Byte>)
    requires |ctrl| >= 24 && TripleAt(ctrl) == Triple(2, 1, -1) && ctrl[24..] == rest
    ensures Patch(Blocks(ctrl, [1, 255, 0, 3], [7]), [10, 20, 30, 40], 0, [], 5) ==
            Patch(Blocks(rest, [0, 3], []), [10, 20, 30, 40], 1, [11, 19, 7], 5)
  {
    hide TripleAt, Patch;
    var orig: seq<Byte>, diff: seq<Byte>, extra: seq<Byte> := [10, 20, 30, 40], [1, 255, 0, 3], [7];
    OneTurn(Blocks(ctrl, diff, extra), orig, 0, [], 5);
    assert diff[..2] == [1, 255] && diff[2..] == [0, 3] && extra[..1] == [7] && extra[1..] == [];
    assert Added([1, 255], orig, 0) == [11, 19];
    assert [] + [11, 19] + [7] == [11, 19, 7];
  }

  lemma SecondFixedTurn(ctrl: seq<Byte>)
    requires |ctrl| >= 24 && TripleAt(ctrl) == Triple(2, 0, 0)
    ensures Patch(Blocks(ctrl, [0, 3], []), [10, 20, 30, 40], 1, [11, 19, 7], 5) == Patched([11, 19, 7, 20, 33])
  {
    hide TripleAt, Patch;
    var orig: seq<Byte>, diff: seq<Byte>, out: seq<Byte> := [10, 20, 30, 40], [0, 3], [11, 19, 7];
    OneTurn(Blocks(ctrl, diff, []), orig, 1, out, 5);
    assert diff[..2] == diff;
    assert Added(diff, orig, 1) == [20, 33];
    assert out + [20, 33] + [] == [11, 19, 7, 20, 33];
    OneTurn(After(Blocks(ctrl, diff, []), Triple(2, 0, 0)), orig, 3, [11, 19, 7, 20, 33], 5);
  }

  /** A whole patch, byte by byte: add two bytes, copy one, seek back by one, add two more. */
  lemma FixedPatch()
    ensures var header := [66, 83, 68, 73, 70, 70, 52, 48] + Small(40, 0) + Small(44, 0) + Small(5, 0);
            var ctrl := Small(2, 0) + Small(1, 0) + Small(1, 128) + (Small(2, 0) + Small(0, 0) + Small(0, 0) + []);
            Run(header, Blocks(ctrl, [1, 255, 0, 3], [7]), [10, 20, 30, 40]) == Patched([11, 19, 7, 20, 33])
  {
    var header := [66, 83, 68, 73, 70, 70, 52, 48] + Small(40, 0) + Small(44, 0) + Small(5, 0);
    assert |Small(40, 0)| == 8 && |Small(44, 0)| == 8 && |Small(5, 0)| == 8;
    OfftinOfSmall(40, 0);
    OfftinOfSmall(44, 0);
    OfftinOfSmall(5, 0);
    hide Offtin, Small, Patch, TripleAt;
    assert header[..8] == MAGIC && header[8..16] == Small(40, 0) && header[16..24] == Small(44, 0);
    assert header[24..32] == Small(5, 0);
    var rest := Small(2, 0) + Small(0, 0) + Small(0, 0) + [];
    TripleByPlaces(2, 1, 1, 128, rest);
    TripleByPlaces(2, 0, 0, 0, []);
    FirstFixedTurn(Small(2, 0) + Small(1, 0) + Small(1, 128) + rest, rest);
    SecondFixedTurn(rest);
  }
}
