/**
  The boot image made by mkpimage: the header with its lengths, checksum and
  branches, and the CRC word at the end.
 */
module BootImage {
  import opened Crc

  const VALIDATION_WORD := 0x31305341
  const BRANCH_INST: Byte := 0xea
  const MAX_V0IMAGE_SIZE := 60 * 1024 - 4
  const MAX_V1IMAGE_SIZE := 224 * 1024 - 4
  const BAREBOX_SIZE := 512

  /** Where the header starts, how long it is, and its fields in versions 0 and 1. */
  const HEADER := 0x40
  const HEADER_SIZE := 20
  const TRAMPOLINE := HEADER + HEADER_SIZE
  const PROGRAM_LENGTH_V0 := HEADER + 6
  const CHECKSUM_V0 := HEADER + 10
  const START_VECTOR_V0 := HEADER + 12
  const HEADER_LENGTH_V1 := HEADER + 6
  const PROGRAM_LENGTH_V1 := HEADER + 8
  const ENTRY_OFFSET_V1 := HEADER + 12
  const CHECKSUM_V1 := HEADER + 18

  // ---------- Reading an image ----------

  /** Little-endian numbers. */
  function Join3(b0: int, b1: int, b2: int): int {
    b0 + 0x100 * b1 + 0x1_0000 * b2
  }

  function Read2(b: seq<Byte>, at: nat): int
    requires at + 2 <= |b|
  {
    Join3(b[at], b[at + 1], 0)
  }

  function Read4(b: seq<Byte>, at: nat): int
    requires at + 4 <= |b|
  {
    Join3(b[at], b[at + 1], b[at + 2]) + 0x100_0000 * (b[at + 3] as int)
  }

  /** Where the branch at `at` goes to (section A8.8.18 of the ARMv7-A Architecture
      Reference Manual): 24 bits, sign-extended and times 4, from the instruction
      after the next. */
  function BranchTarget(b: seq<Byte>, at: nat): int
    requires at + 4 <= |b|
  {
    at + 8 + 4 * SignExtend24(Join3(b[at], b[at + 1], b[at + 2]))
  }

  function SignExtend24(n: int): int {
    if n < 0x80_0000 then n else n - 0x100_0000
  }

  predicate IsBranch(b: seq<Byte>, at: nat, dest: int)
    requires at + 4 <= |b|
  {
    b[at + 3] == BRANCH_INST && BranchTarget(b, at) == dest
  }

  function Sum(b: seq<Byte>): nat {
    if b == [] then 0 else Sum(b[..|b| - 1]) + (b[|b| - 1] as int)
  }

  lemma {:induction false} SumBound(b: seq<Byte>)
    ensures Sum(b) <= 255 * |b|
  {
    if b != [] {
      SumBound(b[..|b| - 1]);
    }
  }

  function Inverted(crc: bv32): (w: nat)
    ensures w < 0x1_0000_0000
  {
    (crc ^ 0xffff_ffff) as int
  }

  /** The word that closes an image. */
  function CrcWord(b: seq<Byte>): (w: nat)
    ensures w < 0x1_0000_0000
  {
    Inverted(CrcOf(0xffff_ffff, b))
  }

  predicate Common(b: seq<Byte>, version: nat)
    requires |b| >= HEADER + 6
  {
    Read4(b, HEADER) == VALIDATION_WORD && b[HEADER + 4] == version && b[HEADER + 5] == 0
  }

  predicate HeaderV0(b: seq<Byte>, start: nat)
    requires |b| >= START_VECTOR_V0 + 4
  {
    && Common(b, 0)
    && 4 * Read2(b, PROGRAM_LENGTH_V0) == |b|
    && Read2(b, CHECKSUM_V0) == Sum(b[HEADER..CHECKSUM_V0])
    && IsBranch(b, START_VECTOR_V0, start)
  }

  predicate FieldsV1(b: seq<Byte>, start: nat)
    requires |b| >= TRAMPOLINE
  {
    && Common(b, 1)
    && Read2(b, HEADER_LENGTH_V1) == HEADER_SIZE
    && Read4(b, PROGRAM_LENGTH_V1) == |b|
    && Read2(b, CHECKSUM_V1) == Sum(b[HEADER..CHECKSUM_V1])
    && HEADER + Read4(b, ENTRY_OFFSET_V1) == (if start < HEADER then TRAMPOLINE else start)
  }

  /** An entry before the header is reached by way of a branch behind it. */
  predicate HeaderV1(b: seq<Byte>, start: nat)
    requires |b| >= HeaderEnd(start, 1)
  {
    FieldsV1(b, start) && (start < HEADER ==> IsBranch(b, TRAMPOLINE, start))
  }

  predicate Header(b: seq<Byte>, start: nat, version: nat)
    requires |b| >= HeaderEnd(start, version)
  {
    if version == 0 then HeaderV0(b, start) else HeaderV1(b, start)
  }

  /** Where what is written over the program ends. */
  function HeaderEnd(start: nat, version: nat): nat {
    if version == 0 then START_VECTOR_V0 + 4 else if start < HEADER then TRAMPOLINE + 4 else TRAMPOLINE
  }

  /** Does the header lie in an image of this size, and the size in its field? */
  predicate HasHeader(size: nat, start: nat, version: nat) {
    HeaderEnd(start, version) <= size < if version == 0 then 0x4_0000 else 0x1_0000_0000
  }

  /** Is there room for the CRC word behind it as well? */
  predicate Fits(size: nat, start: nat, version: nat) {
    HasHeader(size, start, version) && HeaderEnd(start, version) + 4 <= size
  }

  predicate CrcRight(b: seq<Byte>)
    requires |b| >= 4
  {
    Read4(b, |b| - 4) == CrcWord(b[..|b| - 4])
  }

  /** All that a boot loader checks or follows, for an image that starts at start. */
  predicate Consistent(b: seq<Byte>, start: nat, version: nat)
    requires |b| >= HeaderEnd(start, version)
  {
    Header(b, start, version) && CrcRight(b)
  }

  /** The image b is what the CRC word makes of `before`, in which the header was right. */
  predicate Closed(before: seq<Byte>, b: seq<Byte>, start: nat, version: nat)
    requires |b| >= HeaderEnd(start, version)
  {
    && |before| == |b| && before[..|b| - 4] == b[..|b| - 4]
    && Header(before, start, version) && CrcRight(b)
  }

  // ---------- Writing one ----------

  /** n >> shift, its lowest eight bits; for negative n, of the two's complement. */
  function ByteOf(n: int, scale: nat): Byte
    requires scale > 0
  {
    (n / scale) % 0x100
  }

  method Put2(buf: array<Byte>, at: nat, n: nat)
    requires at + 2 <= buf.Length && n < 0x1_0000
    modifies buf
    ensures Read2(buf[..], at) == n
    ensures forall k :: 0 <= k < buf.Length && !(at <= k < at + 2) ==> buf[k] == old(buf[k])
  {
    buf[at] := ByteOf(n, 1);
    buf[at + 1] := ByteOf(n, 0x100);
  }

  method Put4(buf: array<Byte>, at: nat, n: nat)
    requires at + 4 <= buf.Length && n < 0x1_0000_0000
    modifies buf
    ensures Read4(buf[..], at) == n
    ensures forall k :: 0 <= k < buf.Length && !(at <= k < at + 4) ==> buf[k] == old(buf[k])
  {
    buf[at] := ByteOf(n, 1);
    buf[at + 1] := ByteOf(n, 0x100);
    buf[at + 2] := ByteOf(n, 0x1_0000);
    buf[at + 3] := ByteOf(n, 0x100_0000);
    FourBytes(n);
  }

  lemma Div16(n: int, q: int, r: int)
    requires n == 0x1_0000 * q + r && 0 <= r < 0x1_0000
    ensures n / 0x1_0000 == q
  {
  }

  lemma Div24(n: int, q: int, r: int)
    requires n == 0x100_0000 * q + r && 0 <= r < 0x100_0000
    ensures n / 0x100_0000 == q
  {
  }

  /** Shifting by eight bits again and again. */
  lemma Shifts(n: int)
    ensures n / 0x1_0000 == n / 0x100 / 0x100 && n / 0x100_0000 == n / 0x100 / 0x100 / 0x100
    ensures var n1, n2 := n / 0x100, n / 0x100 / 0x100;
      n == n % 0x100 + 0x100 * (n1 % 0x100) + 0x1_0000 * (n2 % 0x100) + 0x100_0000 * (n2 / 0x100)
  {
    var n1 := n / 0x100;
    var n2 := n1 / 0x100;
    var n3 := n2 / 0x100;
    assert n == n % 0x100 + 0x100 * n1 && n1 == n1 % 0x100 + 0x100 * n2 && n2 == n2 % 0x100 + 0x100 * n3;
    Div16(n, n2, n % 0x100 + 0x100 * (n1 % 0x100));
    Div24(n, n3, n % 0x100 + 0x100 * (n1 % 0x100) + 0x1_0000 * (n2 % 0x100));
  }

  lemma FourBytes(n: nat)
    requires n < 0x1_0000_0000
    ensures Join3(ByteOf(n, 1), ByteOf(n, 0x100), ByteOf(n, 0x1_0000)) + 0x100_0000 * (ByteOf(n, 0x100_0000) as int) == n
  {
    Shifts(n);
  }

  /** branch: at a distance of at most 32 megabytes, and on word boundaries. */
  method Branch(buf: array<Byte>, at: nat, dest: nat)
    requires at + 4 <= buf.Length
    requires (dest - at) % 4 == 0 && -0x200_0000 <= dest - at - 8 < 0x200_0000
    modifies buf
    ensures IsBranch(buf[..], at, dest)
    ensures forall k :: 0 <= k < buf.Length && !(at <= k < at + 4) ==> buf[k] == old(buf[k])
  {
    var offset := dest - at - 8;
    buf[at] := ByteOf(offset, 4);
    buf[at + 1] := ByteOf(offset, 0x400);
    buf[at + 2] := ByteOf(offset, 0x4_0000);
    buf[at + 3] := BRANCH_INST;
    ThreeBytes(offset);
  }

  lemma ThreeBytes(offset: int)
    requires offset % 4 == 0 && -0x200_0000 <= offset < 0x200_0000
    ensures 4 * SignExtend24(Join3(ByteOf(offset, 4), ByteOf(offset, 0x400), ByteOf(offset, 0x4_0000))) == offset
  {
    var q := offset / 4;
    assert offset == 4 * q;
    QuarterBytes(q);
    JoinBytes(q);
    hide ByteOf, Join3;
    SignBack(q);
  }

  /** The bytes of the word distance are those of the distance shifted by two bits. */
  lemma QuarterBytes(q: int)
    ensures ByteOf(4 * q, 4) == ByteOf(q, 1)
    ensures ByteOf(4 * q, 0x400) == ByteOf(q, 0x100) && ByteOf(4 * q, 0x4_0000) == ByteOf(q, 0x1_0000)
  {
    var q1 := q / 0x100;
    Div10(4 * q, q1, 4 * (q % 0x100));
    Shifts(q);
    Div18(4 * q, q1 / 0x100, 4 * (q % 0x100) + 0x400 * (q1 % 0x100));
  }

  lemma JoinBytes(q: int)
    ensures Join3(ByteOf(q, 1), ByteOf(q, 0x100), ByteOf(q, 0x1_0000)) == q % 0x100_0000
  {
    Shifts(q);
    Mod24(q, q / 0x100_0000, Join3(ByteOf(q, 1), ByteOf(q, 0x100), ByteOf(q, 0x1_0000)));
  }

  lemma Mod24(n: int, q: int, r: int)
    requires n == 0x100_0000 * q + r && 0 <= r < 0x100_0000
    ensures n % 0x100_0000 == r
  {
  }

  /** The top bit of the 24 is the sign. */
  lemma SignBack(q: int)
    requires -0x80_0000 <= q < 0x80_0000
    ensures SignExtend24(q % 0x100_0000) == q
  {
  }

  lemma Div10(n: int, q: int, r: int)
    requires n == 0x400 * q + r && 0 <= r < 0x400
    ensures n / 0x400 == q
  {
  }

  lemma Div18(n: int, q: int, r: int)
    requires n == 0x4_0000 * q + r && 0 <= r < 0x4_0000
    ensures n / 0x4_0000 == q
  {
  }

  method SumBytes(buf: array<Byte>, from: nat, to: nat) returns (sum: nat)
    requires from <= to <= buf.Length
    ensures sum == Sum(buf[from..to])
  {
    sum := 0;
    for i := from to to
      invariant sum == Sum(buf[from..i])
    {
      assert buf[from..i + 1] == buf[from..i] + [buf[i]];
      sum := sum + (buf[i] as int);
    }
  }

  method PutCommon(buf: array<Byte>, version: nat)
    requires buf.Length >= HEADER + 6 && version < 2
    modifies buf
    ensures Common(buf[..], version)
    ensures forall k :: 0 <= k < buf.Length && !(HEADER <= k < HEADER + 6) ==> buf[k] == old(buf[k])
  {
    Put4(buf, HEADER, VALIDATION_WORD);
    buf[HEADER + 4] := version;
    buf[HEADER + 5] := 0;
  }

  /** The sum of the header up to its checksum, which comes right behind. */
  method PutChecksum(buf: array<Byte>, at: nat)
    requires HEADER <= at <= HEADER + 0x100 && at + 2 <= buf.Length
    modifies buf
    ensures Read2(buf[..], at) == Sum(buf[HEADER..at])
    ensures forall k :: 0 <= k < buf.Length && !(at <= k < at + 2) ==> buf[k] == old(buf[k])
  {
    var checksum := SumBytes(buf, HEADER, at);
    SumBound(buf[HEADER..at]);
    ghost var summed := buf[HEADER..at];
    Put2(buf, at, checksum);
    assert buf[HEADER..at] == summed;
  }

  /** The distance from the header to start is one that a branch can have. */
  predicate Reachable(start: nat) {
    start % 4 == 0 && start <= 0x100_0000
  }

  method FillV0(buf: array<Byte>, start: nat)
    requires buf.Length % 4 == 0 && HasHeader(buf.Length, start, 0) && Reachable(start)
    modifies buf
    ensures HeaderV0(buf[..], start)
    ensures forall k :: 0 <= k < buf.Length && !(HEADER <= k < HeaderEnd(start, 0)) ==> buf[k] == old(buf[k])
  {
    hide Sum, ByteOf, Join3, SignExtend24;
    PutCommon(buf, 0);
    Put2(buf, PROGRAM_LENGTH_V0, buf.Length / 4);
    buf[PROGRAM_LENGTH_V0 + 2] := 0;
    buf[PROGRAM_LENGTH_V0 + 3] := 0;
    Branch(buf, START_VECTOR_V0, start);
    PutChecksum(buf, CHECKSUM_V0);
    assert buf[..][HEADER..CHECKSUM_V0] == buf[HEADER..CHECKSUM_V0];
  }

  method FillV1(buf: array<Byte>, start: nat)
    requires HasHeader(buf.Length, start, 1) && Reachable(start)
    modifies buf
    ensures HeaderV1(buf[..], start)
    ensures forall k :: 0 <= k < buf.Length && !(HEADER <= k < HeaderEnd(start, 1)) ==> buf[k] == old(buf[k])
  {
    hide FieldsV1, Join3, SignExtend24;
    var entry := start;
    if entry < HEADER {
      Branch(buf, TRAMPOLINE, entry);
      entry := TRAMPOLINE;
    }
    FillFieldsV1(buf, entry, start);
  }

  method FillFieldsV1(buf: array<Byte>, entry: nat, ghost start: nat)
    requires TRAMPOLINE <= buf.Length < 0x1_0000_0000 && HEADER <= entry < HEADER + 0x1_0000_0000
    requires entry == if start < HEADER then TRAMPOLINE else start
    modifies buf
    ensures FieldsV1(buf[..], start)
    ensures forall k :: 0 <= k < buf.Length && !(HEADER <= k < TRAMPOLINE) ==> buf[k] == old(buf[k])
  {
    hide Sum, ByteOf, Join3;
    PutCommon(buf, 1);
    Put2(buf, HEADER_LENGTH_V1, HEADER_SIZE);
    Put4(buf, PROGRAM_LENGTH_V1, buf.Length);
    Put4(buf, ENTRY_OFFSET_V1, entry - HEADER);
    buf[ENTRY_OFFSET_V1 + 4] := 0;
    buf[ENTRY_OFFSET_V1 + 5] := 0;
    PutChecksum(buf, CHECKSUM_V1);
    assert buf[..][HEADER..CHECKSUM_V1] == buf[HEADER..CHECKSUM_V1];
  }

  method WordFor(buf: array<Byte>, length: nat) returns (w: nat)
    requires length <= buf.Length
    ensures w == CrcWord(buf[0..length])
  {
    hide CrcOf, Inverted;
    var crc := Crc32(0xffff_ffff, buf, 0, length);
    w := Inverted(crc);
  }

  /** add_socfpga_header on a buffer of the size of the image. */
  method AddHeader(buf: array<Byte>, start: nat, version: nat) returns (ok: bool, ghost before: seq<Byte>)
    requires version < 2 && Reachable(start)
    requires buf.Length % 4 == 0 ==> HasHeader(buf.Length, start, version)
    modifies buf
    ensures ok <==> buf.Length % 4 == 0
    ensures !ok ==> buf[..] == old(buf[..])
    ensures ok ==> Closed(before, buf[..], start, version)
    ensures ok && Fits(buf.Length, start, version) ==> Consistent(buf[..], start, version)
    ensures ok ==> forall k :: 0 <= k < buf.Length - 4 && !(HEADER <= k < HeaderEnd(start, version)) ==> buf[k] == old(buf[k])
  {
    hide Sum, ByteOf, Join3, SignExtend24, CrcWord, HeaderV0, HeaderV1;
    before := buf[..];
    if buf.Length % 4 != 0 {
      return false, before;
    }
    if version == 0 {
      FillV0(buf, start);
    } else {
      FillV1(buf, start);
    }
    before := buf[..];
    var last := buf.Length - 4;
    assert buf[0..last] == before[..last];
    var crc := WordFor(buf, last);
    Put4(buf, last, crc);
    SameSlice(before, buf[..], last);
    if Fits(buf.Length, start, version) {
      HeaderKept(before, buf[..], start, version);
    }
    ok := true;
  }

  lemma SameSlice(a: seq<Byte>, b: seq<Byte>, n: nat)
    requires n <= |a| == |b| && forall k :: 0 <= k < n ==> a[k] == b[k]
    ensures a[..n] == b[..n] == a[0..n] == b[0..n]
  {
  }

  lemma SameFront(a: seq<Byte>, b: seq<Byte>, n: nat)
    requires n <= |a| == |b| && a[..n] == b[..n]
    ensures forall k :: 0 <= k < n ==> a[k] == b[k]
    ensures forall i, j :: 0 <= i <= j <= n ==> a[i..j] == b[i..j]
  {
    assert forall k :: 0 <= k < n ==> a[k] == a[..n][k] && b[k] == b[..n][k];
    forall i, j | 0 <= i <= j <= n
      ensures a[i..j] == b[i..j]
    {
      SamePart(a, b, i, j);
    }
  }

  lemma SamePart(a: seq<Byte>, b: seq<Byte>, i: nat, j: nat)
    requires i <= j <= |a| == |b| && forall k :: i <= k < j ==> a[k] == b[k]
    ensures a[i..j] == b[i..j]
  {
  }

  /** Where there is room for it the CRC word does not touch the header. */
  lemma HeaderKept(a: seq<Byte>, b: seq<Byte>, start: nat, version: nat)
    requires |a| == |b| && Fits(|a|, start, version) && a[..|a| - 4] == b[..|a| - 4]
    ensures Header(a, start, version) <==> Header(b, start, version)
  {
    hide Sum, Join3, SignExtend24;
    SameFront(a, b, |a| - 4);
  }

  // ---------- No room behind the trampoline ----------

  /** The instruction at `at` that branches to dest. */
  function BranchWord(at: nat, dest: nat): int {
    var words := (dest - at - 8) / 4;
    0x100_0000 * (BRANCH_INST as int) + if words < 0 then words + 0x100_0000 else words
  }

  lemma BranchIsWord(b: seq<Byte>, at: nat, dest: nat)
    requires at + 4 <= |b| && (dest - at) % 4 == 0 && -0x200_0000 <= dest - at - 8 < 0x200_0000
    ensures IsBranch(b, at, dest) <==> Read4(b, at) == BranchWord(at, dest)
  {
    hide Join3;
    WordParts(b, at);
    var low := Join3(b[at], b[at + 1], b[at + 2]);
    assert Read4(b, at) == low + 0x100_0000 * (b[at + 3] as int);
  }

  /** If an image of version 1 ends with its trampoline, the CRC word takes the place
      of the branch: the header still names it as the entry, and the image is
      consistent if and only if the CRC word happens to be that branch. */
  lemma TrampolineOverwritten(before: seq<Byte>, b: seq<Byte>, start: nat)
    requires |b| == TRAMPOLINE + 4 && start < HEADER && start % 4 == 0 && Closed(before, b, start, 1)
    ensures FieldsV1(b, start) && HEADER + Read4(b, ENTRY_OFFSET_V1) == TRAMPOLINE
    ensures Read4(b, TRAMPOLINE) == CrcWord(b[..TRAMPOLINE])
    ensures Consistent(b, start, 1) <==> CrcWord(b[..TRAMPOLINE]) == BranchWord(TRAMPOLINE, start)
  {
    hide Sum, Join3, CrcWord, BranchWord, IsBranch;
    SameFront(before, b, TRAMPOLINE);
    BranchIsWord(b, TRAMPOLINE, start);
  }

  // ---------- The whole image ----------

  function AddSize(barebox: bool): nat {
    if barebox then BAREBOX_SIZE else 0
  }

  /** The size of the image for an input of the given length. */
  function ImageSize(length: nat, barebox: bool): nat {
    length + 4 + AddSize(barebox) + (4 - length % 4) % 4
  }

  /** The limits that main puts on the length of its input. */
  predicate Accepted(length: nat, version: nat, barebox: bool) {
    && (barebox || length >= 80)
    && length <= (if version == 0 then MAX_V0IMAGE_SIZE else MAX_V1IMAGE_SIZE) - AddSize(barebox)
  }

  /** Of the inputs accepted, exactly those of 80 to 84 bytes, for version 1 and
      without a barebox header, are too short for the trampoline to stand clear of
      the CRC word. */
  lemma AcceptedFits(length: nat, version: nat, barebox: bool)
    requires version < 2 && Accepted(length, version, barebox)
    ensures var size := ImageSize(length, barebox);
      && size % 4 == 0 && size <= (if version == 0 then MAX_V0IMAGE_SIZE else MAX_V1IMAGE_SIZE) + 4
      && (Fits(size, AddSize(barebox), version) <==> version == 0 || barebox || length > 84)
  {
    var pad := (4 - length % 4) % 4;
    assert (length + pad) % 4 == 0;
  }

  /** The words of the barebox header: a branch past it, loops, a name, padding, and
      a branch past it again behind the place of the other header. */
  const BB_HEADER: seq<nat> := [
    0xea00007e, 0xeafffffe, 0xeafffffe, 0xeafffffe, 0xeafffffe, 0xeafffffe, 0xeafffffe, 0xeafffffe,
    0x65726162, 0x00786f62, 0, 0, 0, 0, 0, 0, 0, 0, 0, 0xea00006b]

  method PutBareboxHeader(buf: array<Byte>)
    requires buf.Length >= BAREBOX_SIZE
    modifies buf
    ensures forall i :: 0 <= i < 20 ==> Read4(buf[..], 4 * i) == BB_HEADER[i]
    ensures forall k :: 80 <= k < buf.Length ==> buf[k] == old(buf[k])
  {
    for i := 0 to 20
      invariant forall j :: 0 <= j < i ==> Read4(buf[..], 4 * j) == BB_HEADER[j]
      invariant forall k :: 80 <= k < buf.Length ==> buf[k] == old(buf[k])
    {
      Put4(buf, 4 * i, BB_HEADER[i]);
    }
  }

  lemma WordParts(b: seq<Byte>, at: nat)
    requires at + 4 <= |b|
    ensures b[at + 3] == Read4(b, at) / 0x100_0000
    ensures Join3(b[at], b[at + 1], b[at + 2]) == Read4(b, at) % 0x100_0000
  {
    var low := Join3(b[at], b[at + 1], b[at + 2]);
    assert 0 <= low < 0x100_0000;
    Div24(Read4(b, at), b[at + 3], low);
  }

  /** The branch before the header leads to the program, and the vectors behind it
      to themselves. */
  lemma BareboxBranches(b: seq<Byte>)
    requires |b| >= BAREBOX_SIZE && forall i :: 0 <= i < 16 ==> Read4(b, 4 * i) == BB_HEADER[i]
    ensures IsBranch(b, 0, BAREBOX_SIZE)
    ensures forall i :: 1 <= i < 8 ==> IsBranch(b, 4 * i, 4 * i)
  {
    hide Join3, Read4;
    assert Read4(b, 4 * 0) == BB_HEADER[0];
    WordParts(b, 0);
    forall i | 1 <= i < 8
      ensures IsBranch(b, 4 * i, 4 * i)
    {
      assert BB_HEADER[i] == 0xeafffffe;
      WordParts(b, 4 * i);
    }
  }

  /** What becomes of an input: it is refused, or the image is written; or the buffer
      ends before the branch behind the header. */
  datatype Outcome = Refused | NoRoom | Image(buf: array<Byte>)

  /** Is the buffer for this input too short for the header itself? */
  predicate TooShort(length: nat, version: nat, barebox: bool) {
    ImageSize(length, barebox) < HeaderEnd(AddSize(barebox), version)
  }

  /** That is the case for a single length, and for four more the CRC word takes the
      place of the branch. */
  lemma ShortInputs(length: nat, version: nat, barebox: bool)
    requires version < 2 && Accepted(length, version, barebox)
    ensures TooShort(length, version, barebox) <==> version == 1 && !barebox && length == 80
    ensures !TooShort(length, version, barebox) ==> HasHeader(ImageSize(length, barebox), AddSize(barebox), version)
    ensures ImageSize(length, barebox) == HeaderEnd(AddSize(barebox), version) <==>
      version == 1 && !barebox && 81 <= length <= 84
  {
    AcceptedFits(length, version, barebox);
  }

  /** What main writes out: an image a boot loader accepts, with the input in it
      wherever the header does not stand; and what it writes for short inputs of
      version 1, where 0xeaffffe9 is the branch back to the start. */
  method BuildImage(data: seq<Byte>, version: nat, barebox: bool) returns (r: Outcome)
    requires version < 2
    ensures r.Refused? <==> !Accepted(|data|, version, barebox)
    ensures r.NoRoom? <==> Accepted(|data|, version, barebox) && version == 1 && !barebox && |data| == 80
    ensures r.Image? ==> fresh(r.buf) && r.buf.Length == ImageSize(|data|, barebox) >= HeaderEnd(AddSize(barebox), version)
    ensures r.Image? && (version == 0 || barebox || |data| > 84) ==> Consistent(r.buf[..], AddSize(barebox), version)
    ensures r.Image? && version == 1 && !barebox && |data| <= 84 ==>
      && r.buf.Length == TRAMPOLINE + 4 && FieldsV1(r.buf[..], 0) && CrcRight(r.buf[..])
      && (Consistent(r.buf[..], 0, 1) <==> CrcWord(r.buf[..TRAMPOLINE]) == 0xeaffffe9)
    ensures r.Image? && barebox ==>
      var b := r.buf[..];
      b[BAREBOX_SIZE..BAREBOX_SIZE + |data|] == data && IsBranch(b, 0, BAREBOX_SIZE)
    ensures r.Image? && !barebox ==>
      forall k :: 0 <= k < |data| && !(HEADER <= k < HeaderEnd(0, version)) ==> r.buf[k] == data[k]
  {
    hide Sum, ByteOf, Join3, SignExtend24, Consistent, Read4, Closed, Header, HeaderV0, HeaderV1, FieldsV1, CrcRight, CrcWord;
    if !Accepted(|data|, version, barebox) {
      return Refused;
    }
    AcceptedFits(|data|, version, barebox);
    ShortInputs(|data|, version, barebox);
    if TooShort(|data|, version, barebox) {
      return NoRoom;
    }
    var start := AddSize(barebox);
    var buf := new Byte[ImageSize(|data|, barebox)](_ => 0);
    for i := 0 to |data|
      invariant forall k :: 0 <= k < i ==> buf[start + k] == data[k]
    {
      buf[start + i] := data[i];
    }
    if barebox {
      PutBareboxHeader(buf);
    }
    ghost var filled := buf[..];
    var ok, before := AddHeader(buf, start, version);
    if barebox {
      assert buf[..][BAREBOX_SIZE..BAREBOX_SIZE + |data|] == data;
      WordsKept(filled, buf[..]);
      BareboxBranches(buf[..]);
    } else if version == 1 && |data| <= 84 {
      TrampolineOverwritten(before, buf[..], 0);
      ClosedCrc(before, buf[..], 0);
      assert buf[..][..TRAMPOLINE] == buf[..TRAMPOLINE];
    }
    r := Image(buf);
  }

  lemma ClosedCrc(before: seq<Byte>, b: seq<Byte>, start: nat)
    requires |b| >= HeaderEnd(start, 1) && Closed(before, b, start, 1)
    ensures CrcRight(b) && BranchWord(TRAMPOLINE, 0) == 0xeaffffe9
  {
  }

  lemma WordsKept(a: seq<Byte>, b: seq<Byte>)
    requires |a| == |b| >= BAREBOX_SIZE && forall k :: 0 <= k < HEADER ==> a[k] == b[k]
    ensures forall i :: 0 <= i < 16 ==> Read4(a, 4 * i) == Read4(b, 4 * i)
  {
  }
}
