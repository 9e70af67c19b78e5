/** The image builder (source/elf_parser.cpp): PT_LOAD segments overlaid on a zeroed memory image,
    and what the hart finds there. */
module Elf {
  import opened Words
  import opened Traps
  import opened Ram
  import opened Mmu
  import opened HartModel

  const PT_LOAD: u32 := 1

  datatype ProgramHeader = ProgramHeader(p_type: u32, p_offset: u64, p_vaddr: u64, p_filesz: u64, p_memsz: u64)

  /** Rejected: a standard exception, which `LoadELF64` turns into an empty image. Overrun: a `memcpy`
      beyond the file or the image. */
  datatype ImageResult =
    | Image(mem: seq<byte>)
    | Rejected
    | Overrun

  function SegmentOffset(s: ProgramHeader): u64 {
    Wrap(s.p_vaddr - KERNBASE)
  }

  /** The size check, in 64-bit arithmetic, and the two `at` calls. */
  predicate Accepted(s: ProgramHeader, fileSize: nat, size: nat) {
    && Wrap(SegmentOffset(s) + s.p_memsz) <= size
    && SegmentOffset(s) < size
    && s.p_offset < fileSize
  }

  predicate CopyFits(s: ProgramHeader, fileSize: nat, size: nat) {
    SegmentOffset(s) + s.p_filesz <= size && s.p_offset + s.p_filesz <= fileSize
  }

  /** `memcpy` of a sequence over the bytes from i. */
  function Overlay(mem: seq<byte>, i: nat, src: seq<byte>): (r: seq<byte>)
    requires i + |src| <= |mem|
    ensures |r| == |mem|
  {
    mem[..i] + src + mem[i + |src|..]
  }

  function LoadSegment(binary: seq<byte>, s: ProgramHeader, mem: seq<byte>): ImageResult {
    if s.p_type != PT_LOAD then Image(mem)
    else if !Accepted(s, |binary|, |mem|) then Rejected
    else if !CopyFits(s, |binary|, |mem|) then Overrun
    else Image(Overlay(mem, SegmentOffset(s), binary[s.p_offset..s.p_offset + s.p_filesz]))
  }

  function LoadAll(binary: seq<byte>, phdrs: seq<ProgramHeader>, mem: seq<byte>): ImageResult {
    if phdrs == [] then Image(mem)
    else
      match LoadSegment(binary, phdrs[0], mem)
      case Image(m) => LoadAll(binary, phdrs[1..], m)
      case r => r
  }

  function Zeros(size: nat): (r: seq<byte>)
    ensures |r| == size
  {
    seq(size, k => 0)
  }

  /** `LoadSegments`, with the size of the image as a parameter (128 MB in the source). */
  method LoadSegments(binary: seq<byte>, phdrs: seq<ProgramHeader>, size: nat) returns (r: ImageResult)
    ensures r == LoadAll(binary, phdrs, Zeros(size))
  {
    var mem := new byte[size](k => 0);
    assert mem[..] == Zeros(size);
    for k := 0 to |phdrs|
      invariant LoadAll(binary, phdrs, Zeros(size)) == LoadAll(binary, phdrs[k..], mem[..])
    {
      var segment := phdrs[k];
      assert phdrs[k..][0] == segment && phdrs[k..][1..] == phdrs[k + 1..];
      if segment.p_type == PT_LOAD {
        var segment_offset := SegmentOffset(segment);
        if !Accepted(segment, |binary|, size) {
          return Rejected;
        }
        if !CopyFits(segment, |binary|, size) {
          return Overrun;
        }
        ghost var before := mem[..];
        CopyInto(mem, segment_offset, binary[segment.p_offset..segment.p_offset + segment.p_filesz]);
        assert LoadSegment(binary, segment, before) == Image(mem[..]);
      }
    }
    assert phdrs[|phdrs|..] == [];
    return Image(mem[..]);
  }

  /** `memcpy`. */
  method CopyInto(mem: array<byte>, i: nat, src: seq<byte>)
    requires i + |src| <= mem.Length
    modifies mem
    ensures mem[..] == Overlay(old(mem[..]), i, src)
  {
    for k := 0 to |src|
      invariant mem[..i] == old(mem[..i])
      invariant mem[i..i + k] == src[..k]
      invariant mem[i + k..] == old(mem[i + k..])
    {
      mem[i + k] := src[k];
      assert mem[i..i + k + 1] == src[..k] + [src[k]];
      assert mem[i + k + 1..] == old(mem[i + k + 1..]);
    }
    assert mem[..] == mem[..i] + mem[i..i + |src|] + mem[i + |src|..];
  }

  // ---------------------------------------------------------------- which files are accepted

  /** The checks on one header, with the 64-bit wrap-around of the source: the end of the segment in
      memory, its start, and its start in the file. */
  predicate PassesChecks(s: ProgramHeader, fileSize: nat, size: nat) {
    s.p_type == 1 ==>
      && (s.p_vaddr - 0x8000_0000 + s.p_memsz) % TWO64 <= size
      && (s.p_vaddr - 0x8000_0000) % TWO64 < size
      && s.p_offset < fileSize
  }

  /** The bytes that are copied lie in the image and in the file. */
  predicate CopiesInside(s: ProgramHeader, fileSize: nat, size: nat) {
    s.p_type == 1 ==>
      (s.p_vaddr - 0x8000_0000) % TWO64 + s.p_filesz <= size && s.p_offset + s.p_filesz <= fileSize
  }

  predicate Loads(s: ProgramHeader, fileSize: nat, size: nat) {
    PassesChecks(s, fileSize, size) && CopiesInside(s, fileSize, size)
  }

  /** k is the first header that does not load. */
  predicate FirstBad(phdrs: seq<ProgramHeader>, fileSize: nat, size: nat, k: nat) {
    && k < |phdrs| && !Loads(phdrs[k], fileSize, size)
    && forall j :: 0 <= j < k ==> Loads(phdrs[j], fileSize, size)
  }

  lemma WrappedEnd(v: u64, m: u64)
    ensures Wrap(Wrap(v - 0x8000_0000) + m) == (v - 0x8000_0000 + m) % TWO64
  {
  }

  lemma OneHeader(binary: seq<byte>, s: ProgramHeader, mem: seq<byte>)
    ensures var r := LoadSegment(binary, s, mem);
            && (r.Image? <==> Loads(s, |binary|, |mem|))
            && (r.Rejected? <==> !PassesChecks(s, |binary|, |mem|))
            && (r.Image? ==> |r.mem| == |mem|)
  {
    WrappedEnd(s.p_vaddr, s.p_memsz);
  }

  lemma {:induction false} AllLoad(binary: seq<byte>, phdrs: seq<ProgramHeader>, mem: seq<byte>)
    requires forall k :: 0 <= k < |phdrs| ==> Loads(phdrs[k], |binary|, |mem|)
    ensures LoadAll(binary, phdrs, mem).Image? && |LoadAll(binary, phdrs, mem).mem| == |mem|
  {
    if phdrs != [] {
      OneHeader(binary, phdrs[0], mem);
      AllLoad(binary, phdrs[1..], LoadSegment(binary, phdrs[0], mem).mem);
    }
  }

  lemma {:induction false} StopsAtBad(binary: seq<byte>, phdrs: seq<ProgramHeader>, mem: seq<byte>, k: nat)
    requires FirstBad(phdrs, |binary|, |mem|, k)
    ensures LoadAll(binary, phdrs, mem)
         == if PassesChecks(phdrs[k], |binary|, |mem|) then Overrun else Rejected
    decreases k
  {
    OneHeader(binary, phdrs[0], mem);
    if k > 0 {
      assert Loads(phdrs[0], |binary|, |mem|);
      var m := LoadSegment(binary, phdrs[0], mem).mem;
      assert forall j :: 0 <= j < k - 1 ==> phdrs[1..][j] == phdrs[j + 1];
      StopsAtBad(binary, phdrs[1..], m, k - 1);
    }
  }

  lemma {:induction false} SomeFirstBad(phdrs: seq<ProgramHeader>, fileSize: nat, size: nat, n: nat) returns (k: nat)
    requires n < |phdrs| && !Loads(phdrs[n], fileSize, size)
    ensures FirstBad(phdrs, fileSize, size, k)
    decreases n
  {
    if j :| 0 <= j < n && !Loads(phdrs[j], fileSize, size) {
      k := SomeFirstBad(phdrs, fileSize, size, j);
    } else {
      k := n;
    }
  }

  lemma OneFirstBad(phdrs: seq<ProgramHeader>, fileSize: nat, size: nat, i: nat, k: nat)
    requires FirstBad(phdrs, fileSize, size, i) && FirstBad(phdrs, fileSize, size, k)
    ensures i == k
  {
  }

  /** For every file: there is an image exactly when every PT_LOAD header passes the checks and copies
      within bounds, and the file is rejected exactly when the first header that does not load fails a
      check. */
  lemma AcceptedFiles(binary: seq<byte>, phdrs: seq<ProgramHeader>, size: nat)
    ensures var r := LoadAll(binary, phdrs, Zeros(size));
            && (r.Image? <==> forall k :: 0 <= k < |phdrs| ==> Loads(phdrs[k], |binary|, size))
            && (r.Rejected? <==> exists k: nat ::
                  FirstBad(phdrs, |binary|, size, k) && !PassesChecks(phdrs[k], |binary|, size))
  {
    if n :| 0 <= n < |phdrs| && !Loads(phdrs[n], |binary|, size) {
      var k := SomeFirstBad(phdrs, |binary|, size, n);
      StopsAtBad(binary, phdrs, Zeros(size), k);
      forall i: nat | FirstBad(phdrs, |binary|, size, i)
        ensures i == k
      {
        OneFirstBad(phdrs, |binary|, size, i, k);
      }
    } else {
      AllLoad(binary, phdrs, Zeros(size));
    }
  }

  // ---------------------------------------------------------------- which byte ends up where

  /** The segment's file bytes cover the address v. */
  predicate Covers(s: ProgramHeader, v: u64) {
    s.p_type == PT_LOAD && s.p_vaddr <= v < s.p_vaddr + s.p_filesz
  }

  lemma {:induction false} SameSize(binary: seq<byte>, phdrs: seq<ProgramHeader>, mem: seq<byte>)
    requires LoadAll(binary, phdrs, mem).Image?
    ensures |LoadAll(binary, phdrs, mem).mem| == |mem|
    ensures forall k :: 0 <= k < |phdrs| && phdrs[k].p_type == PT_LOAD ==>
              Accepted(phdrs[k], |binary|, |mem|) && CopyFits(phdrs[k], |binary|, |mem|)
  {
    if phdrs != [] {
      SameSize(binary, phdrs[1..], LoadSegment(binary, phdrs[0], mem).mem);
      assert forall k :: 0 < k < |phdrs| ==> phdrs[k] == phdrs[1..][k - 1];
    }
  }

  /** The image is small enough to lie between KERNBASE and the end of the address space, so an
      accepted segment does not start below KERNBASE. */
  lemma AcceptedOffset(s: ProgramHeader, fileSize: nat, size: nat)
    requires size <= TWO32 && Accepted(s, fileSize, size)
    ensures SegmentOffset(s) == s.p_vaddr - KERNBASE
  {
  }

  lemma OneSegment(binary: seq<byte>, s: ProgramHeader, mem: seq<byte>, v: u64)
    requires |mem| <= TWO32 && KERNBASE <= v < KERNBASE + |mem|
    requires LoadSegment(binary, s, mem).Image?
    ensures |LoadSegment(binary, s, mem).mem| == |mem|
    ensures Covers(s, v) ==> s.p_offset + (v - s.p_vaddr) < |binary|
    ensures LoadSegment(binary, s, mem).mem[v - KERNBASE]
         == if Covers(s, v) then binary[s.p_offset + (v - s.p_vaddr)] else mem[v - KERNBASE]
  {
    if s.p_type == PT_LOAD {
      AcceptedOffset(s, |binary|, |mem|);
    }
  }

  /** k is the last of the headers whose file bytes cover v. */
  predicate LastCover(phdrs: seq<ProgramHeader>, v: u64, k: nat) {
    k < |phdrs| && Covers(phdrs[k], v) && forall j :: k < j < |phdrs| ==> !Covers(phdrs[j], v)
  }

  lemma {:induction false} UncoveredByte(binary: seq<byte>, phdrs: seq<ProgramHeader>, mem: seq<byte>, v: u64)
    requires |mem| <= TWO32 && KERNBASE <= v < KERNBASE + |mem| && LoadAll(binary, phdrs, mem).Image?
    requires forall j :: 0 <= j < |phdrs| ==> !Covers(phdrs[j], v)
    ensures |LoadAll(binary, phdrs, mem).mem| == |mem|
    ensures LoadAll(binary, phdrs, mem).mem[v - KERNBASE] == mem[v - KERNBASE]
  {
    SameSize(binary, phdrs, mem);
    if phdrs != [] {
      OneSegment(binary, phdrs[0], mem, v);
      UncoveredByte(binary, phdrs[1..], LoadSegment(binary, phdrs[0], mem).mem, v);
    }
  }

  lemma {:induction false} CoveredByte(binary: seq<byte>, phdrs: seq<ProgramHeader>, mem: seq<byte>, v: u64, k: nat)
    requires |mem| <= TWO32 && KERNBASE <= v < KERNBASE + |mem| && LoadAll(binary, phdrs, mem).Image?
    requires LastCover(phdrs, v, k)
    ensures |LoadAll(binary, phdrs, mem).mem| == |mem|
    ensures phdrs[k].p_offset + (v - phdrs[k].p_vaddr) < |binary|
    ensures LoadAll(binary, phdrs, mem).mem[v - KERNBASE] == binary[phdrs[k].p_offset + (v - phdrs[k].p_vaddr)]
    decreases k
  {
    SameSize(binary, phdrs, mem);
    OneSegment(binary, phdrs[0], mem, v);
    var m := LoadSegment(binary, phdrs[0], mem).mem;
    if k == 0 {
      UncoveredByte(binary, phdrs[1..], m, v);
    } else {
      CoveredByte(binary, phdrs[1..], m, v, k - 1);
    }
  }

  /** The loader on behalf of a whole file: the byte that the file defines at v. */
  ghost predicate FileByte(binary: seq<byte>, phdrs: seq<ProgramHeader>, v: u64, x: byte) {
    && (forall k: nat :: LastCover(phdrs, v, k) ==>
          var o := phdrs[k].p_offset + (v - phdrs[k].p_vaddr);
          o < |binary| && x == binary[o])
    && ((forall j :: 0 <= j < |phdrs| ==> !Covers(phdrs[j], v)) ==> x == 0)
  }

  lemma {:induction false} SomeLastCover(phdrs: seq<ProgramHeader>, v: u64, n: nat) returns (k: nat)
    requires n <= |phdrs| && exists j :: 0 <= j < n && Covers(phdrs[j], v)
    requires forall j :: n <= j < |phdrs| ==> !Covers(phdrs[j], v)
    ensures LastCover(phdrs, v, k)
    decreases n
  {
    if Covers(phdrs[n - 1], v) {
      k := n - 1;
    } else {
      k := SomeLastCover(phdrs, v, n - 1);
    }
  }

  /** End to end: if LoadSegments accepts the file, then on the hart built from the image a one-byte
      load at v gives the byte of the last segment whose file bytes cover v, and 0 where none does. */
  lemma ImageSeenByHart(binary: seq<byte>, phdrs: seq<ProgramHeader>, size: nat, entry: u64, garbage: u64, v: u64)
    requires size <= TWO32 && LoadAll(binary, phdrs, Zeros(size)).Image?
    requires KERNBASE <= v < KERNBASE + size
    ensures var h := Initial(entry, garbage, LoadAll(binary, phdrs, Zeros(size)).mem);
            exists x: byte :: BusLoad(h.bus, v, 1) == Data(x) && FileByte(binary, phdrs, v, x)
  {
    var image := LoadAll(binary, phdrs, Zeros(size)).mem;
    SameSize(binary, phdrs, Zeros(size));
    var x := image[v - KERNBASE];
    OneByteLoad(Initial(entry, garbage, image).bus, v);
    if exists j :: 0 <= j < |phdrs| && Covers(phdrs[j], v) {
      forall k: nat | LastCover(phdrs, v, k)
        ensures phdrs[k].p_offset + (v - phdrs[k].p_vaddr) < |binary|
                && x == binary[phdrs[k].p_offset + (v - phdrs[k].p_vaddr)]
      {
        CoveredByte(binary, phdrs, Zeros(size), v, k);
      }
    } else {
      UncoveredByte(binary, phdrs, Zeros(size), v);
    }
    assert FileByte(binary, phdrs, v, x);
  }

  lemma OneByteLoad(bus: Bus, v: u64)
    requires bus.paging == Bare && InRam(bus, v)
    ensures BusLoad(bus, v, 1) == Data(bus.ram[v - KERNBASE])
  {
    assert LoadBytes(bus.ram, v - KERNBASE, 1) == bus.ram[v - KERNBASE];
  }

  /** FileByte determines the byte. */
  lemma FileByteIsUnique(binary: seq<byte>, phdrs: seq<ProgramHeader>, v: u64, x: byte, y: byte)
    requires FileByte(binary, phdrs, v, x) && FileByte(binary, phdrs, v, y)
    ensures x == y
  {
    if exists j :: 0 <= j < |phdrs| && Covers(phdrs[j], v) {
      var k := SomeLastCover(phdrs, v, |phdrs|);
    }
  }
}
