/**
 * The 15-byte redirect that a hook writes over a target's entry point,
 * and the memory operations that install and remove it.
 *
 *   offset 0..1   48 BB         MOV RBX, imm64   (REX.W + B8+rd io, rd = 3)
 *   offset 2..9   imm64         the target's own address, little-endian
 *   offset 10     E9            JMP rel32        (E9 cd)
 *   offset 11..14 rel32         trampoline - (target + 15), little-endian
 *
 * Both instructions are as defined in the Intel 64 and IA-32 Architectures
 * Software Developer's Manual, Volume 2 (JMP in chapter 3, MOV in chapter 4).
 */
module Prologue {
  import opened Bytes

  /** Size of the saved snapshot and of the redirect written over it. */
  const PatchLength: nat := 15

  const RexW: byte := 0x48
  const MovRbxOpcode: byte := 0xBB
  const JmpRel32Opcode: byte := 0xE9

  /**
   * The jump displacement exactly as the source computes it: both pointers
   * are cast to `int` (keeping their low 32 bits) and subtracted without
   * overflow checking. The jump is relative to the end of the patch.
   */
  function Rel32(target: Address, trampoline: Address): int
  {
    Int32(Int32(trampoline) - Int32(target + PatchLength))
  }

  /** The displacement is the true distance modulo 2^32. */
  lemma Rel32Congruent(target: Address, trampoline: Address)
    ensures (Rel32(target, trampoline) - (trampoline - (target + PatchLength))) % TwoTo32 == 0
  {
    var a, b := Int32(trampoline), Int32(target + PatchLength);
    assert (a - trampoline) % TwoTo32 == 0 && (b - (target + PatchLength)) % TwoTo32 == 0;
    ModSumZero(a - trampoline, (target + PatchLength) - b);
    ModSumZero(Rel32(target, trampoline) - (a - b), (a - b) - (trampoline - (target + PatchLength)));
  }

  lemma ModSumZero(x: int, y: int)
    requires x % TwoTo32 == 0 && y % TwoTo32 == 0
    ensures (x + y) % TwoTo32 == 0
  {
    var qx, qy := x / TwoTo32, y / TwoTo32;
    assert x == qx * TwoTo32 && y == qy * TwoTo32;
    assert x + y == (qx + qy) * TwoTo32;
  }

  /** When the trampoline lies within a signed 32-bit distance of the patch end, the jump reaches it exactly. */
  lemma Rel32Exact(target: Address, trampoline: Address)
    requires -TwoTo31 <= trampoline - (target + PatchLength) < TwoTo31
    ensures target + PatchLength + Rel32(target, trampoline) == trampoline
  {
    Rel32Congruent(target, trampoline);
    var d := Rel32(target, trampoline) - (trampoline - (target + PatchLength));
    assert -TwoTo32 < d < TwoTo32;
    assert d % TwoTo32 == 0;
    var q := d / TwoTo32;
    assert d == q * TwoTo32;
    assert d == 0;
  }

  /** The redirect installed at `target` for a trampoline at `trampoline`, byte by byte. */
  function PatchBytes(target: Address, trampoline: Address): (r: seq<byte>)
    ensures |r| == PatchLength
  {
    seq(PatchLength, i requires 0 <= i < PatchLength => PatchByte(target, trampoline, i))
  }

  /** Byte `i` of the redirect: the two MOV opcode bytes, the immediate, the JMP opcode, the displacement. */
  function PatchByte(target: Address, trampoline: Address, i: nat): byte
    requires i < PatchLength
  {
    if i == 0 then RexW
    else if i == 1 then MovRbxOpcode
    else if i < 10 then LittleEndian(target, 8)[i - 2]
    else if i == 10 then JmpRel32Opcode
    else LittleEndian(Uint32Bits(Rel32(target, trampoline)), 4)[i - 11]
  }

  /**
   * The redirect is `MOV RBX, target` followed by `JMP rel32`: the two
   * opcodes, the immediate at offset 2, the JMP opcode, the displacement at
   * offset 11.
   */
  lemma PatchLayout(target: Address, trampoline: Address)
    ensures var r := PatchBytes(target, trampoline);
      && r == [RexW, MovRbxOpcode] + LittleEndian(target, 8) + [JmpRel32Opcode]
                + LittleEndian(Uint32Bits(Rel32(target, trampoline)), 4)
      && r[0] == RexW && r[1] == MovRbxOpcode && r[10] == JmpRel32Opcode
      && r[2..10] == LittleEndian(target, 8)
      && r[11..15] == LittleEndian(Uint32Bits(Rel32(target, trampoline)), 4)
  {
    var r := PatchBytes(target, trampoline);
    var s := [RexW, MovRbxOpcode] + LittleEndian(target, 8) + [JmpRel32Opcode]
               + LittleEndian(Uint32Bits(Rel32(target, trampoline)), 4);
    assert forall i :: 0 <= i < PatchLength ==> r[i] == s[i];
  }

  /** What `MOV RBX, imm64` at the start of `code` loads into RBX. */
  function LoadedRbx(code: seq<byte>): nat
    requires |code| >= 10
  {
    FromLittleEndian(code[2..10])
  }

  /** Where `JMP rel32` at offset 10 of code placed at `at` continues. */
  function JumpDestination(at: int, code: seq<byte>): int
    requires |code| >= PatchLength
  {
    assert |code[11..15]| == 4 && Pow256(4) == TwoTo32;
    at + PatchLength + Signed32(FromLittleEndian(code[11..15]))
  }

  /**
   * Executing the patch loads the target's own address into RBX (the key
   * the trampoline uses to find its hook) and jumps to a destination that
   * agrees with the trampoline modulo 2^32, and is the trampoline itself
   * whenever the distance fits in a signed 32-bit displacement.
   */
  lemma PatchDecodes(target: Address, trampoline: Address)
    ensures LoadedRbx(PatchBytes(target, trampoline)) == target
    ensures (JumpDestination(target, PatchBytes(target, trampoline)) - trampoline) % TwoTo32 == 0
    ensures -TwoTo31 <= trampoline - (target + PatchLength) < TwoTo31 ==>
              JumpDestination(target, PatchBytes(target, trampoline)) == trampoline
  {
    PatchLoadsTarget(target, trampoline);
    PatchJumpsBy(target, trampoline);
    Rel32Congruent(target, trampoline);
    if -TwoTo31 <= trampoline - (target + PatchLength) < TwoTo31 {
      Rel32Exact(target, trampoline);
    }
  }

  /** The trampoline is within reach of a `JMP rel32` that ends at `target + 15`. */
  predicate Reaches(target: Address, trampoline: Address)
  {
    -TwoTo31 <= trampoline - (target + PatchLength) < TwoTo31
  }

  /**
   * The patch lands on the trampoline exactly when the trampoline is within
   * reach; otherwise the jump lands a nonzero multiple of 2^32 away from it.
   */
  lemma PatchReaches(target: Address, trampoline: Address)
    ensures JumpDestination(target, PatchBytes(target, trampoline)) == trampoline <==> Reaches(target, trampoline)
  {
    PatchDecodes(target, trampoline);
    PatchJumpsBy(target, trampoline);
  }

  /** The immediate of the MOV reads back as the target address. */
  lemma PatchLoadsTarget(target: Address, trampoline: Address)
    ensures LoadedRbx(PatchBytes(target, trampoline)) == target
  {
    PatchLayout(target, trampoline);
    assert Pow256(8) == 0x1_0000_0000_0000_0000;
    FromLittleEndianOfLittleEndian(target, 8);
  }

  /** The displacement of the JMP reads back as `Rel32`. */
  lemma PatchJumpsBy(target: Address, trampoline: Address)
    ensures JumpDestination(target, PatchBytes(target, trampoline)) == target + PatchLength + Rel32(target, trampoline)
  {
    var code := PatchBytes(target, trampoline);
    var rel := Rel32(target, trampoline);
    PatchLayout(target, trampoline);
    assert Pow256(4) == TwoTo32;
    FromLittleEndianOfLittleEndian(Uint32Bits(rel), 4);
    Signed32OfUint32Bits(rel);
    assert Signed32(FromLittleEndian(code[11..15])) == rel;
  }

  /** Memory `m` with `bytes` written at `at` and nothing else changed. */
  function Splice(m: seq<byte>, at: nat, bytes: seq<byte>): (r: seq<byte>)
    requires at + |bytes| <= |m|
    ensures |r| == |m|
    ensures r[at..at + |bytes|] == bytes
    ensures forall i :: 0 <= i < |m| && !(at <= i < at + |bytes|) ==> r[i] == m[i]
  {
    seq(|m|, i requires 0 <= i < |m| => if at <= i < at + |bytes| then bytes[i - at] else m[i])
  }

  /** The 15 bytes at `at`. */
  function Region(m: seq<byte>, at: nat): seq<byte>
    requires at + PatchLength <= |m|
  {
    seq(PatchLength, i requires 0 <= i < PatchLength => m[at + i])
  }

  predicate Disjoint(a: nat, b: nat)
  {
    a + PatchLength <= b || b + PatchLength <= a
  }

  /** Writing one region leaves every disjoint region as it was. */
  lemma SpliceFrame(m: seq<byte>, at: nat, bytes: seq<byte>, other: nat)
    requires |bytes| == PatchLength && at + PatchLength <= |m| && other + PatchLength <= |m|
    requires Disjoint(at, other)
    ensures Region(Splice(m, at, bytes), other) == Region(m, other)
  {
    var r := Splice(m, at, bytes);
    assert forall i :: 0 <= i < PatchLength ==> Region(r, other)[i] == r[other + i] == m[other + i];
  }

  /** Writing back the bytes that were saved before a write restores memory exactly. */
  lemma {:induction false} SpliceRestores(m: seq<byte>, at: nat, bytes: seq<byte>)
    requires |bytes| == PatchLength && at + PatchLength <= |m|
    ensures Splice(Splice(m, at, bytes), at, Region(m, at)) == m
  {
    var r := Splice(Splice(m, at, bytes), at, Region(m, at));
    assert forall i :: 0 <= i < |m| ==> r[i] == m[i] by {
      forall i | 0 <= i < |m| ensures r[i] == m[i] {
        if at <= i < at + PatchLength {
          assert r[i] == Region(m, at)[i - at];
        }
      }
    }
  }

  /** A region just written holds the bytes written. */
  lemma RegionOfSplice(m: seq<byte>, at: nat, bytes: seq<byte>)
    requires |bytes| == PatchLength && at + PatchLength <= |m|
    ensures Region(Splice(m, at, bytes), at) == bytes
  {
  }

  /** Writing a region's own bytes back changes nothing. */
  lemma SpliceSame(m: seq<byte>, at: nat)
    requires at + PatchLength <= |m|
    ensures Splice(m, at, Region(m, at)) == m
  {
  }

  /** The last write to a region is what it holds. */
  lemma SpliceTwice(m: seq<byte>, at: nat, first: seq<byte>, second: seq<byte>)
    requires |first| == PatchLength && |second| == PatchLength && at + PatchLength <= |m|
    ensures Splice(Splice(m, at, first), at, second) == Splice(m, at, second)
  {
  }

  /**
   * A store of `width` little-endian bytes of `value` at `at`, as
   * `*(long*)p = v` (width 8) and `*(int*)p = v` (width 4) perform it.
   */
  method StoreLittleEndian(mem: array<byte>, at: nat, value: nat, width: nat)
    requires at + width <= mem.Length
    modifies mem
    ensures mem[..] == Splice(old(mem[..]), at, LittleEndian(value, width))
  {
    ghost var bytes := LittleEndian(value, width);
    var v, i := value, 0;
    while i < width
      invariant 0 <= i <= width
      invariant LittleEndian(value, width)[i..] == LittleEndian(v, width - i)
      invariant mem[..at] == old(mem[..at]) && mem[at + width..] == old(mem[at + width..])
      invariant mem[at..at + i] == bytes[..i]
      invariant mem[at + i..at + width] == old(mem[at + i..at + width])
    {
      assert LittleEndian(v, width - i)[0] == (v % 256) as byte;
      mem[at + i] := (v % 256) as byte;
      assert LittleEndian(value, width)[i + 1..] == LittleEndian(v, width - i)[1..];
      v, i := v / 256, i + 1;
    }
    assert mem[..] == mem[..at] + mem[at..at + width] + mem[at + width..];
  }

  /** Writing two adjacent runs of bytes is writing their concatenation. */
  lemma SpliceAdjacent(m: seq<byte>, at: nat, first: seq<byte>, second: seq<byte>)
    requires at + |first| + |second| <= |m|
    ensures Splice(Splice(m, at, first), at + |first|, second) == Splice(m, at, first + second)
  {
    var r, s := Splice(Splice(m, at, first), at + |first|, second), Splice(m, at, first + second);
    assert forall i :: 0 <= i < |m| ==> r[i] == s[i] by {
      forall i | 0 <= i < |m| ensures r[i] == s[i] {
        if at <= i < at + |first| {
          assert r[i] == first[i - at] == (first + second)[i - at];
        } else if at + |first| <= i < at + |first| + |second| {
          assert r[i] == second[i - at - |first|] == (first + second)[i - at];
        }
      }
    }
  }

  /** Storing one byte. */
  method StoreByte(mem: array<byte>, at: nat, value: byte)
    requires at < mem.Length
    modifies mem
    ensures mem[..] == Splice(old(mem[..]), at, [value])
  {
    mem[at] := value;
    assert mem[..] == old(mem[..])[at := value];
  }

  /**
   * The writes of `Hook.UpdateOriginalFunction` after the snapshot: the two
   * MOV opcode bytes, the 8-byte immediate, the JMP opcode and the 32-bit
   * displacement, each stored in turn.
   */
  method WritePatch(mem: array<byte>, p: nat, trampoline: Address)
    requires p + PatchLength <= mem.Length && p < 0x1_0000_0000_0000_0000
    modifies mem
    ensures mem[..] == Splice(old(mem[..]), p, PatchBytes(p, trampoline))
  {
    ghost var m0 := mem[..];
    StoreByte(mem, p, RexW);                        // mov rbx, functionPointer
    StoreByte(mem, p + 1, MovRbxOpcode);
    SpliceAdjacent(m0, p, [RexW], [MovRbxOpcode]);
    ghost var m2 := mem[..];
    ghost var imm := LittleEndian(p, 8);
    StoreLittleEndian(mem, p + 2, p, 8);
    SpliceAdjacent(m0, p, [RexW, MovRbxOpcode], imm);
    ghost var mov := [RexW, MovRbxOpcode] + imm;
    StoreByte(mem, p + 10, JmpRel32Opcode);         // jmp hookFunctionPointer
    SpliceAdjacent(m0, p, mov, [JmpRel32Opcode]);
    ghost var head := mov + [JmpRel32Opcode];
    var jumpRelative := Rel32(p, trampoline);
    ghost var rel := LittleEndian(Uint32Bits(jumpRelative), 4);
    StoreLittleEndian(mem, p + 11, Uint32Bits(jumpRelative), 4);
    SpliceAdjacent(m0, p, head, rel);
    PatchLayout(p, trampoline);
  }
}
