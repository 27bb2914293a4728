/** The bitfield macros of ebpf/include/bpf_core_read.h, on 64-bit words with bit 0 least significant. */
module Bitfield {

  type Word = w: seq<bool> | |w| == 64 witness seq(64, _ => false)

  function Shl(x: Word, n: nat): Word {
    seq(64, i requires 0 <= i < 64 => i >= n && x[i - n])
  }

  function Shr(x: Word, n: nat): Word {
    seq(64, i requires 0 <= i < 64 => i + n < 64 && x[i + n])
  }

  /** Right shift of the word read as a signed number. */
  function Sar(x: Word, n: nat): Word {
    seq(64, i requires 0 <= i < 64 => if i + n < 64 then x[i + n] else x[63])
  }

  function And(x: Word, y: Word): Word {
    seq(64, i requires 0 <= i < 64 => x[i] && y[i])
  }

  function Or(x: Word, y: Word): Word {
    seq(64, i requires 0 <= i < 64 => x[i] || y[i])
  }

  function Not(x: Word): Word {
    seq(64, i requires 0 <= i < 64 => !x[i])
  }

  /** ~0ULL. */
  function Ones(): Word {
    seq(64, _ => true)
  }

  predicate IsStorage(s: seq<bool>) {
    |s| == 8 || |s| == 16 || |s| == 32 || |s| == 64
  }

  /** The relocated shifts describe a field that lies in the storage: it takes the bits from
      rshift - lshift up to 64 - lshift. */
  predicate Layout(s: seq<bool>, lshift: nat, rshift: nat) {
    IsStorage(s) && lshift <= rshift <= 63 && 64 - |s| <= lshift
  }

  predicate InField(lshift: nat, rshift: nat, i: int) {
    rshift - lshift <= i < 64 - lshift
  }

  /** Loading an unsigned integer of the storage's size into an unsigned long long. */
  function Widen(s: seq<bool>): Word
    requires IsStorage(s)
  {
    seq(64, i requires 0 <= i < 64 => i < |s| && s[i])
  }

  function Read(s: seq<bool>, lshift: nat, rshift: nat, signed: bool): Word
    requires Layout(s, lshift, rshift)
  {
    if signed then Sar(Shl(Widen(s), lshift), rshift) else Shr(Shl(Widen(s), lshift), rshift)
  }

  function Mask(lshift: nat, rshift: nat): Word {
    Shr(Shl(Ones(), rshift), lshift)
  }

  /** The value the storage gets; storing it truncates to the storage's size. */
  function Written(s: seq<bool>, lshift: nat, rshift: nat, nval: Word): (r: seq<bool>)
    requires Layout(s, lshift, rshift)
    ensures |r| == |s|
  {
    Merge(Widen(s), Shl(nval, rshift - lshift), Mask(lshift, rshift))[..|s|]
  }

  function Merge(val: Word, nval: Word, mask: Word): Word {
    Or(And(val, Not(mask)), And(nval, mask))
  }

  /** BPF_CORE_WRITE_BITFIELD on a structure in memory, the storage at a byte offset. */
  method WriteBitfield(mem: array<bool>, offset: nat, byteSize: nat, lshift: nat, rshift: nat, nval: Word)
    requires 8 * (offset + byteSize) <= mem.Length
    requires Layout(mem[8 * offset..8 * (offset + byteSize)], lshift, rshift)
    modifies mem
    ensures mem[..] == old(mem[..8 * offset]) +
                       Written(old(mem[8 * offset..8 * (offset + byteSize)]), lshift, rshift, nval) +
                       old(mem[8 * (offset + byteSize)..])
    ensures forall i :: 0 <= i < mem.Length ==>
              mem[i] == if 8 * offset + (rshift - lshift) <= i < 8 * offset + (64 - lshift)
                        then nval[i - (8 * offset + (rshift - lshift))] else old(mem[i])
  {
    var p, size := 8 * offset, 8 * byteSize;
    var val := Widen(mem[p..p + size]);
    var mask := Mask(lshift, rshift);
    val := Or(And(val, Not(mask)), And(Shl(nval, rshift - lshift), mask));
    forall i | 0 <= i < size {
      mem[p + i] := val[i];
    }
    assert mem[p..p + size] == val[..size];
    assert mem[..] == mem[..p] + mem[p..p + size] + mem[p + size..];
    BitsOf(old(mem[..]), mem[..], p, size, lshift, rshift, nval);
  }

  /** Bit by bit, what the write did to the memory. */
  lemma BitsOf(was: seq<bool>, now: seq<bool>, p: nat, size: nat, lshift: nat, rshift: nat, nval: Word)
    requires p + size <= |was| && Layout(was[p..p + size], lshift, rshift)
    requires now == was[..p] + Written(was[p..p + size], lshift, rshift, nval) + was[p + size..]
    ensures |now| == |was|
    ensures forall i :: 0 <= i < |was| ==>
              now[i] == if p + (rshift - lshift) <= i < p + (64 - lshift)
                        then nval[i - (p + (rshift - lshift))] else was[i]
  {
    hide Written;
    var s := was[p..p + size];
    forall i | 0 <= i < |was|
      ensures now[i] == if p + (rshift - lshift) <= i < p + (64 - lshift)
                        then nval[i - (p + (rshift - lshift))] else was[i]
    {
      if p <= i < p + size {
        WrittenAt(s, lshift, rshift, nval, i - p);
        assert now[i] == Written(s, lshift, rshift, nval)[i - p];
      }
    }
  }

  lemma WrittenAt(s: seq<bool>, lshift: nat, rshift: nat, nval: Word, i: nat)
    requires Layout(s, lshift, rshift) && i < |s|
    ensures Written(s, lshift, rshift, nval)[i] ==
              if InField(lshift, rshift, i) then nval[i - (rshift - lshift)] else s[i]
  {
  }

  lemma ReadAt(s: seq<bool>, lshift: nat, rshift: nat, signed: bool, i: nat)
    requires Layout(s, lshift, rshift) && i < 64
    ensures Read(s, lshift, rshift, signed)[i] ==
              if i < 64 - rshift then s[i + (rshift - lshift)] else signed && s[63 - lshift]
  {
    var val := Shl(Widen(s), lshift);
    assert val[63] == s[63 - lshift];
    if i < 64 - rshift {
      assert val[i + rshift] == s[i + (rshift - lshift)];
      assert Shr(val, rshift)[i] == Sar(val, rshift)[i] == val[i + rshift];
    } else {
      assert !Shr(val, rshift)[i] && Sar(val, rshift)[i] == val[63];
    }
  }

  /** A value cut to the field's width, and sign-extended from there if the field is signed. */
  function Reduced(v: Word, width: nat, signed: bool): Word
    requires 1 <= width <= 64
  {
    seq(64, i requires 0 <= i < 64 => if i < width then v[i] else signed && v[width - 1])
  }

  /** Reading a field gives back what was last written to it, reduced to its width. */
  lemma ReadAfterWrite(s: seq<bool>, lshift: nat, rshift: nat, signed: bool, nval: Word)
    requires Layout(s, lshift, rshift)
    ensures Read(Written(s, lshift, rshift, nval), lshift, rshift, signed) == Reduced(nval, 64 - rshift, signed)
  {
    var s' := Written(s, lshift, rshift, nval);
    WrittenAt(s, lshift, rshift, nval, 63 - lshift);
    forall i | 0 <= i < 64
      ensures Read(s', lshift, rshift, signed)[i] == Reduced(nval, 64 - rshift, signed)[i]
    {
      ReadAt(s', lshift, rshift, signed, i);
      if i < 64 - rshift {
        WrittenAt(s, lshift, rshift, nval, i + (rshift - lshift));
      }
    }
  }

  /** Writing back what was read changes nothing, for either signedness. */
  lemma WriteAfterRead(s: seq<bool>, lshift: nat, rshift: nat, signed: bool)
    requires Layout(s, lshift, rshift)
    ensures Written(s, lshift, rshift, Read(s, lshift, rshift, signed)) == s
  {
    var v := Read(s, lshift, rshift, signed);
    forall i | 0 <= i < |s| ensures Written(s, lshift, rshift, v)[i] == s[i] {
      WrittenAt(s, lshift, rshift, v, i);
      if InField(lshift, rshift, i) {
        ReadAt(s, lshift, rshift, signed, i - (rshift - lshift));
      }
    }
  }

  /** A write changes no bit outside its field, so it is invisible to any field it does not overlap. */
  lemma OtherFieldsUnchanged(s: seq<bool>, l1: nat, r1: nat, nval: Word, l2: nat, r2: nat, signed: bool)
    requires Layout(s, l1, r1) && Layout(s, l2, r2)
    requires forall i :: !(InField(l1, r1, i) && InField(l2, r2, i))
    ensures Read(Written(s, l1, r1, nval), l2, r2, signed) == Read(s, l2, r2, signed)
  {
    var s' := Written(s, l1, r1, nval);
    assert InField(l2, r2, 63 - l2);
    WrittenAt(s, l1, r1, nval, 63 - l2);
    forall i | 0 <= i < 64 ensures Read(s', l2, r2, signed)[i] == Read(s, l2, r2, signed)[i] {
      ReadAt(s', l2, r2, signed, i);
      ReadAt(s, l2, r2, signed, i);
      if i < 64 - r2 {
        assert InField(l2, r2, i + (r2 - l2));
        WrittenAt(s, l1, r1, nval, i + (r2 - l2));
      }
    }
  }

  /** Writes to fields that do not overlap commute. */
  lemma DisjointWritesCommute(s: seq<bool>, l1: nat, r1: nat, v1: Word, l2: nat, r2: nat, v2: Word)
    requires Layout(s, l1, r1) && Layout(s, l2, r2)
    requires forall i :: !(InField(l1, r1, i) && InField(l2, r2, i))
    ensures Written(Written(s, l1, r1, v1), l2, r2, v2) == Written(Written(s, l2, r2, v2), l1, r1, v1)
  {
    forall i | 0 <= i < |s|
      ensures Written(Written(s, l1, r1, v1), l2, r2, v2)[i] == Written(Written(s, l2, r2, v2), l1, r1, v1)[i]
    {
      WrittenAt(s, l1, r1, v1, i);
      WrittenAt(s, l2, r2, v2, i);
      WrittenAt(Written(s, l1, r1, v1), l2, r2, v2, i);
      WrittenAt(Written(s, l2, r2, v2), l1, r1, v1, i);
    }
  }
}
