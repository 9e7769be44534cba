/** The width-polymorphic patch engine: a record that remembers the original
    value at an address and can store the replacement or the original there,
    and a tagged handle that holds one record of any width. Memory is an array
    of bytes and an address is an index into it. */
module Patch {
  import opened Bytes
  import opened Bitwise

  /** The supported store widths (the x86_64 configuration, with U128) */
  datatype Variant = U8 | U16 | U32 | U64 | U128

  /** Bit width of the integer type that backs each variant */
  function Bits(t: Variant): nat
  {
    match t
    case U8 => 8
    case U16 => 16
    case U32 => 32
    case U64 => 64
    case U128 => 128
  }

  /** Number of bytes a store of variant t touches: w bytes hold exactly the
      values of the Bits(t)-bit unsigned type */
  function Size(t: Variant): (w: nat)
    ensures w > 0 && Pow256(w) == Pow2(Bits(t))
  {
    var w := match t
      case U8 => 1
      case U16 => 2
      case U32 => 4
      case U64 => 8
      case U128 => 16;
    Pow256IsPow2(w);
    w
  }

  /** n bytes hold as many values as 8n bits */
  lemma {:induction false} Pow256IsPow2(n: nat)
    ensures Pow256(n) == Pow2(8 * n)
  {
    if n > 0 {
      Pow256IsPow2(n - 1);
      Pow2Plus8(8 * (n - 1));
    }
  }

  /** x is a value of the integer type backing t */
  predicate Fits(t: Variant, x: nat)
  {
    x < Pow256(Size(t))
  }

  /** The value of type t that memory holds at addr */
  function Load(mem: array<byte>, addr: nat, t: Variant): (v: nat)
    reads mem
    requires addr + Size(t) <= mem.Length
    ensures Fits(t, v)
    ensures Encode(v, Size(t)) == mem[addr..addr + Size(t)]
  {
    EncodeDecode(mem[addr..addr + Size(t)]);
    Decode(mem[addr..addr + Size(t)])
  }

  /** A store of width Size(t): writes the bytes of value at addr, all at once */
  method WriteType(mem: array<byte>, addr: nat, t: Variant, value: nat)
    requires addr + Size(t) <= mem.Length && Fits(t, value)
    modifies mem
    ensures mem[..] == Store(old(mem[..]), addr, Encode(value, Size(t)))
    ensures Load(mem, addr, t) == value
  {
    var bytes := Encode(value, Size(t));
    forall i | 0 <= i < Size(t) {
      mem[addr + i] := bytes[i];
    }
    assert mem[addr..addr + Size(t)] == bytes;
    assert mem[..] == Store(old(mem[..]), addr, bytes);
    DecodeEncode(value, Size(t));
  }

  /** One patch of fixed width: an address, the value found (or declared) there
      before patching, and the value to put there */
  class P {
    const variant: Variant
    const address: nat
    const original: nat
    const replaced: nat

    /** Both values are values of the record's width */
    predicate Valid()
    {
      Fits(variant, original) && Fits(variant, replaced)
    }

    /** The record's span lies inside mem */
    predicate InBounds(mem: array<byte>)
    {
      address + Size(variant) <= mem.Length
    }

    /** Memory image m after the replacement is stored */
    function Patched(m: seq<byte>): (r: seq<byte>)
      requires Valid() && address + Size(variant) <= |m|
      ensures |r| == |m|
      ensures Decode(r[address..address + Size(variant)]) == replaced
      ensures forall i :: 0 <= i < |m| && !(address <= i < address + Size(variant)) ==> r[i] == m[i]
    {
      DecodeEncode(replaced, Size(variant));
      Store(m, address, Encode(replaced, Size(variant)))
    }

    /** Memory image m after the original is stored back */
    function Restored(m: seq<byte>): (r: seq<byte>)
      requires Valid() && address + Size(variant) <= |m|
      ensures |r| == |m|
      ensures Decode(r[address..address + Size(variant)]) == original
      ensures forall i :: 0 <= i < |m| && !(address <= i < address + Size(variant)) ==> r[i] == m[i]
    {
      DecodeEncode(original, Size(variant));
      Store(m, address, Encode(original, Size(variant)))
    }

    /** P(addr, rep): the original is whatever memory holds at addr now */
    constructor Capture(t: Variant, mem: array<byte>, addr: nat, rep: nat)
      requires addr + Size(t) <= mem.Length && Fits(t, rep)
      ensures variant == t && address == addr && replaced == rep
      ensures original == Load(mem, addr, t)
      ensures Valid() && InBounds(mem)
    {
      variant, address, replaced := t, addr, rep;
      original := Load(mem, addr, t);
    }

    /** P(addr, org, rep): memory is neither read nor written */
    constructor Given(t: Variant, addr: nat, org: nat, rep: nat)
      requires Fits(t, org) && Fits(t, rep)
      ensures variant == t && address == addr && original == org && replaced == rep
      ensures Valid()
    {
      variant, address, original, replaced := t, addr, org, rep;
    }

    /** Stores the replacement at the record's address */
    method Patch(mem: array<byte>)
      requires Valid() && InBounds(mem)
      modifies mem
      ensures mem[..] == Patched(old(mem[..]))
      ensures Load(mem, address, variant) == replaced
      ensures forall i :: 0 <= i < mem.Length && !(address <= i < address + Size(variant)) ==> mem[i] == old(mem[i])
    {
      WriteType(mem, address, variant, replaced);
    }

    /** Stores the original at the record's address */
    method Restore(mem: array<byte>)
      requires Valid() && InBounds(mem)
      modifies mem
      ensures mem[..] == Restored(old(mem[..]))
      ensures Load(mem, address, variant) == original
      ensures forall i :: 0 <= i < mem.Length && !(address <= i < address + Size(variant)) ==> mem[i] == old(mem[i])
    {
      WriteType(mem, address, variant, original);
    }
  }

  /** A record built by Capture from image m is undone exactly by restoring it:
      patch then restore gives back m, byte for byte */
  lemma PatchRestoreRoundTrip(p: P, m: seq<byte>)
    requires p.Valid() && p.address + Size(p.variant) <= |m|
    requires p.original == Decode(m[p.address..p.address + Size(p.variant)])
    ensures p.Restored(p.Patched(m)) == m
  {
    var a, w := p.address, Size(p.variant);
    StoreStore(m, a, Encode(p.replaced, w), Encode(p.original, w));
    EncodeDecode(m[a..a + w]);
    StoreSame(m, a, w);
  }

  /** Whatever was there before, restoring after a patch equals restoring alone */
  lemma RestoreOverridesPatch(p: P, m: seq<byte>)
    requires p.Valid() && p.address + Size(p.variant) <= |m|
    ensures p.Restored(p.Patched(m)) == p.Restored(m)
  {
    StoreStore(m, p.address, Encode(p.replaced, Size(p.variant)), Encode(p.original, Size(p.variant)));
  }

  /** Patching twice has the effect of patching once */
  lemma PatchIdempotent(p: P, m: seq<byte>)
    requires p.Valid() && p.address + Size(p.variant) <= |m|
    ensures p.Patched(p.Patched(m)) == p.Patched(m)
  {
    var e := Encode(p.replaced, Size(p.variant));
    StoreStore(m, p.address, e, e);
  }

  /** Restoring twice has the effect of restoring once */
  lemma RestoreIdempotent(p: P, m: seq<byte>)
    requires p.Valid() && p.address + Size(p.variant) <= |m|
    ensures p.Restored(p.Restored(m)) == p.Restored(m)
  {
    var e := Encode(p.original, Size(p.variant));
    StoreStore(m, p.address, e, e);
  }

  /** The handle: exactly one record, of the width its constructor names */
  datatype All =
    | AllU8(u8: P)
    | AllU16(u16: P)
    | AllU32(u32: P)
    | AllU64(u64: P)
    | AllU128(u128: P)
  {
    /** The record the handle owns */
    function Record(): P
    {
      match this
      case AllU8(p) => p
      case AllU16(p) => p
      case AllU32(p) => p
      case AllU64(p) => p
      case AllU128(p) => p
    }

    /** The tag, read from the record's own variant field */
    function Tag(): Variant
    {
      Record().variant
    }

    /** The active constructor is the one the tag names, and its record is valid */
    predicate Valid()
    {
      Record().Valid() &&
      match this
      case AllU8(p) => p.variant == U8
      case AllU16(p) => p.variant == U16
      case AllU32(p) => p.variant == U32
      case AllU64(p) => p.variant == U64
      case AllU128(p) => p.variant == U128
    }

    /** Dispatches on the tag to the active record's Patch */
    method Patch(mem: array<byte>)
      requires Valid() && Record().InBounds(mem)
      modifies mem
      ensures mem[..] == Record().Patched(old(mem[..]))
    {
      match Tag()
      case U8 =>
        match this { case AllU8(p) => p.Patch(mem); case _ => assert false; }
      case U16 =>
        match this { case AllU16(p) => p.Patch(mem); case _ => assert false; }
      case U32 =>
        match this { case AllU32(p) => p.Patch(mem); case _ => assert false; }
      case U64 =>
        match this { case AllU64(p) => p.Patch(mem); case _ => assert false; }
      case U128 =>
        match this { case AllU128(p) => p.Patch(mem); case _ => assert false; }
    }

    /** Dispatches on the tag to the active record's Restore */
    method Restore(mem: array<byte>)
      requires Valid() && Record().InBounds(mem)
      modifies mem
      ensures mem[..] == Record().Restored(old(mem[..]))
    {
      match Tag()
      case U8 =>
        match this { case AllU8(p) => p.Restore(mem); case _ => assert false; }
      case U16 =>
        match this { case AllU16(p) => p.Restore(mem); case _ => assert false; }
      case U32 =>
        match this { case AllU32(p) => p.Restore(mem); case _ => assert false; }
      case U64 =>
        match this { case AllU64(p) => p.Restore(mem); case _ => assert false; }
      case U128 =>
        match this { case AllU128(p) => p.Restore(mem); case _ => assert false; }
    }
  }

  /** The explicit All(P<T>) constructors: the handle for a record of width T */
  function Wrap(p: P): (h: All)
    ensures h.Record() == p && h.Tag() == p.variant
    ensures p.Valid() ==> h.Valid()
  {
    match p.variant
    case U8 => AllU8(p)
    case U16 => AllU16(p)
    case U32 => AllU32(p)
    case U64 => AllU64(p)
    case U128 => AllU128(p)
  }

  /** create<T>(addr, rep): a handle whose record captured the current value at addr */
  method Create(t: Variant, mem: array<byte>, addr: nat, rep: nat) returns (h: All)
    requires addr + Size(t) <= mem.Length && Fits(t, rep)
    ensures h.Valid() && h.Tag() == t && fresh(h.Record())
    ensures h.Record().address == addr && h.Record().replaced == rep
    ensures h.Record().original == Load(mem, addr, t)
  {
    var p := new P.Capture(t, mem, addr, rep);
    h := Wrap(p);
  }

  /** create<T>(addr, org, rep): a handle whose record takes the original as given */
  method CreateGiven(t: Variant, addr: nat, org: nat, rep: nat) returns (h: All)
    requires Fits(t, org) && Fits(t, rep)
    ensures h.Valid() && h.Tag() == t && fresh(h.Record())
    ensures h.Record().address == addr && h.Record().original == org && h.Record().replaced == rep
  {
    var p := new P.Given(t, addr, org, rep);
    h := Wrap(p);
  }

  /** A client: a handle created over mem, patched and then restored, leaves
      every byte of mem as it was */
  method PatchThenRestore(t: Variant, mem: array<byte>, addr: nat, rep: nat)
    requires addr + Size(t) <= mem.Length && Fits(t, rep)
    modifies mem
    ensures mem[..] == old(mem[..])
  {
    ghost var before := mem[..];
    var h := Create(t, mem, addr, rep);
    var p := h.Record();
    assert p.original == Decode(before[addr..addr + Size(t)]);
    h.Patch(mem);
    ghost var patched := mem[..];
    assert patched == p.Patched(before);
    h.Restore(mem);
    assert mem[..] == p.Restored(patched);
    PatchRestoreRoundTrip(p, before);
  }

  /** Four zero bytes read as a 32-bit value are 0 */
  lemma DecodeZeros()
    ensures Decode([0, 0, 0, 0]) == 0
  {
    assert Decode([0]) == 0;
    assert [0, 0][1..] == [0];
    assert [0, 0, 0][1..] == [0, 0];
    assert [0, 0, 0, 0][1..] == [0, 0, 0];
  }

  /** 0xDEADBEEF stored as four bytes, least significant first */
  lemma EncodeDeadBeef()
    ensures Encode(0xDEADBEEF, 4) == [0xEF, 0xBE, 0xAD, 0xDE]
  {
    assert Encode(0xDE, 1) == [0xDE];
    assert Encode(0xDEAD, 2) == [0xAD, 0xDE];
    assert Encode(0xDEADBE, 3) == [0xBE, 0xAD, 0xDE];
  }

  /** The scenario of a 32-bit patch of 0xDEADBEEF at offset 4 of sixteen zero
      bytes: bytes 4 to 7 take the value least significant byte first, the
      others stay zero, and restoring brings back the zeros */
  method DeadBeef()
  {
    var mem := new byte[16](_ => 0);
    ghost var zeros := mem[..];
    assert mem[4..8] == [0, 0, 0, 0];
    DecodeZeros();
    var h := Create(U32, mem, 4, 0xDEADBEEF);
    assert h.Record().original == 0;
    h.Patch(mem);
    EncodeDeadBeef();
    assert mem[4..8] == [0xEF, 0xBE, 0xAD, 0xDE];
    assert forall i :: 0 <= i < 16 && !(4 <= i < 8) ==> mem[i] == 0;
    h.Restore(mem);
    PatchRestoreRoundTrip(h.Record(), zeros);
    assert mem[..] == zeros;
  }
}
