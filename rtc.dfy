/** Direct access to the RTC/CMOS storage: 256 byte offsets split over two
    banks of 128 cells, each bank behind an index port and a data port, and the
    Apple RTC checksum kept over the upper part of that storage. */
module Rtc {
  import opened Bytes
  import opened Bitwise

  /** uint16_t */
  type u16 = x: int | 0 <= x < 0x1_0000

  // Constants of the RTC header; the properties below rely on
  // BankSize == 2^7 (so 2 * BankSize == 256), DataMask == BankSize - 1,
  // two distinct checksum cells below 2 * BankSize, HashedAddr <= 2 * BankSize,
  // and four pairwise distinct port numbers.
  const BankSize: nat := 0x80
  const DataMask: nat := 0x7F
  const HashedAddr: nat := 0x0E
  const ChecksumAddr1: nat := 0x58
  const ChecksumAddr2: nat := 0x59
  const IndexPort: byte := 0x70
  const TargetPort: byte := 0x71
  const ExtIndexPort: byte := 0x72
  const ExtTargetPort: byte := 0x73

  datatype Bank = Primary | Extended

  /** First offset served by a bank */
  function BankBase(b: Bank): nat
  {
    if b == Primary then 0 else BankSize
  }

  /** The bank an offset belongs to */
  function Select(offset: byte): Bank
  {
    if offset < BankSize then Primary else Extended
  }

  /** The cell an offset addresses inside its bank: offset & DataMask. Every
      offset is the base of its bank plus its cell, so offsets and
      (bank, cell) pairs correspond one to one. */
  function Cell(offset: byte): (c: byte)
    ensures c < BankSize
    ensures BankBase(Select(offset)) + c == offset
  {
    Pow2Widths();
    AndLowBits(offset, 7);
    BankOffset(offset);
    And(offset, DataMask)
  }

  /** An offset modulo the bank size is its distance from its bank's base */
  lemma BankOffset(offset: byte)
    ensures offset % BankSize == offset - BankBase(Select(offset))
  {
    if offset < BankSize {
      ModUnique(offset, BankSize, 0, offset);
    } else {
      ModUnique(offset, BankSize, 1, offset - BankSize);
    }
  }

  /** The index and data port of a bank */
  function Ports(b: Bank): (byte, byte)
  {
    if b == Primary then (IndexPort, TargetPort) else (ExtIndexPort, ExtTargetPort)
  }

  /** The offset off + i truncated to uint8_t */
  function Offset(off: byte, i: nat): byte
  {
    (off + i) % 256
  }

  /** An RTC device: two banks of cells and the index register of each */
  class Device {
    const primary: array<byte>
    const extended: array<byte>
    var index: byte
    var extIndex: byte

    predicate Valid()
    {
      primary.Length == BankSize && extended.Length == BankSize && primary != extended
    }

    /** The 256 bytes of storage, by offset */
    ghost function Contents(): (c: seq<byte>)
      reads primary, extended
      requires Valid()
      ensures |c| == 2 * BankSize
    {
      primary[..] + extended[..]
    }

    /** Builds a device holding the given 256 bytes. The source only ever
        receives an existing device; this constructor stands for no source
        code and only shows that Valid() can be met. */
    constructor (image: seq<byte>)
      requires |image| == 2 * BankSize
      ensures Valid() && Contents() == image
      ensures fresh(primary) && fresh(extended)
    {
      primary := new byte[BankSize](i requires 0 <= i < BankSize => image[i]);
      extended := new byte[BankSize](i requires 0 <= i < BankSize => image[BankSize + i]);
      index, extIndex := 0, 0;
      new;
      assert primary[..] == image[..BankSize];
      assert extended[..] == image[BankSize..];
    }

    /** An 8-bit port write: an index port latches the cell number, a data
        port stores value in the latched cell of its bank */
    method IoWrite8(port: byte, value: byte)
      requires Valid()
      requires port == IndexPort || port == TargetPort || port == ExtIndexPort || port == ExtTargetPort
      requires port == TargetPort ==> index < BankSize
      requires port == ExtTargetPort ==> extIndex < BankSize
      modifies this, if port == TargetPort then {primary} else if port == ExtTargetPort then {extended} else {}
      ensures index == (if port == IndexPort then value else old(index))
      ensures extIndex == (if port == ExtIndexPort then value else old(extIndex))
      ensures Contents() ==
        if port == TargetPort then old(Contents())[old(index) := value]
        else if port == ExtTargetPort then old(Contents())[BankSize + old(extIndex) := value]
        else old(Contents())
    {
      if port == IndexPort {
        index := value;
      } else if port == ExtIndexPort {
        extIndex := value;
      } else if port == TargetPort {
        primary[index] := value;
        assert Contents() == old(Contents())[index := value];
      } else {
        extended[extIndex] := value;
        assert Contents() == old(Contents())[BankSize + extIndex := value];
      }
    }

    /** An 8-bit read of a data port: the latched cell of its bank */
    method IoRead8(port: byte) returns (v: byte)
      requires Valid() && (port == TargetPort || port == ExtTargetPort)
      requires port == TargetPort ==> index < BankSize
      requires port == ExtTargetPort ==> extIndex < BankSize
      ensures v == Contents()[if port == TargetPort then index else BankSize + extIndex]
    {
      if port == TargetPort {
        v := primary[index];
      } else {
        v := extended[extIndex];
      }
    }
  }

  /** RTCStorage::readByte: the byte at offset; storage is unchanged */
  method ReadByte(dev: Device, offset: byte) returns (v: byte)
    requires dev.Valid()
    modifies dev
    ensures Select(offset) == Primary ==> dev.index == Cell(offset) && dev.extIndex == old(dev.extIndex)
    ensures Select(offset) == Extended ==> dev.extIndex == Cell(offset) && dev.index == old(dev.index)
    ensures dev.Contents() == old(dev.Contents())
    ensures v == dev.Contents()[offset]
  {
    var (indexPort, dataPort) := Ports(Select(offset));
    dev.IoWrite8(indexPort, Cell(offset));
    v := dev.IoRead8(dataPort);
  }

  /** RTCStorage::writeByte: storage changes at offset only, where it becomes value */
  method WriteByte(dev: Device, offset: byte, value: byte)
    requires dev.Valid()
    modifies dev, dev.primary, dev.extended
    ensures Select(offset) == Primary ==> dev.index == Cell(offset) && dev.extIndex == old(dev.extIndex)
    ensures Select(offset) == Extended ==> dev.extIndex == Cell(offset) && dev.index == old(dev.index)
    ensures dev.Contents() == old(dev.Contents())[offset := value]
  {
    var (indexPort, dataPort) := Ports(Select(offset));
    dev.IoWrite8(indexPort, Cell(offset));
    dev.IoWrite8(dataPort, value);
  }

  /** A client: readByte right after writeByte at the same offset returns the
      value written, and no other offset changed */
  method WriteThenReadByte(dev: Device, offset: byte, value: byte) returns (v: byte)
    requires dev.Valid()
    modifies dev, dev.primary, dev.extended
    ensures v == value
    ensures forall o :: 0 <= o < 2 * BankSize && o != offset ==> dev.Contents()[o] == old(dev.Contents())[o]
  {
    WriteByte(dev, offset, value);
    v := ReadByte(dev, offset);
  }

  /** Storage m after data is written byte by byte from offset off, wrapping
      at 256; a later byte overwrites an earlier one at the same offset */
  function WriteSpan(m: seq<byte>, off: byte, data: seq<byte>): (r: seq<byte>)
    requires |m| == 2 * BankSize
    ensures |r| == |m|
    decreases |data|
  {
    if data == [] then m
    else WriteSpan(m, off, data[..|data| - 1])[Offset(off, |data| - 1) := data[|data| - 1]]
  }

  /** Among the last 256 bytes of data, byte i ends up at offset off + i */
  lemma {:induction false} WriteSpanAt(m: seq<byte>, off: byte, data: seq<byte>, i: nat)
    requires |m| == 2 * BankSize && i < |data| && |data| - i <= 256
    ensures WriteSpan(m, off, data)[Offset(off, i)] == data[i]
    decreases |data|
  {
    var n := |data| - 1;
    if i < n {
      WriteSpanAt(m, off, data[..n], i);
      assert Offset(off, n) != Offset(off, i);
    }
  }

  /** An offset that no byte of data is written to keeps its byte */
  lemma {:induction false} WriteSpanOutside(m: seq<byte>, off: byte, data: seq<byte>, c: nat)
    requires |m| == 2 * BankSize && c < |m|
    requires forall i :: 0 <= i < |data| ==> Offset(off, i) != c
    ensures WriteSpan(m, off, data)[c] == m[c]
    decreases |data|
  {
    if data != [] {
      WriteSpanOutside(m, off, data[..|data| - 1], c);
    }
  }

  /** a ^ b on uint16_t */
  function Xor16(a: u16, b: u16): u16
  {
    Pow2Widths();
    XorBelow(a, b, 16);
    Xor(a, b)
  }

  /** One of the seven rounds: shift right by one, xor 0x2001 if the low bit
      was set; the result is again a 16-bit value */
  function Round(c: u16): u16
  {
    var odd := And(c, 1) == 1;
    AndAtMost(c, 0xFFFE);
    var shifted := And(c, 0xFFFE) / 2;
    if odd then Xor16(shifted, 0x2001) else shifted
  }

  /** A round on plain integers: c / 2, xored with 0x2001 when c is odd. The
      masks only spell out the shift: c & 1 is the low bit, and c & 0xFFFE
      shifted right by one is c / 2 */
  lemma RoundHalves(c: u16)
    ensures Round(c) == if c % 2 == 1 then Xor(c / 2, 0x2001) else c / 2
  {
    Pow2Widths();
    AndLowBits(c, 1);
    ClearLowBit(c);
    var shifted := And(c, 0xFFFE) / 2;
    assert shifted == c / 2;
    assert (And(c, 1) == 1) == (c % 2 == 1);
  }

  /** c & 0xFFFE clears the low bit of a 16-bit value */
  lemma ClearLowBit(c: u16)
    ensures And(c, 0xFFFE) == 2 * (c / 2)
  {
    if c > 0 {
      Pow2Widths();
      assert And(c, 0xFFFE) == 2 * And(c / 2, 0x7FFF);
      AndLowBits(c / 2, 15);
      ModUnique(c / 2, 0x8000, 0, c / 2);
    }
  }

  /** n rounds applied to c */
  function Rounds(c: u16, n: nat): u16
  {
    if n == 0 then c else Round(Rounds(c, n - 1))
  }

  /** The byte an offset contributes: the checksum cells count as 0 */
  function Contribution(m: seq<byte>, i: nat): byte
    requires i < |m|
  {
    if i == ChecksumAddr1 || i == ChecksumAddr2 then 0 else m[i]
  }

  /** The checksum after the offsets HashedAddr .. n - 1, in ascending order */
  function ChecksumUpTo(m: seq<byte>, n: nat): u16
    requires HashedAddr <= n <= |m|
    decreases n
  {
    if n == HashedAddr then 0
    else Rounds(Xor16(ChecksumUpTo(m, n - 1), Contribution(m, n - 1)), 7)
  }

  /** The Apple RTC checksum of storage m */
  function Checksum(m: seq<byte>): u16
    requires |m| == 2 * BankSize
  {
    ChecksumUpTo(m, 2 * BankSize)
  }

  /** Storage m with its checksum stored big-endian: the high byte
      (checksum >> 8) at ChecksumAddr1, the low byte (checksum & 0xFF) at
      ChecksumAddr2 */
  function Seal(m: seq<byte>): (r: seq<byte>)
    requires |m| == 2 * BankSize
    ensures |r| == |m|
    ensures r[ChecksumAddr1] as int * 256 + r[ChecksumAddr2] == Checksum(m)
    ensures forall i :: 0 <= i < |m| && i != ChecksumAddr1 && i != ChecksumAddr2 ==> r[i] == m[i]
  {
    var c := Checksum(m);
    Pow2Widths();
    AndLowBits(c, 8);
    m[ChecksumAddr1 := c / 256][ChecksumAddr2 := And(c, 0xFF)]
  }

  /** Storage whose two checksum cells hold its checksum, high byte first */
  predicate Sealed(m: seq<byte>)
    requires |m| == 2 * BankSize
  {
    m[ChecksumAddr1] as int * 256 + m[ChecksumAddr2] == Checksum(m)
  }

  /** Storage is sealed exactly when storing its checksum leaves it unchanged */
  lemma SealedIffFixpoint(m: seq<byte>)
    requires |m| == 2 * BankSize
    ensures Sealed(m) <==> Seal(m) == m
  {
    var c := Checksum(m);
    Pow2Widths();
    AndLowBits(c, 8);
    if Sealed(m) {
      ModUnique(c, 256, m[ChecksumAddr1], m[ChecksumAddr2]);
      assert c / 256 == m[ChecksumAddr1];
      assert Seal(m) == m;
    }
  }

  /** The checksum reads only the hashed offsets other than the two checksum cells */
  lemma {:induction false} ChecksumUpToDependsOnHashed(m: seq<byte>, m': seq<byte>, n: nat)
    requires |m| == |m'| && HashedAddr <= n <= |m|
    requires forall i :: HashedAddr <= i < |m| && i != ChecksumAddr1 && i != ChecksumAddr2 ==> m[i] == m'[i]
    ensures ChecksumUpTo(m, n) == ChecksumUpTo(m', n)
    decreases n
  {
    if n > HashedAddr {
      ChecksumUpToDependsOnHashed(m, m', n - 1);
      assert Contribution(m, n - 1) == Contribution(m', n - 1);
    }
  }

  /** Two storages that agree on the hashed offsets, apart from the checksum
      cells, have the same checksum */
  lemma ChecksumDependsOnHashed(m: seq<byte>, m': seq<byte>)
    requires |m| == |m'| == 2 * BankSize
    requires forall i :: HashedAddr <= i < |m| && i != ChecksumAddr1 && i != ChecksumAddr2 ==> m[i] == m'[i]
    ensures Checksum(m) == Checksum(m')
  {
    ChecksumUpToDependsOnHashed(m, m', 2 * BankSize);
  }

  /** Storing the checksum does not change the checksum */
  lemma ChecksumOfSeal(m: seq<byte>)
    requires |m| == 2 * BankSize
    ensures Checksum(Seal(m)) == Checksum(m)
  {
    ChecksumDependsOnHashed(m, Seal(m));
  }

  /** Storing the checksum seals the storage: the cells hold the checksum of
      the storage as it is afterwards */
  lemma SealSeals(m: seq<byte>)
    requires |m| == 2 * BankSize
    ensures Sealed(Seal(m))
  {
    ChecksumOfSeal(m);
  }

  /** Recomputing and storing the checksum right away changes nothing */
  lemma SealIdempotent(m: seq<byte>)
    requires |m| == 2 * BankSize
    ensures Seal(Seal(m)) == Seal(m)
  {
    ChecksumOfSeal(m);
  }

  /** What writeDirect with updatecrc leaves at an offset: the last byte of
      data written there, else the byte that was there; the checksum cells
      excepted */
  lemma {:induction false} SealedSpanAt(m: seq<byte>, off: byte, data: seq<byte>, c: nat)
    requires |m| == 2 * BankSize && c < |m| && c != ChecksumAddr1 && c != ChecksumAddr2
    ensures forall i :: 0 <= i < |data| && |data| - i <= 256 && Offset(off, i) == c ==>
      Seal(WriteSpan(m, off, data))[c] == data[i]
    ensures (forall i :: 0 <= i < |data| ==> Offset(off, i) != c) ==>
      Seal(WriteSpan(m, off, data))[c] == m[c]
  {
    forall i | 0 <= i < |data| && |data| - i <= 256 && Offset(off, i) == c
      ensures Seal(WriteSpan(m, off, data))[c] == data[i]
    {
      WriteSpanAt(m, off, data, i);
    }
    if forall i :: 0 <= i < |data| ==> Offset(off, i) != c {
      WriteSpanOutside(m, off, data, c);
    }
  }

  /** RTCStorage::readDirect: buffer[i] receives the byte at offset off + i
      (truncated to 8 bits) for every i < size; storage is unchanged */
  method ReadDirect(dev: Device, off: byte, size: u16, buffer: array<byte>)
    requires dev.Valid() && size <= buffer.Length
    requires buffer != dev.primary && buffer != dev.extended
    modifies dev, buffer
    ensures dev.Contents() == old(dev.Contents())
    ensures forall i :: 0 <= i < size ==> buffer[i] == dev.Contents()[Offset(off, i)]
    ensures buffer[size..] == old(buffer[size..])
  {
    for i := 0 to size
      invariant dev.Contents() == old(dev.Contents())
      invariant forall k :: 0 <= k < i ==> buffer[k] == dev.Contents()[Offset(off, k)]
      invariant buffer[size..] == old(buffer[size..])
    {
      var b := ReadByte(dev, Offset(off, i));
      buffer[i] := b;
    }
  }

  /** RTCStorage::writeDirect: writes buffer[..size] from offset off and, when
      updatecrc holds, then recomputes the checksum over the new contents and
      stores it */
  method WriteDirect(dev: Device, off: byte, size: u16, buffer: array<byte>, updatecrc: bool)
    requires dev.Valid() && size <= buffer.Length
    requires buffer != dev.primary && buffer != dev.extended
    modifies dev, dev.primary, dev.extended
    ensures dev.Contents() ==
      if updatecrc then Seal(WriteSpan(old(dev.Contents()), off, buffer[..size]))
      else WriteSpan(old(dev.Contents()), off, buffer[..size])
  {
    for i := 0 to size
      invariant dev.Contents() == WriteSpan(old(dev.Contents()), off, buffer[..i])
    {
      WriteByte(dev, Offset(off, i), buffer[i]);
      assert buffer[..i + 1][..i] == buffer[..i];
    }
    if updatecrc {
      ghost var written := dev.Contents();
      var checksum := ComputeChecksum(dev);
      Pow2Widths();
      AndLowBits(checksum, 8);
      WriteByte(dev, ChecksumAddr1, checksum / 256);
      WriteByte(dev, ChecksumAddr2, And(checksum, 0xFF));
      assert dev.Contents() == Seal(written);
    }
  }

  /** The checksum loop of writeDirect: reads the hashed offsets in ascending
      order through readByte, skipping the two checksum cells */
  method ComputeChecksum(dev: Device) returns (checksum: u16)
    requires dev.Valid()
    modifies dev
    ensures dev.Contents() == old(dev.Contents())
    ensures checksum == Checksum(dev.Contents())
  {
    checksum := 0;
    for i := HashedAddr to 2 * BankSize
      invariant dev.Contents() == old(dev.Contents())
      invariant checksum == ChecksumUpTo(dev.Contents(), i)
    {
      var b: byte;
      if i == ChecksumAddr1 || i == ChecksumAddr2 {
        b := 0;
      } else {
        b := ReadByte(dev, i);
      }
      checksum := Xor16(checksum, b);
      ghost var mixed := checksum;
      for j := 0 to 7
        invariant checksum == Rounds(mixed, j)
      {
        var odd := And(checksum, 1) == 1;
        AndAtMost(checksum, 0xFFFE);
        checksum := And(checksum, 0xFFFE) / 2;
        if odd {
          checksum := Xor16(checksum, 0x2001);
        }
      }
    }
  }
}
