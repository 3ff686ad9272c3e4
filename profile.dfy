/**
  The RT4K `.rt4` profile record: a 128-byte header followed by a payload.
  The header holds, little-endian at offset 32, a CRC-16 of the payload
  computed with a 16-entry nibble table (polynomial 0x1021, initial value 0,
  no reflection, no final xor: the CRC-16/XMODEM parameters).

  C#'s `int` arithmetic is modelled on `bv32`: `<<` wraps at 32 bits and `>>`
  is the arithmetic shift, written out in Sar12.
 */
module Profiles {

  /** Offset of the little-endian checksum inside the header. */
  const CrcOffset := 32
  /** Size of the header; the checksum covers the bytes after it. */
  const HeaderSize := 128

  /** The nibble table of rt_crc, as literally listed in the firmware. */
  const CrcTable: seq<bv32> := [
    0x0000, 0x1021, 0x2042, 0x3063, 0x4084, 0x50a5, 0x60c6, 0x70e7,
    0x8108, 0x9129, 0xa14a, 0xb16b, 0xc18c, 0xd1ad, 0xe1ce, 0xf1ef
  ]

  /** C#'s `x >> 12` on an `int`: the shift copies the sign bit. */
  function Sar12(x: bv32): bv32
  {
    if x & 0x8000_0000 != 0 then (x >> 12) | 0xFFF0_0000 else x >> 12
  }

  /** `((crc >> 12) ^ nibble) & 0x0F`, the table index of one update. */
  function TableIndex(crc: bv32, nibble: bv32): (k: bv32)
    ensures k < 16
  {
    (Sar12(crc) ^ nibble) & 0x0F
  }

  /** `entry ^ (crc << 4)`: a table entry xored into the register shifted by a nibble. */
  function Combine(entry: bv32, crc: bv32): bv32
  {
    entry ^ (crc << 4)
  }

  /** `crc = crc_table[((crc >> 12) ^ nibble) & 0x0F] ^ (crc << 4)`, reading the literal table. */
  function TableUpdate(crc: bv32, nibble: bv32): bv32
  {
    Combine(CrcTable[TableIndex(crc, nibble) as int], crc)
  }

  /** The entry a table built from polynomial 0x1021 holds at `k`. */
  function PolyEntry(k: bv32): bv32
  {
    (k << 12) ^ (k << 5) ^ k
  }

  /** The same update with the entry given by its polynomial formula (TableLookup relates the two). */
  function NibbleStep(crc: bv32, nibble: bv32): bv32
  {
    Combine(PolyEntry(TableIndex(crc, nibble)), crc)
  }

  /** `curbyte >> 4`, the nibble of the first update of a byte. */
  function HighNibble(b: bv8): bv32
  {
    (b as bv32) >> 4
  }

  /** `x & 0xFFFF`, the final mask of rt_crc. */
  function Low16(x: bv32): bv32
  {
    x & 0xFFFF
  }

  /** The two table updates for one byte, high nibble first; the second uses the whole byte. */
  function ByteStep(crc: bv32, b: bv8): bv32
  {
    NibbleStep(NibbleStep(crc, HighNibble(b)), b as bv32)
  }

  /** The unmasked CRC register after feeding `bytes` one byte per step from 0. */
  function CrcOf(bytes: seq<bv8>): bv32
    decreases |bytes|
  {
    if bytes == [] then 0
    else ByteStep(CrcOf(bytes[..|bytes| - 1]), bytes[|bytes| - 1])
  }

  /** The low 16 bits of a register as a 16-bit value. */
  function Trunc16(x: bv32): bv16
  {
    (x & 0xFFFF) as bv16
  }

  /** The checksum of a record: the CRC of bytes [128, |data|), masked to 16 bits. */
  function Checksum(data: seq<bv8>): bv16
  {
    if |data| <= HeaderSize then 0
    else Trunc16(CrcOf(data[HeaderSize..]))
  }

  /** rt_crc steps four bytes at a time, so the payload must be a whole number of groups. */
  predicate ValidLength(n: nat)
  {
    n <= HeaderSize || (n - HeaderSize) % 4 == 0
  }

  /** Every entry of the literal table is the polynomial multiple of its index. */
  lemma TableFormula(k: bv32)
    ensures k < 16 ==> CrcTable[k as int] == PolyEntry(k)
  {
    if k < 8 {
      if k < 4 {
        if k < 2 { if k == 0 {} else {} } else { if k == 2 {} else {} }
      } else {
        if k < 6 { if k == 4 {} else {} } else { if k == 6 {} else {} }
      }
    } else if k < 16 {
      if k < 12 {
        if k < 10 { if k == 8 {} else {} } else { if k == 10 {} else {} }
      } else {
        if k < 14 { if k == 12 {} else {} } else { if k == 14 {} else {} }
      }
    }
  }

  /** Reading the literal table is the polynomial-formula update. */
  lemma TableLookup(crc: bv32, nibble: bv32)
    ensures TableUpdate(crc, nibble) == NibbleStep(crc, nibble)
  {
    TableFormula(TableIndex(crc, nibble));
  }

  /** Appending a byte is one more ByteStep. */
  lemma CrcOfSnoc(s: seq<bv8>, b: bv8)
    ensures CrcOf(s + [b]) == ByteStep(CrcOf(s), b)
  {
    assert (s + [b])[..|s|] == s;
  }

  /** One more payload byte is one more ByteStep. */
  lemma CrcOfNext(data: seq<bv8>, lo: nat, j: nat)
    requires lo <= j < |data|
    ensures CrcOf(data[lo..j + 1]) == ByteStep(CrcOf(data[lo..j]), data[j])
  {
    assert data[lo..j + 1] == data[lo..j] + [data[j]];
    CrcOfSnoc(data[lo..j], data[j]);
  }

  /** One iteration of the unrolled loop of rt_crc covers four bytes. */
  lemma CrcOfFour(data: seq<bv8>, lo: nat, i: nat)
    requires lo <= i && i + 4 <= |data|
    ensures CrcOf(data[lo..i + 4])
         == ByteStep(ByteStep(ByteStep(ByteStep(CrcOf(data[lo..i]), data[i]), data[i + 1]), data[i + 2]), data[i + 3])
  {
    CrcOfNext(data, lo, i);
    CrcOfNext(data, lo, i + 1);
    CrcOfNext(data, lo, i + 2);
    CrcOfNext(data, lo, i + 3);
  }

  /** Widening the truncated register gives the masked register back. */
  lemma Trunc16Widen(x: bv32)
    ensures Trunc16(x) as bv32 == Low16(x)
  {
  }

  /** The two table updates rt_crc applies to one byte. */
  method UpdateByte(crc: bv32, curbyte: bv8) returns (r: bv32)
    ensures r == ByteStep(crc, curbyte)
  {
    TableLookup(crc, HighNibble(curbyte));
    r := TableUpdate(crc, HighNibble(curbyte));
    TableLookup(r, curbyte as bv32);
    r := TableUpdate(r, curbyte as bv32);
  }

  /** One pass of the unrolled loop: bytes i to i + 3. */
  method UpdateGroup(data: array<bv8>, i: nat, crc: bv32) returns (r: bv32)
    requires HeaderSize <= i && i + 4 <= data.Length
    requires crc == CrcOf(data[HeaderSize..i])
    ensures r == CrcOf(data[HeaderSize..i + 4])
  {
    CrcOfFour(data[..], HeaderSize, i);
    assert data[HeaderSize..i] == data[..][HeaderSize..i];
    assert data[HeaderSize..i + 4] == data[..][HeaderSize..i + 4];
    r := UpdateByte(crc, data[i]);
    r := UpdateByte(r, data[i + 1]);
    r := UpdateByte(r, data[i + 2]);
    r := UpdateByte(r, data[i + 3]);
  }

  /** rt_crc: the unrolled loop, four bytes per iteration, then `crc & 0xFFFF`. */
  method RtCrc(data: array<bv8>) returns (r: bv32)
    requires ValidLength(data.Length)
    ensures r <= 0xFFFF
    ensures r == Checksum(data[..]) as bv32
    ensures data.Length <= HeaderSize ==> r == 0
  {
    var crc: bv32 := 0;
    var dataLen := data.Length;
    var i := HeaderSize;
    ghost var groups := if dataLen <= HeaderSize then 0 else (dataLen - HeaderSize) / 4;
    ghost var done := 0;
    while i < dataLen
      invariant 0 <= done <= groups && i == HeaderSize + 4 * done
      invariant i <= dataLen ==> crc == CrcOf(data[HeaderSize..i])
      invariant i > dataLen ==> crc == 0
    {
      crc := UpdateGroup(data, i, crc);
      i := i + 4;
      done := done + 1;
    }
    if dataLen > HeaderSize {
      assert data[..][HeaderSize..] == data[HeaderSize..dataLen];
      Trunc16Widen(crc);
    }
    r := Low16(crc);
  }

  /** The table index reads only bits 12 to 15 of the register, so the sign shift is harmless. */
  lemma TableIndexLow(crc: bv32, nibble: bv32)
    ensures TableIndex(crc, nibble) == TableIndex(Low16(crc), nibble)
  {
  }

  /** Bits 16 and up of the register do not reach the low 16 bits of `t ^ (crc << 4)`. */
  lemma ShiftMask(t: bv32, crc: bv32)
    ensures Low16(t ^ (crc << 4)) == Low16(t ^ (Low16(crc) << 4))
  {
  }

  /** The same fact about Combine. */
  lemma CombineLow(t: bv32, crc: bv32)
    ensures Low16(Combine(t, crc)) == Low16(Combine(t, Low16(crc)))
  {
    ShiftMask(t, crc);
  }

  /** The low 16 bits of a nibble update depend only on the low 16 bits of crc. */
  lemma NibbleStepLow(crc: bv32, nibble: bv32)
    ensures Low16(NibbleStep(crc, nibble)) == Low16(NibbleStep(Low16(crc), nibble))
  {
    TableIndexLow(crc, nibble);
    CombineLow(PolyEntry(TableIndex(crc, nibble)), crc);
  }

  /** Masking twice is masking once. */
  lemma Low16Idempotent(x: bv32)
    ensures Low16(Low16(x)) == Low16(x)
  {
  }

  /** One byte with the register masked to 16 bits after every nibble update. */
  function MaskedByteStep(crc: bv32, b: bv8): bv32
  {
    Low16(NibbleStep(Low16(NibbleStep(crc, HighNibble(b))), b as bv32))
  }

  /** The register after feeding `bytes` with masking after every nibble update. */
  function MaskedCrcOf(bytes: seq<bv8>): bv32
    decreases |bytes|
  {
    if bytes == [] then 0
    else MaskedByteStep(MaskedCrcOf(bytes[..|bytes| - 1]), bytes[|bytes| - 1])
  }

  /** Masking both nibble updates of a byte equals masking after the byte. */
  lemma MaskedByteStepLow(c: bv32, b: bv8)
    ensures MaskedByteStep(Low16(c), b) == Low16(ByteStep(c, b))
  {
    var hi := HighNibble(b);
    NibbleStepLow(c, hi);
    NibbleStepLow(NibbleStep(c, hi), b as bv32);
    Low16Idempotent(c);
  }

  /** Masking once at the end, as rt_crc does, equals masking after every nibble. */
  lemma {:induction false} MaskAtEnd(bytes: seq<bv8>)
    ensures MaskedCrcOf(bytes) == Low16(CrcOf(bytes))
    decreases |bytes|
  {
    if bytes != [] {
      var init := bytes[..|bytes| - 1];
      MaskAtEnd(init);
      MaskedByteStepLow(CrcOf(init), bytes[|bytes| - 1]);
    }
  }

  /** One step of the bit-serial CRC with polynomial 0x1021. */
  function ShiftBit(crc: bv16): bv16
  {
    if crc & 0x8000 != 0 then (crc << 1) ^ 0x1021 else crc << 1
  }

  /** Four bit-serial steps. */
  function Shift4(crc: bv16): bv16
  {
    ShiftBit(ShiftBit(ShiftBit(ShiftBit(crc))))
  }

  /** A byte xored into the top eight bits of the register. */
  function FeedByte(crc: bv16, b: bv8): bv16
  {
    crc ^ ((b as bv16) << 8)
  }

  /** The textbook CRC-16/XMODEM update: xor the byte into the top, then eight shifts. */
  function XmodemByte(crc: bv16, b: bv8): bv16
  {
    Shift4(Shift4(FeedByte(crc, b)))
  }

  /** CRC-16/XMODEM of `bytes`: initial value 0, no final xor. */
  function Xmodem(bytes: seq<bv8>): bv16
    decreases |bytes|
  {
    if bytes == [] then 0
    else XmodemByte(Xmodem(bytes[..|bytes| - 1]), bytes[|bytes| - 1])
  }

  /** `nibble & 0x0F` as a 16-bit value. */
  function Nibble16(nibble: bv32): bv16
  {
    (nibble & 0x0F) as bv16
  }

  /** The polynomial multiple of `k`, in 16 bits. */
  function PolyEntry16(k: bv16): bv16
  {
    (k << 12) ^ (k << 5) ^ k
  }

  /** The table update of rt_crc computed in 16 bits. */
  function Update16(c: bv16, k: bv16): bv16
  {
    PolyEntry16(k) ^ (c << 4)
  }

  /** The table index of rt_crc computed in 16 bits. */
  function Index16(c: bv16, n: bv16): bv16
  {
    ((c >> 12) ^ n) & 0x0F
  }

  /** A nibble xored into the top four bits of the register. */
  function Feed(c: bv16, n: bv16): bv16
  {
    c ^ (n << 12)
  }

  /** A nibble xored into bits 8 to 11 of the register. */
  function FeedLow(c: bv16, n: bv16): bv16
  {
    c ^ (n << 8)
  }

  /** In 16 bits, a polynomial-table update is four bit-serial steps. */
  lemma FormulaIsFourShifts(c: bv16, n: bv16)
    ensures n < 16 ==> Update16(c, Index16(c, n)) == Shift4(Feed(c, n))
  {
  }

  /** The table index, seen in 16 bits. */
  lemma TableIndex16(crc: bv32, nibble: bv32)
    ensures Trunc16(TableIndex(crc, nibble)) == Index16(Trunc16(crc), Nibble16(nibble))
    ensures Nibble16(nibble) < 16
  {
  }

  /** A polynomial-entry update, truncated to 16 bits, computed in 16 bits. */
  lemma PolyStep16(crc: bv32, k: bv32)
    ensures Trunc16(Combine(PolyEntry(k), crc)) == Update16(Trunc16(crc), Trunc16(k))
  {
  }

  /** A nibble update, truncated to 16 bits, computed in 16 bits. */
  lemma TableStep16(crc: bv32, nibble: bv32)
    ensures Trunc16(NibbleStep(crc, nibble)) == Update16(Trunc16(crc), Trunc16(TableIndex(crc, nibble)))
  {
    PolyStep16(crc, TableIndex(crc, nibble));
  }

  /** A nibble update of rt_crc, seen in its low 16 bits, is four bit-serial steps. */
  lemma NibbleIsFourShifts(crc: bv32, nibble: bv32)
    ensures Trunc16(NibbleStep(crc, nibble)) == Shift4(Feed(Trunc16(crc), Nibble16(nibble)))
  {
    TableStep16(crc, nibble);
    TableIndex16(crc, nibble);
    FormulaIsFourShifts(Trunc16(crc), Nibble16(nibble));
  }

  /** A byte fed into the top is its high nibble fed at 12 and its low nibble fed at 8. */
  lemma ByteSplit(c: bv16, b: bv8)
    ensures FeedByte(c, b) == FeedLow(Feed(c, Nibble16(HighNibble(b))), Nibble16(b as bv32))
  {
    NibblesOfByte(c, b);
  }

  /** ByteSplit written out on the operators. */
  lemma NibblesOfByte(c: bv16, b: bv8)
    ensures c ^ ((b as bv16) << 8)
         == (c ^ (((((b as bv32) >> 4) & 0x0F) as bv16) << 12)) ^ ((((b as bv32) & 0x0F) as bv16) << 8)
  {
  }

  /** The low nibble of a byte fits in four bits. */
  lemma LowNibbleBound(b: bv8)
    ensures Nibble16(b as bv32) < 16
  {
  }

  /** Four shifts carry a low nibble placed at bits 8 to 11 up to bits 12 to 15. */
  lemma ShiftsCarryLowNibble(x: bv16, lo: bv16)
    ensures lo < 16 ==> Shift4(FeedLow(x, lo)) == Feed(Shift4(x), lo)
  {
  }

  /** Two nibble updates are eight bit-serial steps. */
  lemma ByteStepIsXmodem(crc: bv32, b: bv8)
    ensures Trunc16(ByteStep(crc, b)) == XmodemByte(Trunc16(crc), b)
  {
    var hi, lo := HighNibble(b), b as bv32;
    NibbleIsFourShifts(crc, hi);
    NibbleIsFourShifts(NibbleStep(crc, hi), lo);
    ByteSplit(Trunc16(crc), b);
    LowNibbleBound(b);
    ShiftsCarryLowNibble(Feed(Trunc16(crc), Nibble16(hi)), Nibble16(lo));
  }

  /** The nibble-table register, truncated, is the CRC-16/XMODEM of the same bytes. */
  lemma {:induction false} CrcIsXmodem(bytes: seq<bv8>)
    ensures Trunc16(CrcOf(bytes)) == Xmodem(bytes)
    decreases |bytes|
  {
    if bytes != [] {
      var init := bytes[..|bytes| - 1];
      CrcIsXmodem(init);
      ByteStepIsXmodem(CrcOf(init), bytes[|bytes| - 1]);
    }
  }

  /** The record checksum is CRC-16/XMODEM of the payload. */
  lemma ChecksumIsXmodem(data: seq<bv8>)
    requires |data| >= HeaderSize
    ensures Checksum(data) == Xmodem(data[HeaderSize..])
  {
    if |data| > HeaderSize {
      CrcIsXmodem(data[HeaderSize..]);
    } else {
      assert data[HeaderSize..] == [];
    }
  }

  /** The checksum reads no byte of the header, the checksum field included. */
  lemma ChecksumIgnoresHeader(s: seq<bv8>, t: seq<bv8>)
    requires |s| == |t|
    requires forall i | HeaderSize <= i < |s| :: s[i] == t[i]
    ensures Checksum(s) == Checksum(t)
  {
    if |s| > HeaderSize {
      assert s[HeaderSize..] == t[HeaderSize..];
    }
  }

  /** `s` with `d` written over it from offset `a`. */
  function Patched(s: seq<bv8>, a: nat, d: seq<bv8>): (r: seq<bv8>)
    requires a + |d| <= |s|
  {
    s[..a] + d + s[a + |d|..]
  }

  /** A patch writes d[j] at a + j and leaves every other byte and the length alone. */
  lemma PatchedAt(s: seq<bv8>, a: nat, d: seq<bv8>, i: int)
    requires a + |d| <= |s| && 0 <= i < |s|
    ensures |Patched(s, a, d)| == |s|
    ensures Patched(s, a, d)[i] == if a <= i < a + |d| then d[i - a] else s[i]
  {
  }

  /** BitConverter.GetBytes(ushort) on a little-endian target. */
  function LittleEndian(v: bv16): seq<bv8>
  {
    [(v & 0xFF) as bv8, (v >> 8) as bv8]
  }

  /** The checksum field as stored in the header. */
  function StoredChecksum(s: seq<bv8>): bv16
    requires CrcOffset + 2 <= |s|
  {
    ((s[CrcOffset + 1] as bv16) << 8) | (s[CrcOffset] as bv16)
  }

  /** What Save leaves in the buffer: the checksum written over bytes 32 and 33. */
  function Saved(s: seq<bv8>): seq<bv8>
    requires CrcOffset + 2 <= |s|
  {
    Patched(s, CrcOffset, LittleEndian(Checksum(s)))
  }

  /** Save stores the low byte at 32 and the high byte at 33 and changes nothing else. */
  lemma SavedLayout(s: seq<bv8>)
    requires CrcOffset + 2 <= |s|
    ensures |Saved(s)| == |s|
    ensures Saved(s)[CrcOffset] == (Checksum(s) & 0xFF) as bv8
    ensures Saved(s)[CrcOffset + 1] == (Checksum(s) >> 8) as bv8
    ensures forall i | 0 <= i < |s| && i != CrcOffset && i != CrcOffset + 1 :: Saved(s)[i] == s[i]
  {
    forall i | 0 <= i < |s| ensures Saved(s)[i] == if CrcOffset <= i < CrcOffset + 2 then LittleEndian(Checksum(s))[i - CrcOffset] else s[i] {
      PatchedAt(s, CrcOffset, LittleEndian(Checksum(s)), i);
    }
  }

  /** A saved record carries the checksum of its own payload. */
  lemma SavedValidates(s: seq<bv8>)
    requires CrcOffset + 2 <= |s|
    ensures StoredChecksum(Saved(s)) == Checksum(Saved(s))
    ensures Checksum(Saved(s)) == Checksum(s)
  {
    SavedLayout(s);
    ChecksumIgnoresHeader(s, Saved(s));
    var c := Checksum(s);
    assert ((((c >> 8) as bv8) as bv16) << 8) | (((c & 0xFF) as bv8) as bv16) == c;
  }

  /** Saving twice with no patch in between gives the same bytes as saving once. */
  lemma SaveIdempotent(s: seq<bv8>)
    requires CrcOffset + 2 <= |s|
    ensures Saved(Saved(s)) == Saved(s)
  {
    SavedLayout(s);
    SavedValidates(s);
    SavedLayout(Saved(s));
  }

  /** A profile wraps the caller's buffer and patches it in place. */
  class Profile {
    var profileData: array<bv8>

    /** The buffer is shared with the caller, not copied. */
    constructor (data: array<bv8>)
      ensures profileData == data
    {
      profileData := data;
    }

    /** Writes data[j] at address + j; the caller keeps the range inside the buffer. */
    method UpdateBytes(address: int, data: seq<bv8>)
      requires 0 <= address && address + |data| <= profileData.Length
      modifies profileData
      ensures profileData[..] == Patched(old(profileData[..]), address, data)
    {
      var i := 0;
      while i < |data|
        invariant 0 <= i <= |data|
        invariant forall j | 0 <= j < profileData.Length ::
          profileData[j] == if address <= j < address + i then data[j - address] else old(profileData[j])
      {
        profileData[address + i] := data[i];
        i := i + 1;
      }
      forall j | 0 <= j < profileData.Length
        ensures profileData[..][j] == Patched(old(profileData[..]), address, data)[j]
      {
        PatchedAt(old(profileData[..]), address, data, j);
      }
    }

    /** Recomputes the checksum into the header and returns the same buffer. */
    method Save() returns (r: array<bv8>)
      requires CrcOffset + 2 <= profileData.Length
      requires ValidLength(profileData.Length)
      modifies profileData
      ensures r == profileData
      ensures profileData[..] == Saved(old(profileData[..]))
    {
      var crc := RtCrc(profileData);
      UpdateBytes(CrcOffset, LittleEndian(crc as bv16));
      r := profileData;
    }
  }
}
