/** Sizes and types that the parts of the kernel share. */
module Machine {
  const PAGE_SIZE := 4096

  type Byte = x: int | 0 <= x < 256

  /** The number that bytes encode, lowest byte first. */
  function LittleEndian(bytes: seq<Byte>): nat {
    if bytes == [] then 0 else bytes[0] as int + 0x100 * LittleEndian(bytes[1..])
  }

  lemma LittleEndian2(bytes: seq<Byte>)
    requires |bytes| == 2
    ensures LittleEndian(bytes) == bytes[0] as int + 0x100 * (bytes[1] as int)
  {
    assert LittleEndian(bytes[1..]) == bytes[1] as int + 0x100 * LittleEndian(bytes[1..][1..]);
  }

  lemma LittleEndian4(bytes: seq<Byte>)
    requires |bytes| == 4
    ensures LittleEndian(bytes) == bytes[0] as int + 0x100 * (bytes[1] as int) + 0x1_0000 * (bytes[2] as int) + 0x100_0000 * (bytes[3] as int)
  {
    LittleEndian2(bytes[2..]);
    assert bytes[1..][1..] == bytes[2..];
    assert LittleEndian(bytes[1..]) == bytes[1] as int + 0x100 * LittleEndian(bytes[2..]);
  }
}
