/** CRC-32 with the IEEE 802.3 polynomial, the checksum each log frame
    carries. Bits are processed least significant first (the reflected
    form), the register starts as all ones and is complemented at the end. */
module Crc32 {
  import opened Binary

  /** The IEEE polynomial 0x04C11DB7 in reversed bit order. */
  const IEEE: bv32 := 0xEDB8_8320

  /** One division step: shift the register right by one bit and fold in
      the polynomial when the bit shifted out is set. */
  function Step(crc: bv32): bv32
  {
    if crc & 1 == 1 then (crc >> 1) ^ IEEE else crc >> 1
  }

  /** The register after absorbing bytes `i..` of `s`, where byte `i` still
      needs `steps` division steps (8 means it has not been mixed in yet). */
  function Register(crc: bv32, s: bytes, i: nat, steps: nat): bv32
    requires i <= |s| && steps <= 8
    decreases |s| - i, steps
  {
    if i == |s| then crc
    else if steps == 0 then Register(crc, s, i + 1, 8)
    else if steps == 8 then Register(Step(crc ^ (s[i] as bv32)), s, i, 7)
    else Register(Step(crc), s, i, steps - 1)
  }

  /** The CRC-32 (IEEE) checksum of `s`. */
  function ChecksumIEEE(s: bytes): uint32
  {
    (!Register(!0, s, 0, 8)) as int
  }
}
