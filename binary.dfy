/** Fixed-width integers and their big-endian byte encoding, as written and
    read by the log with binary.BigEndian. */
module Binary {

  type byte = b: int | 0 <= b < 0x100
  type bytes = seq<byte>
  type uint32 = n: int | 0 <= n < 0x1_0000_0000
  type uint64 = n: int | 0 <= n < 0x1_0000_0000_0000_0000
  type int64 = n: int | -0x8000_0000_0000_0000 <= n < 0x8000_0000_0000_0000

  /** The largest file size and slice length the platform can represent. */
  const MaxInt64: int := 0x7FFF_FFFF_FFFF_FFFF

  /** The number of distinct values that `width` bytes can hold. */
  function Pow256(width: nat): (r: nat)
    ensures r > 0
  {
    if width == 0 then 1 else 256 * Pow256(width - 1)
  }

  lemma Pow256Widths()
    ensures Pow256(4) == 0x1_0000_0000
    ensures Pow256(8) == 0x1_0000_0000_0000_0000
  {
  }

  /** `n` written as `width` bytes, most significant byte first. */
  function ToBigEndian(n: nat, width: nat): (s: bytes)
    requires n < Pow256(width)
    ensures |s| == width
  {
    if width == 0 then [] else ToBigEndian(n / 256, width - 1) + [n % 256]
  }

  /** The unsigned value of `s` read most significant byte first. */
  function FromBigEndian(s: bytes): (n: nat)
    ensures n < Pow256(|s|)
  {
    if s == [] then 0 else FromBigEndian(s[..|s| - 1]) * 256 + s[|s| - 1]
  }

  /** Reading back what was written gives the original value. */
  lemma {:induction false} DecodeEncode(n: nat, width: nat)
    requires n < Pow256(width)
    ensures FromBigEndian(ToBigEndian(n, width)) == n
  {
    if width > 0 {
      var s := ToBigEndian(n, width);
      assert s[..|s| - 1] == ToBigEndian(n / 256, width - 1);
      DecodeEncode(n / 256, width - 1);
    }
  }

  /** Writing back what was read gives the original bytes. */
  lemma {:induction false} EncodeDecode(s: bytes)
    ensures ToBigEndian(FromBigEndian(s), |s|) == s
  {
    if s != [] {
      var init := s[..|s| - 1];
      EncodeDecode(init);
      var n := FromBigEndian(s);
      assert n / 256 == FromBigEndian(init);
      assert n % 256 == s[|s| - 1];
      assert s == init + [s[|s| - 1]];
    }
  }

  /** Two byte strings of one width are equal exactly when their values are. */
  lemma EncodingInjective(s: bytes, t: bytes)
    requires |s| == |t|
    ensures FromBigEndian(s) == FromBigEndian(t) <==> s == t
  {
    EncodeDecode(s);
    EncodeDecode(t);
  }
}
