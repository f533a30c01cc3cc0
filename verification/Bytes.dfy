/** Bytes and numbers stored least significant byte first. */
module Bytes {

  type Byte = x: int | 0 <= x < 256

  function Power256(k: nat): (p: nat)
    ensures p > 0
  {
    if k == 0 then 1 else 256 * Power256(k - 1)
  }

  /** The low `k` bytes of `n`. */
  function LittleEndian(n: nat, k: nat): (r: seq<Byte>)
    ensures |r| == k
  {
    if k == 0 then [] else [n % 256] + LittleEndian(n / 256, k - 1)
  }

  function FromLittleEndian(s: seq<Byte>): (n: nat)
    ensures n < Power256(|s|)
  {
    if s == [] then 0 else s[0] + 256 * FromLittleEndian(s[1..])
  }

  lemma LittleEndianStep(n: nat, k: nat)
    requires k > 0
    ensures LittleEndian(n, k) == [n % 256] + LittleEndian(n / 256, k - 1)
  {
  }

  lemma {:induction false} LittleEndianRoundTrip(n: nat, k: nat)
    requires n < Power256(k)
    ensures FromLittleEndian(LittleEndian(n, k)) == n
  {
    if k > 0 {
      LittleEndianRoundTrip(n / 256, k - 1);
      assert LittleEndian(n, k)[1..] == LittleEndian(n / 256, k - 1);
    }
  }

  lemma LittleEndianInjective(m: nat, n: nat, k: nat)
    requires m < Power256(k) && n < Power256(k) && LittleEndian(m, k) == LittleEndian(n, k)
    ensures m == n
  {
    LittleEndianRoundTrip(m, k);
    LittleEndianRoundTrip(n, k);
  }

  /** Small numbers in two and in four bytes. */
  lemma SmallNumbers(n: Byte)
    ensures LittleEndian(n, 2) == [n, 0] && LittleEndian(n, 4) == [n, 0, 0, 0]
  {
    var z: nat := 0;
    assert LittleEndian(z, 1) == [0];
    assert LittleEndian(z, 2) == [0] + LittleEndian(z, 1);
    assert LittleEndian(z, 3) == [0] + LittleEndian(z, 2);
    LittleEndianStep(n, 2);
    LittleEndianStep(n, 4);
  }

  lemma Powers()
    ensures Power256(1) == 256 && Power256(2) == 65536 && Power256(4) == 4294967296
  {
    assert Power256(2) == 256 * Power256(1);
    assert Power256(3) == 256 * Power256(2);
    assert Power256(4) == 256 * Power256(3);
  }
}
