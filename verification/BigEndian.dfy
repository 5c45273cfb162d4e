/** Fixed-width big-endian integers: `to_be_bytes` and `from_be_bytes`. */
module BigEndian {
  import opened Prelude

  /** 256 to the power `width`. */
  function Range(width: nat): (r: nat)
    ensures r >= 1
  {
    if width == 0 then 1 else 256 * Range(width - 1)
  }

  /** The low `width` bytes of `n`, most significant first. */
  function ToBe(n: nat, width: nat): (r: Octets)
    ensures |r| == width
  {
    if width == 0 then [] else ToBe(n / 256, width - 1) + [n % 256]
  }

  function FromBe(b: Octets): (n: nat) {
    if b == [] then 0 else 256 * FromBe(b[..|b| - 1]) + b[|b| - 1]
  }

  lemma {:induction false} FromBeToBe(n: nat, width: nat)
    requires n < Range(width)
    ensures FromBe(ToBe(n, width)) == n
  {
    if width > 0 {
      FromBeToBe(n / 256, width - 1);
      var high := ToBe(n / 256, width - 1);
      assert ToBe(n, width)[..width - 1] == high;
    }
  }

  lemma {:induction false} FromBeBound(b: Octets)
    ensures FromBe(b) < Range(|b|)
  {
    if b != [] {
      FromBeBound(b[..|b| - 1]);
    }
  }

  lemma Ranges()
    ensures Range(1) == 0x100 && Range(2) == 0x1_0000
    ensures Range(4) == 0x1_0000_0000 && Range(8) == 0x1_0000_0000_0000_0000
  {
    assert Range(1) == 256 * Range(0);
    assert Range(2) == 256 * Range(1);
    assert Range(3) == 256 * Range(2);
    assert Range(4) == 256 * Range(3);
    assert Range(5) == 256 * Range(4);
    assert Range(6) == 256 * Range(5);
    assert Range(7) == 256 * Range(6);
    assert Range(8) == 256 * Range(7);
  }
}
