/** Fixed-width big-endian integers (encoding/binary as the program uses it). */
module BigEndian {
  import opened Records

  /** Number of values of this width. */
  function Span(width: nat): (r: nat)
    ensures r > 0
  {
    if width == 0 then 1 else 256 * Span(width - 1)
  }

  function Put(n: nat, width: nat): (r: Bytes)
    ensures |r| == width
    decreases width
  {
    if width == 0 then [] else Put(n / 256, width - 1) + [n % 256]
  }

  function Get(bs: Bytes): nat {
    if bs == [] then 0 else 256 * Get(bs[..|bs| - 1]) + bs[|bs| - 1]
  }

  lemma {:induction false} GetPut(n: nat, width: nat)
    requires n < Span(width)
    ensures Get(Put(n, width)) == n
    decreases width
  {
    if width > 0 {
      GetPut(n / 256, width - 1);
      assert Put(n, width)[..width - 1] == Put(n / 256, width - 1);
    }
  }

  lemma {:induction false} PutGet(bs: Bytes)
    ensures Get(bs) < Span(|bs|) && Put(Get(bs), |bs|) == bs
  {
    if bs != [] {
      PutGet(bs[..|bs| - 1]);
      assert bs[..|bs| - 1] + [bs[|bs| - 1]] == bs;
    }
  }

  lemma {:induction false} Widths()
    ensures Span(1) == 0x100 && Span(2) == 0x1_0000 && Span(4) == TWO_32 && Span(8) == TWO_64
  {
    assert Span(3) == 256 * Span(2);
    assert Span(5) == 256 * Span(4);
    assert Span(7) == 256 * 256 * Span(5);
  }

  /** The bytes are the digits to the base 256, the highest first. */
  lemma {:induction false} ShortDigits(n: nat)
    ensures Put(n, 1) == [n % 256]
    ensures Put(n, 2) == [n / 0x100 % 256, n % 256]
  {
  }

  lemma {:induction false} FourDigits(n: nat)
    ensures Put(n, 4) == [n / 0x100_0000 % 256, n / 0x1_0000 % 256, n / 0x100 % 256, n % 256]
  {
    ShortDigits(n / 0x1_0000);
    var high := Put(n / 0x1_0000, 2);
    assert n / 256 / 256 == n / 0x1_0000;
    assert Put(n / 256, 3) == high + [n / 256 % 256];
    assert Put(n, 4) == Put(n / 256, 3) + [n % 256];
  }

  lemma {:induction false} LowDigit(n: nat, high: nat, low: nat)
    requires Put(n / 256, high + low) == Put(n / 256 / 0x100_0000, high) + Put(n / 256, low)
    ensures Put(n, high + low + 1) == Put(n / TWO_32, high) + Put(n, low + 1)
  {
    assert n / 256 / 0x100_0000 == n / TWO_32;
  }

  lemma {:induction false} EightDigits(n: nat)
    ensures Put(n, 8) == Put(n / TWO_32, 4) + Put(n, 4)
  {
    ThreeLower(n / 256);
    LowDigit(n, 4, 3);
  }

  lemma {:induction false} ThreeLower(n: nat)
    ensures Put(n, 7) == Put(n / 0x100_0000, 4) + Put(n, 3)
  {
    var a, b, c := n / 256, n / 256 / 256, n / 256 / 256 / 256;
    assert c == n / 0x100_0000;
    hide Put;
    PutUnfolds(n, 7);
    PutUnfolds(a, 6);
    PutUnfolds(b, 5);
    PutUnfolds(n, 3);
    PutUnfolds(a, 2);
    PutUnfolds(b, 1);
    assert Put(c, 0) == [];
  }

  lemma {:induction false} PutUnfolds(n: nat, width: nat)
    requires width > 0
    ensures Put(n, width) == Put(n / 256, width - 1) + [n % 256]
  {
  }
}
