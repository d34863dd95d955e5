/**
 * Frame integrity (src/hnet_decoder.py `_verify_checksum`). Python's `^` on
 * non-negative integers is defined here bit by bit; `& 0xFF` is `% 256`.
 */
module Checksum {

  import opened Bytes

  /** Bitwise exclusive or of two non-negative integers. */
  function Xor(a: nat, b: nat): nat
    decreases a + b
  {
    if a == 0 then b
    else if b == 0 then a
    else 2 * Xor(a / 2, b / 2) + (if a % 2 == b % 2 then 0 else 1)
  }

  lemma XorZeroRight(a: nat)
    ensures Xor(a, 0) == a
  {
  }

  /** Reading the exclusive or back bit by bit: its low bit and the rest. */
  lemma XorBits(a: nat, b: nat)
    ensures Xor(a, b) % 2 == (if a % 2 == b % 2 then 0 else 1)
    ensures Xor(a, b) / 2 == Xor(a / 2, b / 2)
  {
    if a == 0 {
      assert a / 2 == 0;
    } else if b == 0 {
      assert b / 2 == 0;
    }
  }

  /** Two numbers with the same low bit and the same upper bits are equal. */
  lemma BitsDetermine(x: nat, y: nat)
    requires x % 2 == y % 2 && x / 2 == y / 2
    ensures x == y
  {
  }

  lemma {:induction false} XorCommutes(a: nat, b: nat)
    ensures Xor(a, b) == Xor(b, a)
    decreases a + b
  {
    if a != 0 && b != 0 {
      XorCommutes(a / 2, b / 2);
    }
  }

  lemma {:induction false} XorAssociates(a: nat, b: nat, c: nat)
    ensures Xor(Xor(a, b), c) == Xor(a, Xor(b, c))
    decreases a + b + c
  {
    if a != 0 && b != 0 && c != 0 {
      XorAssociates(a / 2, b / 2, c / 2);
      XorBits(Xor(a, b), c);
      XorBits(a, b);
      XorBits(a, Xor(b, c));
      XorBits(b, c);
      BitsDetermine(Xor(Xor(a, b), c), Xor(a, Xor(b, c)));
    } else if c == 0 {
      XorZeroRight(Xor(a, b));
      XorZeroRight(b);
    }
  }

  lemma {:induction false} XorSelf(a: nat)
    ensures Xor(a, a) == 0
    decreases a
  {
    if a != 0 {
      XorSelf(a / 2);
    }
  }

  /** The exclusive or of two bytes is a byte, so `& 0xFF` leaves it alone. */
  lemma {:induction false} XorBelow(a: nat, b: nat, n: nat)
    requires a < Pow2(n) && b < Pow2(n)
    ensures Xor(a, b) < Pow2(n)
    decreases n
  {
    if n > 0 && a != 0 && b != 0 {
      XorBelow(a / 2, b / 2, n - 1);
    }
  }

  function Pow2(n: nat): nat
  {
    if n == 0 then 1 else 2 * Pow2(n - 1)
  }

  lemma XorByte(a: byte, b: byte)
    ensures Xor(a, b) < 256
  {
    assert Pow2(8) == 256;
    XorBelow(a, b, 8);
  }

  /** The exclusive or of all bytes of `s`, folded left to right as the source's loop does. */
  function XorFold(s: seq<byte>): (r: byte)
  {
    if |s| == 0 then 0
    else
      var rest := XorFold(s[..|s| - 1]);
      XorByte(rest, s[|s| - 1]);
      Xor(rest, s[|s| - 1])
  }

  /** Folding a sequence with a known first element: that element is xor-ed with the fold of the rest. */
  lemma {:induction false} XorFoldFirst(s: seq<byte>)
    requires |s| > 0
    ensures XorFold(s) == Xor(s[0], XorFold(s[1..]))
    decreases |s|
  {
    if |s| == 1 {
      assert s[1..] == [];
      assert s[..0] == [];
      XorZeroRight(s[0]);
    } else {
      var init := s[..|s| - 1];
      XorFoldFirst(init);
      assert init[1..] == s[1..][..|s[1..]| - 1];
      XorAssociates(s[0], XorFold(init[1..]), s[|s| - 1]);
    }
  }

  /**
   * The checksum exactly as the source computes it: the exclusive or of every
   * byte but the last, xor-ed once more with the source address, masked to a byte.
   */
  function SourceChecksum(frame: seq<byte>): nat
    requires |frame| > 0
  {
    Xor(XorFold(frame[..|frame| - 1]), frame[0]) % 256
  }

  /** What "valid" means for a frame: at least four bytes, and bytes 1..len-2 xor to the last byte. */
  predicate ChecksumValid(frame: seq<byte>)
  {
    |frame| >= 4 && XorFold(frame[1..|frame| - 1]) == frame[|frame| - 1]
  }

  /** The second xor with byte 0 cancels its first appearance: the source's sum is bytes 1..len-2. */
  lemma SourceChecksumSkipsAddress(frame: seq<byte>)
    requires |frame| >= 2
    ensures SourceChecksum(frame) == XorFold(frame[1..|frame| - 1])
  {
    var body := frame[..|frame| - 1];
    XorFoldFirst(body);
    assert body[1..] == frame[1..|frame| - 1];
    var rest := XorFold(frame[1..|frame| - 1]);
    XorCommutes(Xor(frame[0], rest), frame[0]);
    XorAssociates(frame[0], frame[0], rest);
    XorSelf(frame[0]);
  }

  /** Validity never depends on the source-address byte. */
  lemma ValidityIgnoresAddress(frame: seq<byte>, addr: byte)
    requires |frame| > 0
    ensures ChecksumValid(frame) <==> ChecksumValid([addr] + frame[1..])
  {
    var other := [addr] + frame[1..];
    if |frame| >= 2 {
      assert other[1..|other| - 1] == frame[1..|frame| - 1];
    }
  }

  /**
   * `_verify_checksum`: the source's loop over `frame[:-1]`, then the extra
   * xor with `frame[0]` and the `& 0xFF` mask.
   */
  method VerifyChecksum(frame: seq<byte>) returns (ok: bool)
    ensures ok <==> ChecksumValid(frame)
  {
    if |frame| < 4 {
      return false;
    }
    var checksum: nat := 0;
    var data := frame[..|frame| - 1];
    var srcAddress := frame[0];
    for i := 0 to |data|
      invariant checksum == XorFold(data[..i])
    {
      assert data[..i + 1][..i] == data[..i];
      checksum := Xor(checksum, data[i]);
    }
    assert data[..|data|] == data;
    checksum := Xor(checksum, srcAddress);
    SourceChecksumSkipsAddress(frame);
    ok := checksum % 256 == frame[|frame| - 1];
  }
}
