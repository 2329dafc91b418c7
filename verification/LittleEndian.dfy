/** Integers as bytes, lowest byte first. */
module LittleEndian {
  import opened Common

  function Le(x: nat, n: nat): (s: seq<byte>)
    ensures |s| == n
  {
    if n == 0 then [] else [x % 256] + Le(x / 256, n - 1)
  }

  function FromLe(s: seq<byte>): nat {
    if s == [] then 0 else s[0] + 256 * FromLe(s[1..])
  }

  /** 256 to the n, for the widths in use. */
  function Span(n: nat): nat {
    if n == 0 then 1 else 256 * Span(n - 1)
  }

  lemma {:induction false} LeRoundTrip(x: nat, n: nat)
    requires x < Span(n)
    ensures FromLe(Le(x, n)) == x
  {
    if n > 0 {
      LeRoundTrip(x / 256, n - 1);
      assert Le(x, n)[1..] == Le(x / 256, n - 1);
    }
  }

  lemma LeOfTwo(x: nat)
    requires x < 0x1_0000
    ensures Le(x, 2) == [x % 256, x / 256]
  {
    assert Le(x / 256, 1) == [x / 256] + Le(0, 0);
  }

  lemma LeOfFour(x: nat)
    requires x < 0x1_0000_0000
    ensures Le(x, 4) == [x % 256, x / 256 % 256, x / 0x1_0000 % 256, x / 0x100_0000]
  {
    LeOfTwo(x / 0x1_0000);
    assert x / 256 / 256 == x / 0x1_0000;
    assert Le(x, 4) == [x % 256] + ([x / 256 % 256] + Le(x / 256 / 256, 2));
  }
}
