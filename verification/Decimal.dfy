/** Numbers and IPv4 addresses as printed text. */
module Decimal {
  import opened Bytes

  const ZERO: byte := 48
  const MINUS: byte := 45

  function Dec(n: nat): (s: seq<byte>)
    ensures s != [] && forall i :: 0 <= i < |s| ==> ZERO <= s[i] <= ZERO + 9
  {
    if n < 10 then [ZERO + n] else Dec(n / 10) + [ZERO + n % 10]
  }

  /** printf's %d of a signed value. */
  function DecSigned(n: int): seq<byte> {
    if n < 0 then [MINUS] + Dec(-n) else Dec(n)
  }

  function Pow10(k: nat): nat {
    if k == 0 then 1 else 10 * Pow10(k - 1)
  }

  /** n prints in at most k digits exactly when it is below 10^k. */
  lemma {:induction false} DecWidth(n: nat, k: nat)
    requires k > 0
    ensures |Dec(n)| <= k <==> n < Pow10(k)
    decreases n
  {
    if n < 10 {
      assert Pow10(k) >= 10 by { Pow10AtLeast(k); }
    } else if k == 1 {
      assert Pow10(1) == 10 * Pow10(0);
    } else {
      DecWidth(n / 10, k - 1);
    }
  }

  lemma {:induction false} Pow10AtLeast(k: nat)
    requires k > 0
    ensures Pow10(k) >= 10
  {
    if k > 1 {
      Pow10AtLeast(k - 1);
    }
  }

  /** The value that printed digits stand for. */
  function Value(s: seq<byte>): nat
    requires forall i :: 0 <= i < |s| ==> ZERO <= s[i] <= ZERO + 9
  {
    if s == [] then 0 else 10 * Value(s[..|s| - 1]) + (s[|s| - 1] - ZERO)
  }

  /** Printing loses nothing. */
  lemma {:induction false} DecReadsBack(n: nat)
    ensures Value(Dec(n)) == n
  {
    if n < 10 {
      assert Dec(n)[..0] == [];
    } else {
      DecReadsBack(n / 10);
      assert Dec(n)[..|Dec(n)| - 1] == Dec(n / 10);
    }
  }

  type Address = a: seq<byte> | |a| == 4 witness [0, 0, 0, 0]

  /** Octets in decimal, joined by dots: inet_ntoa for an address. */
  function DottedQuad(a: seq<byte>): seq<byte> {
    if a == [] then [] else if |a| == 1 then Dec(a[0]) else Dec(a[0]) + [DOT] + DottedQuad(a[1..])
  }

  lemma {:induction false} QuadWidth(a: seq<byte>)
    ensures |a| > 0 ==> 2 * |a| - 1 <= |DottedQuad(a)| <= 4 * |a| - 1
  {
    if |a| > 0 {
      assert Pow10(3) == 1000 by { assert Pow10(3) == 10 * Pow10(2) && Pow10(2) == 10 * Pow10(1) && Pow10(1) == 10 * Pow10(0); }
      DecWidth(a[0], 3);
      QuadWidth(a[1..]);
    }
  }
}
