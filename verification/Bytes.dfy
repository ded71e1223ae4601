/** Bytes, and the few shared helpers on byte strings. */
module Bytes {
  type byte = x: int | 0 <= x < 256

  const SPACE: byte := 32
  const DOT: byte := 46

  datatype Option<+T> = None | Some(value: T)

  function Zeros(n: nat): (s: seq<byte>)
    ensures |s| == n && forall i :: 0 <= i < n ==> s[i] == 0
  {
    if n == 0 then [] else [0] + Zeros(n - 1)
  }

  function Concat<T>(parts: seq<seq<T>>): seq<T> {
    if parts == [] then [] else parts[0] + Concat(parts[1..])
  }

  lemma {:induction false} ConcatAppend<T>(a: seq<seq<T>>, b: seq<seq<T>>)
    ensures Concat(a + b) == Concat(a) + Concat(b)
  {
    if a == [] {
      assert a + b == b;
    } else {
      ConcatAppend(a[1..], b);
      assert (a + b)[0] == a[0] && (a + b)[1..] == a[1..] + b;
      Assoc(a[0], Concat(a[1..]), Concat(b));
    }
  }

  /** The bytes of s stand in o from position p on. */
  ghost predicate StandsAt(o: seq<byte>, p: nat, s: seq<byte>) {
    p + |s| <= |o| && forall i :: 0 <= i < |s| ==> o[p + i] == s[i]
  }

  lemma StandsSplit(o: seq<byte>, p: nat, a: seq<byte>, b: seq<byte>)
    requires StandsAt(o, p, a + b)
    ensures StandsAt(o, p, a) && StandsAt(o, p + |a|, b)
  {
    forall i | 0 <= i < |a| ensures o[p + i] == a[i] {
      assert (a + b)[i] == a[i];
    }
    forall i | 0 <= i < |b| ensures o[p + |a| + i] == b[i] {
      assert (a + b)[|a| + i] == b[i] && o[p + (|a| + i)] == (a + b)[|a| + i];
    }
  }

  /** The text written from position base on: its length alone while measuring (out is null), its
      bytes while filling. */
  ghost predicate TextIs(out: array?<byte>, base: nat, at: nat, text: seq<byte>)
    reads out
  {
    at == |text| && (out != null ==> base + at <= out.Length && forall i :: 0 <= i < at ==> out[base + i] == text[i])
  }

  lemma Assoc<T>(a: seq<T>, b: seq<T>, c: seq<T>)
    ensures a + b + c == a + (b + c)
  {
  }
}
