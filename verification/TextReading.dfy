/** Reading printed text again: fields between separators, decimal numbers with a sign, addresses. */
module TextReading {
  import opened Bytes
  import opened Decimal

  /** The fields of a text, with a separator between neighbours. */
  function Fields(s: seq<byte>, sep: byte): (fields: seq<seq<byte>>)
    ensures fields != []
  {
    if s == [] then [[]]
    else
      var more := Fields(s[1..], sep);
      if s[0] == sep then [[]] + more else [[s[0]] + more[0]] + more[1..]
  }

  lemma {:induction false} OneField(s: seq<byte>, sep: byte)
    requires sep !in s
    ensures Fields(s, sep) == [s]
  {
    if s != [] {
      OneField(s[1..], sep);
      assert [s[0]] + s[1..] == s;
    }
  }

  lemma {:induction false} FieldsJoin(a: seq<byte>, b: seq<byte>, sep: byte)
    ensures Fields(a + [sep] + b, sep) == Fields(a, sep) + Fields(b, sep)
  {
    var s := a + [sep] + b;
    if a == [] {
      assert s == [sep] + b && s[1..] == b;
    } else {
      var front := Fields(a[1..], sep);
      assert s[0] == a[0] && s[1..] == a[1..] + [sep] + b;
      FieldsJoin(a[1..], b, sep);
      if a[0] == sep {
        Assoc([[]], front, Fields(b, sep));
      } else {
        assert (front + Fields(b, sep))[1..] == front[1..] + Fields(b, sep);
        Assoc([[a[0]] + front[0]], front[1..], Fields(b, sep));
      }
    }
  }

  ghost predicate Digits(s: seq<byte>) {
    s != [] && forall i :: 0 <= i < |s| ==> 48 <= s[i] <= 57
  }

  /** The text is the decimal number n, with a minus sign in front if it is negative. */
  ghost predicate Denotes(s: seq<byte>, n: int) {
    if n >= 0 then Digits(s) && Value(s) == n
    else s != [] && s[0] == 45 && Digits(s[1..]) && Value(s[1..]) == -n
  }

  lemma NumberDenotes(n: int)
    ensures Denotes(DecSigned(n), n)
    ensures n >= 0 ==> Denotes(Dec(n), n)
  {
    DecReadsBack(if n < 0 then -n else n);
    if n < 0 {
      assert DecSigned(n)[1..] == Dec(-n);
    }
  }

  /** The digits of a value, most significant first: reading is what one expects. */
  lemma ValueOf(s: seq<byte>)
    requires Digits(s)
    ensures |s| == 1 ==> Value(s) == s[0] - 48
    ensures |s| == 2 ==> Value(s) == 10 * (s[0] - 48) + (s[1] - 48)
    ensures |s| > 1 ==> Value(s) == 10 * Value(s[..|s| - 1]) + (s[|s| - 1] - 48)
  {
    if |s| == 2 {
      assert Value(s[..1]) == 10 * Value(s[..1][..0]) + (s[0] - 48);
    }
  }

  /** Octets in decimal, one behind the other, with dots between them. */
  ghost predicate DenotesOctets(s: seq<byte>, a: seq<byte>) {
    var fields := Fields(s, 46);
    |fields| == |a| && forall i :: 0 <= i < |a| ==> Denotes(fields[i], a[i])
  }

  lemma {:induction false} QuadDenotes(a: seq<byte>)
    requires a != []
    ensures DenotesOctets(DottedQuad(a), a)
  {
    NumberDenotes(a[0]);
    OneField(Dec(a[0]), 46);
    if |a| > 1 {
      QuadDenotes(a[1..]);
      FieldsJoin(Dec(a[0]), DottedQuad(a[1..]), 46);
      OneMoreOctet(Dec(a[0]), Fields(DottedQuad(a[1..]), 46), a);
    }
  }

  lemma OneMoreOctet(first: seq<byte>, rest: seq<seq<byte>>, a: seq<byte>)
    requires a != [] && |rest| == |a| - 1 && Denotes(first, a[0])
    requires forall i :: 0 <= i < |rest| ==> Denotes(rest[i], a[1..][i])
    ensures forall i :: 0 <= i < |a| ==> Denotes(([first] + rest)[i], a[i])
  {
    forall i | 0 < i < |a| ensures Denotes(([first] + rest)[i], a[i]) {
      assert Denotes(rest[i - 1], a[1..][i - 1]);
    }
  }

  /** Printed numbers and addresses use digits, signs and dots only. */
  lemma {:induction false} QuadIsPlain(a: seq<byte>)
    ensures SPACE !in DottedQuad(a) && 47 !in DottedQuad(a)
  {
    if |a| > 1 {
      QuadIsPlain(a[1..]);
    }
  }
}
