/**
 * The order that strcmp, strncmp and memcmp decide: lexicographic, byte by byte,
 * with bytes compared as signed chars. The unsigned order of section 7.21.4 of
 * ISO/IEC 9899:1999 is the same definition with the other ranking of bytes.
 */
module Orders {
  import opened Bytes

  function Rank(signed: bool, b: byte): int {
    if signed then Signed8(b) else b
  }

  /** -1, 0 or 1; a sequence that runs out first comes first. */
  function Order(signed: bool, a: seq<byte>, b: seq<byte>): (r: int)
    ensures r == -1 || r == 0 || r == 1
  {
    if a == [] || b == [] then (if a == b then 0 else if a == [] then -1 else 1)
    else if a[0] == b[0] then Order(signed, a[1..], b[1..])
    else if Rank(signed, a[0]) < Rank(signed, b[0]) then -1 else 1
  }

  /** a and b agree before k and differ at k. */
  predicate FirstDifference(a: seq<byte>, b: seq<byte>, k: nat) {
    k < |a| && k < |b| && a[k] != b[k] && forall i :: 0 <= i < k ==> a[i] == b[i]
  }

  lemma {:induction false} OrderAtDifference(signed: bool, a: seq<byte>, b: seq<byte>, k: nat)
    requires FirstDifference(a, b, k)
    ensures Order(signed, a, b) == if Rank(signed, a[k]) < Rank(signed, b[k]) then -1 else 1
    decreases k
  {
    if k == 0 {
    } else {
      OrderAtDifference(signed, a[1..], b[1..], k - 1);
    }
  }

  lemma {:induction false} OrderZeroIffEqual(signed: bool, a: seq<byte>, b: seq<byte>)
    ensures Order(signed, a, b) == 0 <==> a == b
    decreases |a|
  {
    if a == [] || b == [] || a[0] != b[0] {
    } else {
      OrderZeroIffEqual(signed, a[1..], b[1..]);
      assert a == [a[0]] + a[1..] && b == [b[0]] + b[1..];
    }
  }

  lemma {:induction false} OrderAntisymmetric(signed: bool, a: seq<byte>, b: seq<byte>)
    ensures Order(signed, b, a) == -Order(signed, a, b)
    decreases |a|
  {
    if a == [] || b == [] || a[0] != b[0] {
    } else {
      OrderAntisymmetric(signed, a[1..], b[1..]);
    }
  }

  lemma {:induction false} OrderTransitive(signed: bool, a: seq<byte>, b: seq<byte>, c: seq<byte>)
    requires Order(signed, a, b) <= 0 && Order(signed, b, c) <= 0
    ensures Order(signed, a, c) <= 0
    ensures Order(signed, a, b) < 0 || Order(signed, b, c) < 0 ==> Order(signed, a, c) < 0
    decreases |a|
  {
    if a == [] || b == [] || c == [] || !(a[0] == b[0] == c[0]) {
    } else {
      OrderTransitive(signed, a[1..], b[1..], c[1..]);
    }
  }

  /** Unequal sequences either differ somewhere or one is a proper prefix of the other. */
  lemma {:induction false} Unequal(a: seq<byte>, b: seq<byte>) returns (k: nat)
    ensures FirstDifference(a, b, k) || (k == |a| && a <= b) || (k == |b| && b <= a)
    decreases |a|
  {
    if a == [] || b == [] || a[0] != b[0] {
      k := 0;
    } else {
      k := Unequal(a[1..], b[1..]);
      k := k + 1;
      assert a == [a[0]] + a[1..] && b == [b[0]] + b[1..];
    }
  }

  /** The first difference pairs a 7-bit byte with an 8-bit one. */
  ghost predicate SplitsOnSign(a: seq<byte>, b: seq<byte>) {
    exists k: nat :: FirstDifference(a, b, k) && (a[k] < 128) != (b[k] < 128)
  }

  /** Exactly when the signed order is the order of section 7.21.4 of ISO/IEC 9899:1999. */
  lemma SignedIsUnsignedIff(a: seq<byte>, b: seq<byte>)
    ensures Order(true, a, b) == Order(false, a, b) <==> !SplitsOnSign(a, b)
  {
    var k := Unequal(a, b);
    if FirstDifference(a, b, k) {
      OrderAtDifference(true, a, b, k);
      OrderAtDifference(false, a, b, k);
    } else {
      PrefixOrder(true, a, b);
      PrefixOrder(false, a, b);
    }
  }

  lemma {:induction false} PrefixOrder(signed: bool, a: seq<byte>, b: seq<byte>)
    requires a <= b || b <= a
    ensures Order(signed, a, b) == if |a| < |b| then -1 else if |a| > |b| then 1 else 0
    decreases |a|
  {
    if a == [] || b == [] {
    } else {
      PrefixOrder(signed, a[1..], b[1..]);
    }
  }

  /** 7-bit data is ordered alike by both. */
  lemma SevenBitOrdersAgree(a: seq<byte>, b: seq<byte>)
    requires forall c :: c in a + b ==> c < 128
    ensures Order(true, a, b) == Order(false, a, b)
  {
    SignedIsUnsignedIff(a, b);
    forall k: nat | FirstDifference(a, b, k)
      ensures a[k] < 128 && b[k] < 128
    {
      assert a[k] in a + b by { assert (a + b)[k] == a[k]; }
      assert b[k] in a + b by { assert (a + b)[|a| + k] == b[k]; }
    }
  }

  /** The one-byte string "\377" sorts before "a" here, and even before the empty string. */
  lemma SignedOrderDeparts()
    ensures Order(true, [255, 0], [97, 0]) == -1 && Order(false, [255, 0], [97, 0]) == 1
    ensures Order(true, [255, 0], [0]) == -1 && Order(false, [255, 0], [0]) == 1
  {
  }
}
