/**
 * Byte strings and the unsigned lexicographic order that HBase's raw byte
 * comparator imposes on them (every byte is read as a value 0..255).
 */
module Bytes {

  /** One byte, read unsigned (the source masks every byte with 0xff before comparing). */
  type Byte = b: int | 0 <= b < 256

  type Bytes = seq<Byte>

  /**
   * Unsigned lexicographic comparison: negative when a sorts first, zero when the
   * two are identical, positive when b sorts first. A proper prefix sorts first.
   */
  function Compare(a: Bytes, b: Bytes): (r: int)
    ensures -1 <= r <= 1
    ensures r == 0 <==> a == b
  {
    if a == [] then (if b == [] then 0 else -1)
    else if b == [] then 1
    else if a[0] < b[0] then -1
    else if a[0] > b[0] then 1
    else
      var r := Compare(a[1..], b[1..]);
      assert r == 0 ==> a == [a[0]] + a[1..] && b == [b[0]] + b[1..];
      r
  }

  predicate Less(a: Bytes, b: Bytes) {
    Compare(a, b) < 0
  }

  predicate LessEq(a: Bytes, b: Bytes) {
    Compare(a, b) <= 0
  }

  /** Length of the longest common prefix of a and b. */
  function CommonPrefixLength(a: Bytes, b: Bytes): (d: nat)
    ensures d <= |a| && d <= |b|
    ensures a[..d] == b[..d]
    ensures d < |a| && d < |b| ==> a[d] != b[d]
  {
    if a == [] || b == [] || a[0] != b[0] then 0
    else
      var d := 1 + CommonPrefixLength(a[1..], b[1..]);
      assert a[..d] == [a[0]] + a[1..][..d - 1];
      assert b[..d] == [b[0]] + b[1..][..d - 1];
      d
  }

  /** Swapping the arguments negates the comparison. */
  lemma {:induction false} CompareAntisymmetric(a: Bytes, b: Bytes)
    ensures Compare(a, b) == -Compare(b, a)
  {
    if a != [] && b != [] && a[0] == b[0] {
      CompareAntisymmetric(a[1..], b[1..]);
    }
  }

  /** The order is transitive, and strict as soon as one of the two steps is strict. */
  lemma {:induction false} CompareTransitive(a: Bytes, b: Bytes, c: Bytes)
    requires Compare(a, b) <= 0 && Compare(b, c) <= 0
    ensures Compare(a, c) <= 0
    ensures Compare(a, b) < 0 || Compare(b, c) < 0 ==> Compare(a, c) < 0
  {
    if a != [] && b != [] && c != [] && a[0] == b[0] == c[0] {
      CompareTransitive(a[1..], b[1..], c[1..]);
    }
  }

  /**
   * The comparison is decided at the first position where the two strings
   * differ, or by their lengths when one is a prefix of the other.
   */
  lemma {:induction false} CompareAtFirstDifference(a: Bytes, b: Bytes)
    ensures var d := CommonPrefixLength(a, b);
      Compare(a, b) ==
        if d == |a| && d == |b| then 0
        else if d == |a| then -1
        else if d == |b| then 1
        else if a[d] < b[d] then -1
        else 1
  {
    if a != [] && b != [] && a[0] == b[0] {
      CompareAtFirstDifference(a[1..], b[1..]);
    }
  }

  /** A shared prefix does not change the comparison. */
  lemma {:induction false} CompareAfterCommonPrefix(p: Bytes, a: Bytes, b: Bytes)
    ensures Compare(p + a, p + b) == Compare(a, b)
  {
    if p != [] {
      assert (p + a)[1..] == p[1..] + a;
      assert (p + b)[1..] == p[1..] + b;
      CompareAfterCommonPrefix(p[1..], a, b);
    } else {
      assert p + a == a && p + b == b;
    }
  }

  /** The empty string sorts first. */
  lemma EmptyIsLeast(a: Bytes)
    ensures Compare([], a) <= 0
  {
  }
}
