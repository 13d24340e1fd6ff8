/**
 * The byte-range half of the block-index key shortening: given the last row
 * (family, qualifier) of one block and the first of the next, find the
 * shortest byte string that sorts after the first and no later than the second.
 */
module Midpoint {
  import opened Bytes

  /** What getMinimumMidpointArray does: throw, return null, or return a new array. */
  datatype MidpointOutcome =
    | LeftSortsAfter      // IllegalArgumentException: left sorts after right
    | Same                // null: the two ranges are byte-identical
    | Between(mid: Bytes) // the shortened separator

  /**
   * The result of the comparison loop, as the source computes it. In the prefix
   * case the source copies |left| + 1 bytes of right and then overwrites the last
   * of them with 0x00; in the other case it copies left up to the first
   * difference and adds one to that byte with Java's wrapping byte cast.
   */
  function MinimumMidpoint(left: Bytes, right: Bytes): MidpointOutcome {
    var d := CommonPrefixLength(left, right);
    if d == |left| && d == |right| then Same
    else if d == |right| then LeftSortsAfter
    else if d == |left| then Between(right[..d] + [0])
    else if left[d] > right[d] then LeftSortsAfter
    else Between(left[..d] + [(left[d] + 1) % 256])
  }

  /**
   * getMinimumMidpointArray: scan while the bytes agree, then decide. The
   * method stops at the first difference, where it throws if left's byte is
   * larger, exactly as the for loop of the source does.
   */
  method GetMinimumMidpointArray(left: Bytes, right: Bytes) returns (r: MidpointOutcome)
    ensures r == MinimumMidpoint(left, right)
    ensures r.Same? <==> left == right
    ensures r.LeftSortsAfter? <==> Compare(left, right) > 0
    ensures r.Between? ==> Less(left, r.mid) && LessEq(r.mid, right)
  {
    var minLength := if |left| < |right| then |left| else |right|;
    var diffIdx := 0;
    while diffIdx < minLength
      invariant 0 <= diffIdx <= minLength
      invariant left[..diffIdx] == right[..diffIdx]
    {
      if left[diffIdx] > right[diffIdx] {
        PrefixIsCommon(left, right, diffIdx);
        r := LeftSortsAfter;
        MidpointSameIff(left, right);
        MidpointLeftSortsAfterIff(left, right);
        return;
      } else if left[diffIdx] != right[diffIdx] {
        break;
      }
      assert left[..diffIdx + 1] == left[..diffIdx] + [left[diffIdx]];
      assert right[..diffIdx + 1] == right[..diffIdx] + [right[diffIdx]];
      diffIdx := diffIdx + 1;
    }
    PrefixIsCommon(left, right, diffIdx);
    if diffIdx == minLength {
      if |left| > |right| {
        r := LeftSortsAfter;
      } else if |left| < |right| {
        r := Between(right[..minLength] + [0]);
      } else {
        r := Same;
      }
    } else {
      var bumped := (left[diffIdx] + 1) % 256;
      r := Between(left[..diffIdx] + [bumped]);
    }
    MidpointSameIff(left, right);
    MidpointLeftSortsAfterIff(left, right);
    if r.Between? {
      MidpointBetween(left, right);
    }
  }

  /** Where the loop stops is the common prefix length. */
  lemma PrefixIsCommon(left: Bytes, right: Bytes, i: nat)
    requires i <= |left| && i <= |right|
    requires left[..i] == right[..i]
    requires i == |left| || i == |right| || left[i] != right[i]
    ensures CommonPrefixLength(left, right) == i
  {
  }

  /** The midpoint is "no separator" exactly when the two ranges are identical. */
  lemma MidpointSameIff(left: Bytes, right: Bytes)
    ensures MinimumMidpoint(left, right).Same? <==> left == right
  {
    var d := CommonPrefixLength(left, right);
    if d == |left| && d == |right| {
      assert left == left[..d] && right == right[..d];
    }
  }

  /**
   * The source throws exactly when left sorts after right: a larger byte at the
   * first difference, or right a proper prefix of left.
   */
  lemma MidpointLeftSortsAfterIff(left: Bytes, right: Bytes)
    ensures MinimumMidpoint(left, right).LeftSortsAfter? <==> Compare(left, right) > 0
  {
    CompareAtFirstDifference(left, right);
  }

  /** The separator sorts strictly after left and no later than right. */
  lemma MidpointBetween(left: Bytes, right: Bytes)
    requires MinimumMidpoint(left, right).Between?
    ensures Less(left, MinimumMidpoint(left, right).mid)
    ensures LessEq(MinimumMidpoint(left, right).mid, right)
  {
    var d := CommonPrefixLength(left, right);
    MidpointShape(left, right);
    if d == |left| {
      assert right == left + right[d..];
      ZeroExtensionBetween(left, right[d..]);
    } else {
      var p := left[..d];
      assert left == p + left[d..];
      assert right == p + right[d..];
      BumpedByteBetween(p, left[d..], right[d..]);
    }
  }

  /** left followed by 0x00 sorts after left and no later than any longer string that starts with left. */
  lemma ZeroExtensionBetween(left: Bytes, tail: Bytes)
    requires tail != []
    ensures Less(left, left + [0]) && LessEq(left + [0], left + tail)
  {
    assert left + [] == left;
    CompareAfterCommonPrefix(left, [], [0]);
    CompareAfterCommonPrefix(left, [0], tail);
    if tail[0] == 0 {
      assert [0 as Byte][1..] == [];
      EmptyIsLeast(tail[1..]);
    }
  }

  /**
   * After a shared prefix, the first byte of a raised by one sorts after a
   * and no later than b, when that byte is still no larger than b's first.
   */
  lemma BumpedByteBetween(p: Bytes, a: Bytes, b: Bytes)
    requires a != [] && b != [] && a[0] < b[0]
    ensures Less(p + a, p + [a[0] + 1]) && LessEq(p + [a[0] + 1], p + b)
  {
    CompareAfterCommonPrefix(p, a, [a[0] + 1]);
    CompareAfterCommonPrefix(p, [a[0] + 1], b);
    if a[0] + 1 == b[0] {
      assert [a[0] + 1][1..] == [];
      EmptyIsLeast(b[1..]);
    }
  }

  /**
   * The two shapes of the separator. When left is a proper prefix of right the
   * result is left followed by one zero byte; otherwise it is left cut just after
   * the first difference, with that byte raised by one, which never wraps past
   * 0xff because left's byte is below right's there.
   */
  lemma MidpointShape(left: Bytes, right: Bytes)
    requires MinimumMidpoint(left, right).Between?
    ensures var d := CommonPrefixLength(left, right);
      && d < |right|
      && (d == |left| ==> MinimumMidpoint(left, right).mid == left + [0])
      && (d < |left| ==>
            && left[d] + 1 <= right[d]
            && MinimumMidpoint(left, right).mid == left[..d] + [left[d] + 1])
  {
    var d := CommonPrefixLength(left, right);
    if d == |left| {
      assert left == left[..d];
      assert MinimumMidpoint(left, right) == Between(right[..d] + [0]);
    } else {
      assert d < |right| && left[d] < right[d];
      assert MinimumMidpoint(left, right) == Between(left[..d] + [(left[d] + 1) % 256]);
    }
  }

  /**
   * No separator is shorter: every byte string that sorts after left and no
   * later than right is at least as long as the one the source returns.
   */
  lemma MidpointIsShortest(left: Bytes, right: Bytes, s: Bytes)
    requires MinimumMidpoint(left, right).Between?
    requires Less(left, s) && LessEq(s, right)
    ensures |MinimumMidpoint(left, right).mid| <= |s|
  {
    var d := CommonPrefixLength(left, right);
    MidpointShape(left, right);
    if |s| <= d {
      ShortStringIsNotBetween(left, right, s, d);
    }
  }

  /**
   * A string no longer than a prefix that left and right share cannot sort
   * strictly after left and no later than right.
   */
  lemma {:induction false} ShortStringIsNotBetween(left: Bytes, right: Bytes, s: Bytes, d: nat)
    requires d <= |left| && d <= |right| && left[..d] == right[..d]
    requires |s| <= d
    ensures !(Less(left, s) && LessEq(s, right))
  {
    if s != [] {
      assert left[0] == left[..d][0] == right[..d][0] == right[0];
      if s[0] == left[0] {
        assert left[1..][..d - 1] == left[..d][1..];
        assert right[1..][..d - 1] == right[..d][1..];
        ShortStringIsNotBetween(left[1..], right[1..], s[1..], d - 1);
      }
    }
  }

  /** For byte-identical ranges the source reports that no separator exists. */
  lemma IdenticalRangesHaveNoMidpoint(x: Bytes)
    ensures MinimumMidpoint(x, x) == Same
  {
    MidpointSameIff(x, x);
  }

  /** "apple" and "banana" are separated by "b" alone. */
  lemma ExampleDifferentFirstByte()
    ensures MinimumMidpoint([0x61, 0x70, 0x70, 0x6c, 0x65], [0x62, 0x61, 0x6e, 0x61, 0x6e, 0x61])
      == Between([0x62])
  {
    PrefixIsCommon([0x61, 0x70, 0x70, 0x6c, 0x65], [0x62, 0x61, 0x6e, 0x61, 0x6e, 0x61], 0);
  }

  /** "prefix" and "prefixAndMore" are separated by "prefix" followed by 0x00. */
  lemma ExamplePrefix()
    ensures MinimumMidpoint([0x70, 0x72, 0x65, 0x66, 0x69, 0x78],
                            [0x70, 0x72, 0x65, 0x66, 0x69, 0x78, 0x41, 0x6e, 0x64, 0x4d, 0x6f, 0x72, 0x65])
      == Between([0x70, 0x72, 0x65, 0x66, 0x69, 0x78, 0x00])
  {
    var l: Bytes := [0x70, 0x72, 0x65, 0x66, 0x69, 0x78];
    var r: Bytes := [0x70, 0x72, 0x65, 0x66, 0x69, 0x78, 0x41, 0x6e, 0x64, 0x4d, 0x6f, 0x72, 0x65];
    assert r[..6] == l;
    PrefixIsCommon(l, r, 6);
  }
}
