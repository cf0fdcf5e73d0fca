/**
 The Internet checksum of RFC 1071 as the offload code computes it: 16-bit words added into a
 wrapping `u32`, folded, complemented.
 */
module Checksum {
  import opened Bytes

  const ONES := 0xFFFF

  /** Sum of the big-endian words of `s`, an odd last byte padded with zero, with no width limit. */
  function WordSum(s: seq<byte>): nat {
    if |s| == 0 then 0
    else if |s| == 1 then Word(s[0], 0)
    else U16At(s, 0) + WordSum(s[2..])
  }

  /** RFC 1071, section 1: pairs of bytes form words, high byte first, and an odd byte is padded with zero. */
  lemma WordSumMeans(s: seq<byte>)
    ensures s == [] ==> WordSum(s) == 0
    ensures |s| >= 2 ==> WordSum(s) == 256 * (s[0] as int) + s[1] + WordSum(s[2..])
    ensures |s| % 2 == 1 ==> WordSum(s) == WordSum(s + [0])
  {
    if |s| % 2 == 1 {
      WordSumPads(s);
    }
  }

  lemma {:induction false} WordSumPads(s: seq<byte>)
    requires |s| % 2 == 1
    ensures WordSum(s) == WordSum(s + [0])
  {
    var padded := s + [0];
    if |s| == 1 {
      assert padded[2..] == [];
    } else {
      WordSumPads(s[2..]);
      assert padded[2..] == s[2..] + [0];
      assert U16At(padded, 0) == U16At(s, 0);
    }
  }

  /** The one representative in 0..0xFFFF of `sum` in ones'-complement arithmetic; zero only for zero. */
  function Folded(sum: nat): (r: nat)
    ensures r < U16_LIMIT
  {
    if sum == 0 then 0 else if sum % ONES == 0 then ONES else sum % ONES
  }

  function Finalized(sum: nat): (r: nat)
    ensures r < U16_LIMIT
  {
    ONES - Folded(sum)
  }

  function Wrap32(sum: nat): (r: nat)
    ensures r < U32_LIMIT
  {
    sum % U32_LIMIT
  }

  // ---- The loops -------------------------------------------------------------------------------

  method AddBytes(start: nat, bytes: seq<byte>) returns (sum: nat)
    requires start < U32_LIMIT
    ensures sum == Wrap32(start + WordSum(bytes))
  {
    sum := start;
    var i := 0;
    while i + 2 <= |bytes|
      invariant 0 <= i <= |bytes| && 0 <= sum < U32_LIMIT
      invariant Wrap32(sum + WordSum(bytes[i..])) == Wrap32(start + WordSum(bytes))
    {
      assert bytes[i..][2..] == bytes[i + 2..];
      var word := U16At(bytes, i);
      WrapAbsorbs(sum + word, WordSum(bytes[i + 2..]));
      sum := Wrap32(sum + word);
      i := i + 2;
    }
    if i < |bytes| {
      sum := Wrap32(sum + Word(bytes[i], 0));
    }
  }

  method FoldChecksum(start: nat) returns (r: nat)
    requires start < U32_LIMIT
    ensures r == Folded(start)
  {
    var sum := start;
    while sum / U16_LIMIT != 0
      invariant 0 <= sum < U32_LIMIT
      invariant Folded(sum) == Folded(start)
      decreases sum
    {
      FoldStep(sum);
      sum := sum % U16_LIMIT + sum / U16_LIMIT;
    }
    r := sum;
  }

  lemma WrapSmall(a: nat)
    requires a < U32_LIMIT
    ensures Wrap32(a) == a
  {
  }

  /** A sum over at most 64 KiB, plus a pseudo-header, loses no carry to `wrapping_add`. */
  lemma NoCarryLost(start: nat, s: seq<byte>)
    requires start < 0x4000_0000 && |s| <= 0x1_0100
    ensures Wrap32(start + WordSum(s)) == start + WordSum(s)
  {
    WordSumBound(s);
  }

  lemma WrapAbsorbs(a: nat, b: nat)
    ensures Wrap32(Wrap32(a) + b) == Wrap32(a + b)
  {
  }

  lemma FoldStep(sum: nat)
    requires sum / U16_LIMIT != 0
    ensures Folded(sum % U16_LIMIT + sum / U16_LIMIT) == Folded(sum)
  {
    var hi, lo := sum / U16_LIMIT, sum % U16_LIMIT;
    assert sum == lo + hi + hi * ONES;
    AddMultiple(lo + hi, hi);
  }

  lemma {:induction false} AddMultiple(x: nat, k: nat)
    ensures (x + k * ONES) % ONES == x % ONES
  {
    if k > 0 {
      AddMultiple(x, k - 1);
      assert x + k * ONES == (x + (k - 1) * ONES) + ONES;
    }
  }

  // ---- What folding keeps ----------------------------------------------------------------------

  /** Folding keeps exactly the residue mod 0xFFFF and whether the sum was zero. */
  lemma FoldedEquality(x: nat, y: nat)
    ensures Folded(x) == Folded(y) <==> x % ONES == y % ONES && (x == 0 <==> y == 0)
    ensures Folded(x) % ONES == x % ONES
    ensures Folded(x) == 0 <==> x == 0
  {
  }

  lemma FoldedQuotient(sum: nat) returns (k: nat)
    requires sum > 0
    ensures sum == Folded(sum) + k * ONES
  {
    k := if sum % ONES == 0 then sum / ONES - 1 else sum / ONES;
  }

  /** Adding a folded sum is as good as adding the sum itself. */
  lemma FoldedAdds(rest: nat, sum: nat)
    ensures Folded(rest + Folded(sum)) == Folded(rest + sum)
  {
    if sum > 0 {
      var k := FoldedQuotient(sum);
      AddMultiple(rest + Folded(sum), k);
    }
  }

  /** A sum that absorbed its own complement folds to all ones: the receiver's check passes. */
  lemma Verifies(sum: nat)
    ensures Folded(sum + Finalized(sum)) == ONES
  {
    if sum > 0 {
      var k := FoldedQuotient(sum);
      AddMultiple(ONES, k);
    }
  }

  /** The bound that keeps every sum below the `u32` limit: at most 0x8000 per byte, rounded up. */
  lemma {:induction false} WordSumBound(s: seq<byte>)
    ensures WordSum(s) <= 0x8000 * (|s| + 1)
  {
    if |s| >= 2 {
      WordSumBound(s[2..]);
    }
  }

  // ---- Word sums under a field store -----------------------------------------------------------

  lemma {:induction false} WordSumSplit(s: seq<byte>, i: nat)
    requires i <= |s| && i % 2 == 0
    ensures WordSum(s) == WordSum(s[..i]) + WordSum(s[i..])
  {
    if i == 0 {
      assert s[0..] == s;
    } else {
      WordSumSplit(s[2..], i - 2);
      assert s[..i][2..] == s[2..][..i - 2];
      assert s[2..][i - 2..] == s[i..];
    }
  }

  lemma WordSumAppend(a: seq<byte>, b: seq<byte>)
    requires |a| % 2 == 0
    ensures WordSum(a + b) == WordSum(a) + WordSum(b)
  {
    hide WordSum;
    WordSumSplit(a + b, |a|);
    assert (a + b)[..|a|] == a && (a + b)[|a|..] == b;
  }

  /** Storing a word at an even offset trades the old word for the new one in the sum. */
  lemma {:induction false} WordSumStore(s: seq<byte>, i: nat, word: seq<byte>)
    requires i + 2 <= |s| && i % 2 == 0 && |word| == 2
    ensures WordSum(Splice(s, i, word)) + U16At(s, i) == WordSum(s) + U16At(word, 0)
  {
    var r := Splice(s, i, word);
    if i == 0 {
      assert r[2..] == s[2..];
    } else {
      WordSumStore(s[2..], i - 2, word);
      assert r[2..] == Splice(s[2..], i - 2, word);
      assert U16At(s[2..], i - 2) == U16At(s, i);
      assert U16At(r, 0) == U16At(s, 0);
    }
  }
}
