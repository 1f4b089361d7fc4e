/** The Internet checksum.

    checksum.c and checksum.h are not part of this model. `Checksum16` below is
    an ASSUMED definition of their `checksum16`: the algorithm of section 1 of
    RFC 1071 over big-endian 16-bit words, an odd trailing byte padded with a
    zero low byte, carries folded back in, and the 16-bit result complemented.
    Nothing more is claimed about the original routine's byte order or its
    handling of odd lengths. */
module Checksum {
  import opened Bytes

  /** Sum of the big-endian 16-bit words of `s`, without any folding. */
  function WordSum(s: seq<byte>): nat
    decreases |s|
  {
    if |s| == 0 then 0
    else if |s| == 1 then s[0] * 0x100
    else s[0] * 0x100 + s[1] + WordSum(s[2..])
  }

  /** One folding step strictly shrinks any value that does not fit in 16 bits. */
  lemma FoldStepShrinks(n: nat)
    requires n >= 0x1_0000
    ensures n % 0x1_0000 + n / 0x1_0000 < n
  {
  }

  /** End-around carry folding: `while (sum >> 16) sum = (sum & 0xFFFF) + (sum >> 16);`.
      The result is the one's-complement representative of `n`: at most 0xFFFF,
      congruent to `n` modulo 0xFFFF, and zero only when `n` is. */
  function Fold(n: nat): (r: nat)
    ensures r <= 0xFFFF
    ensures r % 0xFFFF == n % 0xFFFF
    ensures r == 0 <==> n == 0
    decreases n
  {
    if n < 0x1_0000 then n
    else
      FoldStepShrinks(n);
      FoldStepResidue(n);
      Fold(n % 0x1_0000 + n / 0x1_0000)
  }

  /** Since 0x10000 is 1 modulo 0xFFFF, a folding step keeps the residue. */
  lemma FoldStepResidue(n: nat)
    ensures (n % 0x1_0000 + n / 0x1_0000) % 0xFFFF == n % 0xFFFF
  {
    var q, r := n / 0x1_0000, n % 0x1_0000;
    assert n == q * 0xFFFF + (q + r);
  }

  /** ASSUMED definition of checksum16 (RFC 1071, section 1). */
  function Checksum16(s: seq<byte>): (c: u16)
  {
    0xFFFF - Fold(WordSum(s))
  }

  /** Two non-zero values in 1..0xFFFF with the same residue modulo 0xFFFF are equal. */
  lemma SameResidueInRange(x: int, y: int)
    requires 1 <= x <= 0xFFFF && 1 <= y <= 0xFFFF
    requires x % 0xFFFF == y % 0xFFFF
    ensures x == y
  {
    if x == 0xFFFF || y == 0xFFFF {
      assert x % 0xFFFF == 0 && y % 0xFFFF == 0;
    }
  }

  /** Fold(n) is the only value in 1..0xFFFF congruent to a non-zero `n`. */
  lemma FoldUnique(n: nat, r: int)
    requires n > 0
    requires 1 <= r <= 0xFFFF
    requires r % 0xFFFF == n % 0xFFFF
    ensures Fold(n) == r
  {
    SameResidueInRange(Fold(n), r);
  }

  /** Deferred carries (RFC 1071, section 2): folding partial sums first and
      folding their sum again gives the same result as folding the total. */
  lemma FoldOfFolds(x: nat, y: nat)
    ensures Fold(Fold(x) + Fold(y)) == Fold(x + y)
  {
    if x + y > 0 {
      var fx, fy := Fold(x), Fold(y);
      assert (fx + fy) % 0xFFFF == (x + y) % 0xFFFF by {
        assert fx % 0xFFFF == x % 0xFFFF && fy % 0xFFFF == y % 0xFFFF;
        ModAdd(fx, fy, x, y);
      }
      FoldUnique(fx + fy, Fold(x + y));
    }
  }

  /** Residues modulo 0xFFFF add. */
  lemma ModAdd(a: nat, b: nat, c: nat, d: nat)
    requires a % 0xFFFF == c % 0xFFFF && b % 0xFFFF == d % 0xFFFF
    ensures (a + b) % 0xFFFF == (c + d) % 0xFFFF
  {
    var m := 0xFFFF;
    assert a == (a / m) * m + a % m && b == (b / m) * m + b % m;
    assert c == (c / m) * m + c % m && d == (d / m) * m + d % m;
    assert a + b == (a / m + b / m) * m + (a % m + b % m);
    assert c + d == (c / m + d / m) * m + (c % m + d % m);
    ModMultipleAdd(a / m + b / m, a % m + b % m);
    ModMultipleAdd(c / m + d / m, c % m + d % m);
  }

  /** Adding a multiple of 0xFFFF does not change the residue. */
  lemma ModMultipleAdd(k: nat, r: nat)
    ensures (k * 0xFFFF + r) % 0xFFFF == r % 0xFFFF
  {
    var m := 0xFFFF;
    var q, s := r / m, r % m;
    assert k * m + r == (k + q) * m + s;
  }

  /** The word sum of a concatenation whose first part has even length is
      the sum of the parts' word sums. */
  lemma {:induction false} WordSumAppend(a: seq<byte>, b: seq<byte>)
    requires |a| % 2 == 0
    ensures WordSum(a + b) == WordSum(a) + WordSum(b)
    decreases |a|
  {
    if |a| == 0 {
      assert a + b == b;
    } else {
      assert (a + b)[2..] == a[2..] + b;
      WordSumAppend(a[2..], b);
    }
  }

  /** Composability of the checksum (RFC 1071, section 2): the checksum of
      `a + b` is obtained from the two partial one's-complement sums
      (the complements of the parts' checksums), added and folded again. */
  lemma ChecksumConcat(a: seq<byte>, b: seq<byte>)
    requires |a| % 2 == 0
    ensures Checksum16(a + b) == 0xFFFF - Fold((0xFFFF - Checksum16(a)) + (0xFFFF - Checksum16(b)))
  {
    WordSumAppend(a, b);
    FoldOfFolds(WordSum(a), WordSum(b));
  }

  /** Writing a value into a zero 16-bit word at an even offset adds the
      value to the word sum. */
  lemma {:induction false} WordSumPut(s: seq<byte>, k: nat, c: u16)
    requires k % 2 == 0 && k + 2 <= |s|
    requires s[k] == 0 && s[k + 1] == 0
    ensures WordSum(s[..k] + BE16(c) + s[k + 2..]) == WordSum(s) + c
    decreases k
  {
    if k == 0 {
      assert (s[..k] + BE16(c) + s[k + 2..])[2..] == s[2..];
    } else {
      var t := s[..k] + BE16(c) + s[k + 2..];
      WordSumPut(s[2..], k - 2, c);
      assert t[2..] == s[2..][..k - 2] + BE16(c) + s[2..][k..];
    }
  }

  /** Self-check (RFC 1071, section 1): once the checksum, computed while its
      field was zero, is stored in that field, the folded sum of the whole
      range is all ones, so that a receiver recomputing checksum16 gets zero. */
  lemma ChecksumVerifies(s: seq<byte>, k: nat)
    requires k % 2 == 0 && k + 2 <= |s|
    requires s[k] == 0 && s[k + 1] == 0
    ensures Fold(WordSum(s[..k] + BE16(Checksum16(s)) + s[k + 2..])) == 0xFFFF
    ensures Checksum16(s[..k] + BE16(Checksum16(s)) + s[k + 2..]) == 0
  {
    var n := WordSum(s);
    var c := Checksum16(s);
    WordSumPut(s, k, c);
    var f := Fold(n);
    assert n + c == n + 0xFFFF - f;
    assert (n + c) % 0xFFFF == 0 by {
      ModAdd(f, 0xFFFF - f, n, 0xFFFF - f);
    }
    FoldUnique(n + c, 0xFFFF);
  }
}
