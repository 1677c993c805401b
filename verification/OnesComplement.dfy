/**
 * One's-complement arithmetic on 16-bit words (RFC 1071, sections 1 and 2): the reference the
 * checksum routines are measured against.
 */
module OnesComplement {
  import opened Machine

  /** End-around-carry addition. */
  function OnesAdd(a: u16, b: u16): (r: u16)
  {
    if a + b < 0x1_0000 then a + b else a + b - 0xFFFF
  }

  /** The word-by-word one's-complement sum of a byte string, zero-padded to whole words. */
  function OnesSum(s: seq<byte>): (r: u16)
  {
    if |s| == 0 then 0
    else if |s| == 1 then Word(s[0], 0)
    else OnesAdd(Word(s[0], s[1]), OnesSum(s[2..]))
  }

  function RfcChecksum(s: seq<byte>): (r: u16)
  {
    0xFFFF - OnesSum(s)
  }

  /** The same words added as plain integers: what a wide accumulator holds. */
  function WordSum(s: seq<byte>): (r: nat)
  {
    if |s| == 0 then 0
    else if |s| == 1 then Word(s[0], 0)
    else Word(s[0], s[1]) + WordSum(s[2..])
  }

  /** Repeatedly adding the carries above bit 15 back in. */
  function Fold(n: nat): (r: u16)
  {
    if n < 0x1_0000 then n else Fold(n % 0x1_0000 + n / 0x1_0000)
  }

  /** Folding takes off a multiple of 65535, and reaches zero only from zero. */
  lemma {:induction false} FoldForm(n: nat) returns (q: int)
    ensures n == Fold(n) + 0xFFFF * q
    ensures Fold(n) == 0 <==> n == 0
    decreases n
  {
    if n < 0x1_0000 {
      q := 0;
    } else {
      var carries := n / 0x1_0000;
      var inner := FoldForm(n % 0x1_0000 + carries);
      q := inner + carries;
    }
  }

  /** The value between 1 and 65535, or zero, that differs from a sum by a multiple of 65535. */
  lemma FoldIs(n: nat, f: u16, q: int)
    requires n == f + 0xFFFF * q && (f == 0 <==> n == 0)
    ensures Fold(n) == f
  {
    var p := FoldForm(n);
    assert f - Fold(n) == 0xFFFF * (p - q);
  }

  /** Two sums with the same fold differ by a multiple of 65535. */
  lemma SameFold(a: nat, b: nat) returns (k: int)
    requires Fold(a) == Fold(b)
    ensures a - b == 0xFFFF * k
  {
    var p := FoldForm(a);
    var q := FoldForm(b);
    k := p - q;
  }

  lemma FoldAdds(w: u16, n: nat)
    ensures Fold(w + n) == OnesAdd(w, Fold(n))
  {
    var q := FoldForm(n);
    FoldIs(w + n, OnesAdd(w, Fold(n)), if w + Fold(n) < 0x1_0000 then q else q + 1);
  }

  /** Deferring every carry to the end gives the word-by-word end-around-carry sum. */
  lemma {:induction false} DeferredCarries(s: seq<byte>)
    ensures Fold(WordSum(s)) == OnesSum(s)
  {
    if |s| >= 2 {
      DeferredCarries(s[2..]);
      FoldAdds(Word(s[0], s[1]), WordSum(s[2..]));
    }
  }

  lemma {:induction false} WordSumConcat(s: seq<byte>, t: seq<byte>)
    requires |s| % 2 == 0
    ensures WordSum(s + t) == WordSum(s) + WordSum(t)
  {
    if |s| == 0 {
      assert s + t == t;
    } else {
      WordSumConcat(s[2..], t);
      assert (s + t)[2..] == s[2..] + t;
    }
  }

  /** Cut anywhere: after an odd first part the second begins in the low half of a word. */
  lemma WordSumSplit(s: seq<byte>, k: nat)
    requires k <= |s|
    ensures WordSum(s) == WordSum(s[..k]) + WordSum(if k % 2 == 0 then s[k..] else [0] + s[k..])
  {
    if k % 2 == 0 {
      assert s == s[..k] + s[k..];
      WordSumConcat(s[..k], s[k..]);
    } else {
      assert s == s[..k - 1] + s[k - 1..];
      assert s[..k] == s[..k - 1] + [s[k - 1]];
      WordSumConcat(s[..k - 1], s[k - 1..]);
      WordSumConcat(s[..k - 1], [s[k - 1]]);
      LowHalf(s[k - 1], s[k..]);
      assert s[k - 1..] == [s[k - 1]] + s[k..];
    }
  }

  lemma LowHalf(a: byte, s: seq<byte>)
    ensures WordSum([a] + s) == Word(a, 0) + WordSum([0] + s)
  {
    if s != [] {
      assert ([a] + s)[2..] == s[1..] && ([0] + s)[2..] == s[1..];
    }
  }

  lemma {:induction false} WordSumOfZeros(s: seq<byte>)
    requires forall i :: 0 <= i < |s| ==> s[i] == 0
    ensures WordSum(s) == 0
  {
    if |s| >= 2 {
      WordSumOfZeros(s[2..]);
    }
  }

  lemma {:induction false} WordSumBound(s: seq<byte>)
    ensures WordSum(s) <= 0xFFFF * ((|s| + 1) / 2)
  {
    if |s| >= 2 {
      WordSumBound(s[2..]);
    }
  }
}
