/**
 * Brute-force candidate enumeration (`generate_passwords`, cracker.py lines 10-13)
 * and the closed-form candidate total printed as the progress denominator (line 95).
 *
 * For one length n, `itertools.product(chars, repeat=n)` is the sequence obtained
 * from `[()]` by n times extending every tuple, in order, by every character of
 * `chars`, in order: the last position varies fastest. `Product` is exactly that
 * construction; `Expand` is the independent, counting view of the same order (the
 * k-th tuple spells k in base |chars|); `Rank` reads a string back as that number.
 * Expanding a string's rank gives the string back for any `chars`; ranking the k-th
 * tuple gives k back only when `chars` has no repeated character.
 */
module Generator {
  import opened Sequences

  /** b to the power e on naturals; `0 ** 0 == 1`, as for Python integers. */
  function Pow(b: nat, e: nat): nat
  {
    if e == 0 then 1 else Pow(b, e - 1) * b
  }

  /** Every character of `s` is a character of `chars`. */
  predicate Over(chars: string, s: string)
  {
    forall i :: 0 <= i < |s| ==> s[i] in chars
  }

  // ---------------------------------------------------------------- arithmetic

  lemma MulMonotone(x: nat, y: nat, b: nat)
    requires x <= y
    ensures x * b <= y * b
  {
    if b > 0 {
      MulMonotone(x, y, b - 1);
      assert x * b == x * (b - 1) + x;
      assert y * b == y * (b - 1) + y;
    }
  }

  /** A two-digit number in base b is below p * b when its high digit is below p. */
  lemma DigitsBelow(q: nat, b: nat, r: nat, p: nat)
    requires r < b && q < p
    ensures q * b + r < p * b
  {
    MulMonotone(q + 1, p, b);
    assert (q + 1) * b == q * b + b;
  }

  /** The high digit of a number below p * b is below p. */
  lemma QuotientBelow(k: nat, b: nat, p: nat)
    requires k < p * b
    ensures b > 0 && k / b < p && k == (k / b) * b + k % b && k % b < b
  {
    if k / b >= p {
      MulMonotone(p, k / b, b);
    }
  }

  /** The quotient and remainder by a positive b are determined by any q, r with k == q * b + r, r < b. */
  lemma DivModUnique(k: nat, b: nat, q: nat, r: nat)
    requires r < b && k == q * b + r
    ensures k / b == q && k % b == r
  {
    var q', r' := k / b, k % b;
    assert k == q' * b + r';
    if q' < q {
      DigitsBelow(q', b, r', q);
    } else if q < q' {
      DigitsBelow(q, b, r, q');
    }
  }

  // ---------------------------------------------------------------- itertools.product

  /** One round of `itertools.product`: every prefix, in order, followed by every character, in order. */
  function Extend(prefixes: seq<string>, chars: string): (r: seq<string>)
    ensures |r| == |prefixes| * |chars|
  {
    if prefixes == [] then []
    else
      assert |prefixes| * |chars| == |chars| + (|prefixes| - 1) * |chars|;
      seq(|chars|, j requires 0 <= j < |chars| => prefixes[0] + [chars[j]]) + Extend(prefixes[1..], chars)
  }

  /** `itertools.product(chars, repeat=n)`, joined into strings (cracker.py lines 12-13). */
  function Product(chars: string, n: nat): (r: seq<string>)
    ensures |r| == Pow(|chars|, n)
  {
    if n == 0 then [[]] else Extend(Product(chars, n - 1), chars)
  }

  /** Entry i * |chars| + j of one round is prefix i followed by character j. */
  lemma {:induction false} ExtendAt(prefixes: seq<string>, chars: string, i: nat, j: nat)
    requires i < |prefixes| && j < |chars|
    ensures i * |chars| + j < |Extend(prefixes, chars)|
    ensures Extend(prefixes, chars)[i * |chars| + j] == prefixes[i] + [chars[j]]
  {
    DigitsBelow(i, |chars|, j, |prefixes|);
    if i > 0 {
      ExtendAt(prefixes[1..], chars, i - 1, j);
      assert i * |chars| + j == |chars| + ((i - 1) * |chars| + j);
    }
  }

  /**
   * The k-th tuple of length n counted from zero: the n base-|chars| digits of k,
   * most significant first, each mapped through `chars`.
   */
  function Expand(chars: string, n: nat, k: nat): (s: string)
    requires k < Pow(|chars|, n)
    ensures |s| == n && Over(chars, s)
  {
    if n == 0 then []
    else
      var b := |chars|;
      QuotientBelow(k, b, Pow(b, n - 1));
      Expand(chars, n - 1, k / b) + [chars[k % b]]
  }

  /** Position of the first occurrence of c in chars. */
  function IndexOf(chars: string, c: char): (i: nat)
    requires c in chars
    ensures i < |chars| && chars[i] == c
    ensures forall j :: 0 <= j < i ==> chars[j] != c
  {
    if chars[0] == c then 0 else 1 + IndexOf(chars[1..], c)
  }

  /** The number a string over chars spells in base |chars|, most significant digit first. */
  function Rank(chars: string, s: string): (k: nat)
    requires Over(chars, s)
    ensures k < Pow(|chars|, |s|)
  {
    if s == [] then 0
    else
      var p := s[..|s| - 1];
      assert Over(chars, p) by {
        forall i | 0 <= i < |p| ensures p[i] in chars { assert p[i] == s[i]; }
      }
      var k := Rank(chars, p) * |chars| + IndexOf(chars, s[|s| - 1]);
      assert k < Pow(|chars|, |s|) by {
        DigitsBelow(Rank(chars, p), |chars|, IndexOf(chars, s[|s| - 1]), Pow(|chars|, |p|));
      }
      k
  }

  /** Entry k of `itertools.product(chars, repeat=n)` is the base-|chars| expansion of k. */
  lemma {:induction false} ProductAt(chars: string, n: nat, k: nat)
    requires k < Pow(|chars|, n)
    ensures Product(chars, n)[k] == Expand(chars, n, k)
  {
    if n > 0 {
      var b := |chars|;
      QuotientBelow(k, b, Pow(b, n - 1));
      var q, r := k / b, k % b;
      ProductAt(chars, n - 1, q);
      ExtendAt(Product(chars, n - 1), chars, q, r);
    }
  }

  /** Reading a tuple back as a number yields its index, when chars has no repeated character. */
  lemma {:induction false} RankExpand(chars: string, n: nat, k: nat)
    requires Distinct(chars) && k < Pow(|chars|, n)
    ensures Rank(chars, Expand(chars, n, k)) == k
  {
    if n > 0 {
      var b := |chars|;
      var s := Expand(chars, n, k);
      QuotientBelow(k, b, Pow(b, n - 1));
      assert s[..n - 1] == Expand(chars, n - 1, k / b);
      assert IndexOf(chars, s[n - 1]) == k % b;
      RankExpand(chars, n - 1, k / b);
    }
  }

  /** Expanding the number a string spells gives the string back (for any chars). */
  lemma {:induction false} ExpandRank(chars: string, s: string)
    requires Over(chars, s)
    ensures Expand(chars, |s|, Rank(chars, s)) == s
  {
    if s != [] {
      var b := |chars|;
      var p := s[..|s| - 1];
      assert Over(chars, p) by {
        forall i | 0 <= i < |p| ensures p[i] in chars { assert p[i] == s[i]; }
      }
      var q, r := Rank(chars, p), IndexOf(chars, s[|s| - 1]);
      DivModUnique(Rank(chars, s), b, q, r);
      ExpandRank(chars, p);
      assert s == p + [s[|s| - 1]];
    }
  }

  /**
   * Over a repetition-free alphabet, a string of length n over chars occurs
   * in the product at exactly one index: the number it spells.
   */
  lemma ProductExactlyOnce(chars: string, s: string, k: nat)
    requires Distinct(chars) && Over(chars, s) && k < Pow(|chars|, |s|)
    ensures Product(chars, |s|)[k] == s <==> k == Rank(chars, s)
  {
    ProductAt(chars, |s|, k);
    if Expand(chars, |s|, k) == s {
      RankExpand(chars, |s|, k);
    }
    if k == Rank(chars, s) {
      ExpandRank(chars, s);
    }
  }

  // ---------------------------------------------------------------- all lengths

  /** `generate_passwords(chars, lo, hi)` for a non-negative lo: the products for lo, lo + 1, ..., hi in turn. */
  function Candidates(chars: string, lo: nat, hi: int): seq<string>
    decreases hi - lo
  {
    if lo > hi then [] else Product(chars, lo) + Candidates(chars, lo + 1, hi)
  }

  /** `sum(charset_size ** L for L in range(lo, hi + 1))` (cracker.py line 95). */
  function Total(charsetSize: nat, lo: nat, hi: int): nat
    decreases hi - lo
  {
    if lo > hi then 0 else Pow(charsetSize, lo) + Total(charsetSize, lo + 1, hi)
  }

  /** What `generate_passwords` yields, or that its first `next` raises (negative repeat count). */
  datatype Generated = Yields(candidates: seq<string>) | RaisesValueError

  /**
   * `generate_passwords` (cracker.py lines 10-13) for any integer bounds. A negative
   * first length makes `itertools.product` raise before anything is yielded.
   */
  function GeneratePasswords(chars: string, minLength: int, maxLength: int): (r: Generated)
    ensures r.RaisesValueError? <==> minLength < 0 && minLength <= maxLength
    ensures minLength > maxLength ==> r == Yields([])
    ensures r.Yields? ==> forall i :: 0 <= i < |r.candidates| ==>
              minLength <= |r.candidates[i]| <= maxLength && Over(chars, r.candidates[i])
  {
    if minLength > maxLength then Yields([])
    else if minLength < 0 then RaisesValueError
    else
      CandidatesSound(chars, minLength, maxLength);
      Yields(Candidates(chars, minLength, maxLength))
  }

  /** The generator yields exactly as many strings as the line-95 total counts, repeated characters included. */
  lemma {:induction false} CandidatesCount(chars: string, lo: nat, hi: int)
    ensures |Candidates(chars, lo, hi)| == Total(|chars|, lo, hi)
    decreases hi - lo
  {
    if lo <= hi {
      CandidatesCount(chars, lo + 1, hi);
    }
  }

  /** Every candidate has a length in [lo, hi] and uses only characters of chars. */
  lemma {:induction false} CandidatesSound(chars: string, lo: nat, hi: int)
    ensures forall i :: 0 <= i < |Candidates(chars, lo, hi)| ==>
              lo <= |Candidates(chars, lo, hi)[i]| <= hi && Over(chars, Candidates(chars, lo, hi)[i])
    decreases hi - lo
  {
    if lo <= hi {
      var r := Candidates(chars, lo, hi);
      var p := Product(chars, lo);
      CandidatesSound(chars, lo + 1, hi);
      forall i | 0 <= i < |r| ensures lo <= |r[i]| <= hi && Over(chars, r[i]) {
        if i < |p| {
          ProductAt(chars, lo, i);
        } else {
          assert r[i] == Candidates(chars, lo + 1, hi)[i - |p|];
        }
      }
    }
  }

  /** Lengths never decrease along the enumeration. */
  lemma {:induction false} CandidatesLengthOrder(chars: string, lo: nat, hi: int, i: nat, j: nat)
    requires i <= j < |Candidates(chars, lo, hi)|
    ensures |Candidates(chars, lo, hi)[i]| <= |Candidates(chars, lo, hi)[j]|
    decreases hi - lo
  {
    var r := Candidates(chars, lo, hi);
    var p := Product(chars, lo);
    var rest := Candidates(chars, lo + 1, hi);
    assert r == p + rest;
    if j < |p| {
      ProductAt(chars, lo, i);
      ProductAt(chars, lo, j);
    } else if i < |p| {
      ProductAt(chars, lo, i);
      CandidatesSound(chars, lo + 1, hi);
      assert r[j] == rest[j - |p|];
    } else {
      assert r[i] == rest[i - |p|] && r[j] == rest[j - |p|];
      CandidatesLengthOrder(chars, lo + 1, hi, i - |p|, j - |p|);
    }
  }

  /** The first block of the enumeration is the product of length lo. */
  lemma CandidatesHead(chars: string, lo: nat, hi: int, k: nat)
    requires lo <= hi && k < |Product(chars, lo)|
    ensures k < |Candidates(chars, lo, hi)| && Candidates(chars, lo, hi)[k] == Product(chars, lo)[k]
  {
    assert Candidates(chars, lo, hi) == Product(chars, lo) + Candidates(chars, lo + 1, hi);
  }

  /** The lengths below mid are enumerated before the lengths from mid on. */
  lemma {:induction false} CandidatesSplit(chars: string, lo: nat, mid: nat, hi: int)
    requires lo <= mid <= hi + 1
    ensures Candidates(chars, lo, hi) == Candidates(chars, lo, mid - 1) + Candidates(chars, mid, hi)
    decreases mid - lo
  {
    if mid == lo {
      assert Candidates(chars, lo, mid - 1) + Candidates(chars, mid, hi) == Candidates(chars, mid, hi);
    } else {
      CandidatesSplit(chars, lo + 1, mid, hi);
      var p := Product(chars, lo);
      assert p + (Candidates(chars, lo + 1, mid - 1) + Candidates(chars, mid, hi))
          == (p + Candidates(chars, lo + 1, mid - 1)) + Candidates(chars, mid, hi);
    }
  }

  /** Block by block: the k-th product of length len sits right after all shorter candidates. */
  lemma CandidatesBlock(chars: string, lo: nat, hi: int, len: nat, k: nat)
    requires lo <= len <= hi && k < |Product(chars, len)|
    ensures |Candidates(chars, lo, len - 1)| + k < |Candidates(chars, lo, hi)|
    ensures Candidates(chars, lo, hi)[|Candidates(chars, lo, len - 1)| + k] == Product(chars, len)[k]
  {
    CandidatesSplit(chars, lo, len, hi);
    CandidatesHead(chars, len, hi, k);
  }

  /**
   * Lengths come in ascending order and each block is a product: the k-th string of
   * length len comes after the Total(|chars|, lo, len - 1) shorter candidates and is
   * the base-|chars| expansion of k.
   */
  lemma CandidatesAt(chars: string, lo: nat, hi: int, len: nat, k: nat)
    requires lo <= len <= hi && k < Pow(|chars|, len)
    ensures Total(|chars|, lo, len - 1) + k < |Candidates(chars, lo, hi)|
    ensures Candidates(chars, lo, hi)[Total(|chars|, lo, len - 1) + k] == Expand(chars, len, k)
  {
    CandidatesBlock(chars, lo, hi, len, k);
    CandidatesCount(chars, lo, len - 1);
    ProductAt(chars, len, k);
  }

  /** Every candidate shorter (or longer) than s differs from s. */
  lemma CandidatesOtherLength(chars: string, lo: nat, hi: int, s: string)
    requires hi < |s| || |s| < lo
    ensures forall j :: 0 <= j < |Candidates(chars, lo, hi)| ==> Candidates(chars, lo, hi)[j] != s
  {
    CandidatesSound(chars, lo, hi);
  }

  /** If x occurs only at index k of b, and in neither a nor c, it occurs in a + b + c only at |a| + k. */
  lemma OnlyInMiddle<T>(a: seq<T>, b: seq<T>, c: seq<T>, x: T, k: nat, i: nat)
    requires forall j :: 0 <= j < |a| ==> a[j] != x
    requires forall j :: 0 <= j < |b| ==> (b[j] == x <==> j == k)
    requires forall j :: 0 <= j < |c| ==> c[j] != x
    requires k < |b| && i < |a + (b + c)|
    ensures (a + (b + c))[i] == x <==> i == |a| + k
  {
    if i < |a| {
      assert (a + (b + c))[i] == a[i];
    } else if i < |a| + |b| {
      assert (a + (b + c))[i] == b[i - |a|];
    } else {
      assert (a + (b + c))[i] == c[i - |a| - |b|];
    }
  }

  /**
   * Over a repetition-free alphabet, each string over chars with a length in
   * [lo, hi] is enumerated at exactly one position.
   */
  lemma CandidatesExactlyOnce(chars: string, lo: nat, hi: int, s: string, i: nat)
    requires Distinct(chars) && Over(chars, s) && lo <= |s| <= hi
    requires i < |Candidates(chars, lo, hi)|
    ensures Total(|chars|, lo, |s| - 1) + Rank(chars, s) < |Candidates(chars, lo, hi)|
    ensures Candidates(chars, lo, hi)[i] == s <==> i == Total(|chars|, lo, |s| - 1) + Rank(chars, s)
  {
    CandidatesAt(chars, lo, hi, |s|, Rank(chars, s));
    ExpandRank(chars, s);
    var shorter := Candidates(chars, lo, |s| - 1);
    var p := Product(chars, |s|);
    var longer := Candidates(chars, |s| + 1, hi);
    CandidatesSplit(chars, lo, |s|, hi);
    CandidatesCount(chars, lo, |s| - 1);
    CandidatesOtherLength(chars, lo, |s| - 1, s);
    CandidatesOtherLength(chars, |s| + 1, hi, s);
    forall j | 0 <= j < |p| ensures p[j] == s <==> j == Rank(chars, s) {
      ProductExactlyOnce(chars, s, j);
    }
    OnlyInMiddle(shorter, p, longer, s, Rank(chars, s), i);
  }

  /** Over a repetition-free alphabet no candidate is generated twice. */
  lemma CandidatesDistinct(chars: string, lo: nat, hi: int)
    requires Distinct(chars)
    ensures Distinct(Candidates(chars, lo, hi))
  {
    var r := Candidates(chars, lo, hi);
    forall i, j | 0 <= i < j < |r| ensures r[i] != r[j] {
      CandidatesSound(chars, lo, hi);
      CandidatesExactlyOnce(chars, lo, hi, r[i], i);
      CandidatesExactlyOnce(chars, lo, hi, r[i], j);
    }
  }

  /**
   * An empty alphabet yields only the empty string, and only when length 0 is in
   * range; the line-95 total agrees because 0 ** 0 == 1.
   */
  lemma {:induction false} EmptyAlphabet(lo: nat, hi: int)
    ensures Candidates("", lo, hi) == if lo == 0 <= hi then [""] else []
    ensures Total(0, lo, hi) == if lo == 0 <= hi then 1 else 0
    decreases hi - lo
  {
    if lo <= hi {
      EmptyAlphabet(lo + 1, hi);
      assert |Product("", lo)| == Pow(0, lo);
      if lo > 0 {
        assert Product("", lo) == [];
      }
    }
  }
}
