// The Internet checksum (chunk.c), RFC 1071.
module Checksum {
  import opened Base

  // The sum of the 16-bit words, an odd last byte being the high half of one
  function WordSum(b: bytes): nat {
    if b == [] then 0 else if |b| == 1 then b[0] as int * 0x100 else U16(b, 0) + WordSum(b[2..])
  }

  // Add the carries back in until none is left
  function Fold(sum: nat): (r: u16) {
    if sum < 0x1_0000 then sum else Fold(sum % 0x1_0000 + sum / 0x1_0000)
  }

  // What a checksum field must bring the one's-complement sum to
  predicate AllOnes(b: bytes) { Fold(WordSum(b)) == 0xFFFF }

  function Inc(data: bytes, checksum: u16): u16 { 0xFFFF - Fold((0xFFFF - checksum + WordSum(data)) % 0x1_0000_0000) }

  function Of(data: bytes): u16 { Inc(data, 0xFFFF) }

  lemma AddWrapped(a: nat, b: nat, c: nat)
    ensures ((a + b) % 0x1_0000_0000 + c) % 0x1_0000_0000 == (a + (b + c)) % 0x1_0000_0000
  {}

  method AddWords(data: bytes, start: u16) returns (sum: u32)
    ensures sum == (start + WordSum(data)) % 0x1_0000_0000
  {
    sum := start;
    var rest := data;
    while |rest| > 1
      invariant (sum + WordSum(rest)) % 0x1_0000_0000 == (start + WordSum(data)) % 0x1_0000_0000
      decreases |rest|
    {
      AddWrapped(sum, U16(rest, 0), WordSum(rest[2..]));
      sum := (sum + U16(rest, 0)) % 0x1_0000_0000;
      rest := Skip(rest, 2);
    }
    if |rest| != 0 {
      sum := (sum + rest[0] as int * 0x100) % 0x1_0000_0000;
    }
  }

  method FoldCarries(start: u32) returns (sum: u32)
    ensures sum == Fold(start)
  {
    sum := start;
    while sum / 0x1_0000 != 0
      invariant Fold(sum) == Fold(start)
      decreases sum
    {
      sum := sum % 0x1_0000 + sum / 0x1_0000;
    }
  }

  // chunk_internet_checksum_inc; the sum is a 32-bit unsigned integer
  method ComputeInc(data: bytes, checksum: u16) returns (r: u16)
    ensures r == Inc(data, checksum)
  {
    var sum := AddWords(data, 0xFFFF - checksum);
    sum := FoldCarries(sum);
    return 0xFFFF - sum;
  }

  // ---------------------------------------------------------------- one's-complement arithmetic

  // Folding is reduction modulo 2^16 - 1, except that only zero folds to zero
  lemma {:induction false} FoldReduces(sum: nat) returns (k: nat)
    ensures Fold(sum) == sum - 0xFFFF * k
    ensures sum > 0 ==> Fold(sum) > 0
  {
    if sum < 0x1_0000 {
      k := 0;
    } else {
      var q := sum / 0x1_0000;
      k := FoldReduces(sum % 0x1_0000 + q);
      k := k + q;
    }
  }

  lemma FoldIsUnique(sum: nat, r: u16, k: int)
    requires r as int == sum - 0xFFFF * k && (sum > 0 <==> r > 0)
    ensures Fold(sum) == r
  {
    var j := FoldReduces(sum);
    assert Fold(sum) - r == 0xFFFF * (k - j);
  }

  lemma FoldTwice(a: nat, b: nat)
    ensures Fold(Fold(a) + b) == Fold(a + b)
  {
    var j := FoldReduces(a);
    var k := FoldReduces(Fold(a) + b);
    FoldIsUnique(a + b, Fold(Fold(a) + b), j + k);
  }

  lemma ComplementCloses(sum: nat)
    ensures Fold(sum + (0xFFFF - Fold(sum))) == 0xFFFF
  {
    var k := FoldReduces(sum);
    FoldIsUnique(sum + (0xFFFF - Fold(sum)), 0xFFFF, k);
  }

  // ---------------------------------------------------------------- word sums

  lemma {:induction false} WordSumBound(b: bytes)
    ensures WordSum(b) <= 0xFFFF * ((|b| + 1) / 2)
    decreases |b|
  {
    if |b| >= 2 { WordSumBound(b[2..]); }
  }

  lemma {:induction false} WordSumConcat(a: bytes, b: bytes)
    requires |a| % 2 == 0
    ensures WordSum(a + b) == WordSum(a) + WordSum(b)
    decreases |a|
  {
    if a == [] {
      assert a + b == b;
    } else {
      assert (a + b)[2..] == a[2..] + b;
      WordSumConcat(a[2..], b);
    }
  }

  lemma WordSumWord(c: u16, rest: bytes)
    ensures WordSum(Be16(c) + rest) == c + WordSum(rest)
  {
    assert (Be16(c) + rest)[2..] == rest;
  }

  function Store(b: bytes, i: nat, c: u16): (r: bytes)
    requires i + 2 <= |b|
    ensures |r| == |b|
  {
    b[..i] + Be16(c) + b[i + 2..]
  }

  lemma SumAround(left: bytes, c: u16, right: bytes)
    requires |left| % 2 == 0
    ensures WordSum(left + (Be16(c) + right)) == WordSum(left) + c + WordSum(right)
  {
    WordSumConcat(left, Be16(c) + right);
    WordSumWord(c, right);
  }

  lemma ZeroField(b: bytes, i: nat)
    requires i + 2 <= |b| && U16(b, i) == 0
    ensures b == b[..i] + (Be16(0) + b[i + 2..])
  {
    assert b[i] == 0 && b[i + 1] == 0;
    assert Be16(0) == [0, 0];
    assert b == b[..i] + ([b[i], b[i + 1]] + b[i + 2..]);
  }

  // Storing a word in a zero field adds it to the sum
  lemma WordSumStore(b: bytes, i: nat, c: u16)
    requires i % 2 == 0 && i + 2 <= |b| && U16(b, i) == 0
    ensures WordSum(Store(b, i, c)) == WordSum(b) + c
  {
    var left, right := b[..i], b[i + 2..];
    calc {
      WordSum(Store(b, i, c));
    ==  { assert Store(b, i, c) == left + (Be16(c) + right); }
      WordSum(left + (Be16(c) + right));
    ==  { SumAround(left, c, right); }
      WordSum(left) + c + WordSum(right);
    ==  { SumAround(left, 0, right); }
      WordSum(left + (Be16(0) + right)) + c;
    ==  { ZeroField(b, i); }
      WordSum(b) + c;
    }
  }

  lemma SumFits(b: bytes)
    requires |b| <= 0x1_FFFE
    ensures WordSum(b) <= 0xFFFF * 0xFFFF
  {
    WordSumBound(b);
  }

  // Short enough for the 32-bit sum not to wrap around
  lemma IncUnwrapped(b: bytes, checksum: u16)
    requires |b| <= 0x1_FFFE
    ensures Inc(b, checksum) == 0xFFFF - Fold(0xFFFF - checksum + WordSum(b))
  {
    SumFits(b);
    assert 0 <= 0xFFFF - checksum + WordSum(b) < 0x1_0000_0000;
  }

  lemma OfUnwrapped(b: bytes)
    requires |b| <= 0x1_FFFE
    ensures Of(b) == 0xFFFF - Fold(WordSum(b))
  {
    IncUnwrapped(b, 0xFFFF);
    assert 0xFFFF - 0xFFFF + WordSum(b) == WordSum(b);
  }

  lemma IncOfComplement(b: bytes, sum: u16)
    requires |b| <= 0x1_FFFE
    ensures Inc(b, 0xFFFF - sum) == 0xFFFF - Fold(sum + WordSum(b))
  {
    IncUnwrapped(b, 0xFFFF - sum);
    assert 0xFFFF - (0xFFFF - sum) + WordSum(b) == sum + WordSum(b);
  }

  // Summing two parts one after the other is summing them together
  lemma IncIsOfConcat(a: bytes, b: bytes)
    requires |a| % 2 == 0 && |a| + |b| <= 0x1_FFFE
    ensures Inc(b, Of(a)) == Of(a + b)
  {
    var sum := Fold(WordSum(a));
    calc {
      Inc(b, Of(a));
    ==  { OfUnwrapped(a); }
      Inc(b, 0xFFFF - sum);
    ==  { IncOfComplement(b, sum); }
      0xFFFF - Fold(sum + WordSum(b));
    ==  { FoldTwice(WordSum(a), WordSum(b)); }
      0xFFFF - Fold(WordSum(a) + WordSum(b));
    ==  { WordSumConcat(a, b); }
      0xFFFF - Fold(WordSum(a + b));
    ==  { OfUnwrapped(a + b); }
      Of(a + b);
    }
  }

  // A checksum stored in the zero field it was computed over makes the sum, including whatever was
  // summed before, all ones
  lemma StoredChecksumCloses(before: bytes, b: bytes, i: nat)
    requires |before| % 2 == 0 && i % 2 == 0 && i + 2 <= |b| && U16(b, i) == 0
    requires |before| + |b| <= 0x1_FFFE
    ensures AllOnes(before + Store(b, i, Inc(b, Of(before))))
  {
    IncIsOfConcat(before, b);
    var c := Of(before + b);
    WordSumStore(b, i, c);
    WordSumConcat(before, b);
    WordSumConcat(before, Store(b, i, c));
    IncUnwrapped(before + b, 0xFFFF);
    ComplementCloses(WordSum(before + b));
  }

  // ---------------------------------------------------------------- the checksum as a residue

  // An odd number of bytes is summed with a zero byte at the end
  function Even(b: bytes): (r: bytes)
    ensures |r| % 2 == 0
  {
    if |b| % 2 == 0 then b else b + [0]
  }

  lemma {:induction false} WordSumOfEven(b: bytes)
    ensures WordSum(Even(b)) == WordSum(b)
    decreases |b|
  {
    if |b| >= 2 {
      WordSumOfEven(b[2..]);
      assert Even(b)[2..] == Even(b[2..]);
    }
  }

  // Bytes read as one number differ from their word sum by a multiple of 2^16 - 1
  lemma {:induction false} NumberIsWordSum(b: bytes) returns (k: nat)
    requires |b| % 2 == 0
    ensures Number(b) == WordSum(b) + 0xFFFF * k && (WordSum(b) == 0 ==> k == 0)
    decreases |b|
  {
    if b == [] {
      k := 0;
    } else {
      var left, low := b[..|b| - 2], b[|b| - 2..];
      var j := NumberIsWordSum(left);
      WordSumConcat(left, low);
      assert b == left + low;
      assert low[2..] == [];
      assert b[..|b| - 1][..|b| - 2] == left;
      assert Number(b) == 0x1_0000 * Number(left) + U16(low, 0);
      k := Number(left) + j;
    }
  }

  // What a one's-complement sum of 16-bit words is: the bytes as one number modulo 2^16 - 1, where a
  // multiple of that other than 0 gives all ones
  function Residue(n: nat): u16 { if n > 0 && n % 0xFFFF == 0 then 0xFFFF else n % 0xFFFF }

  // The checksum is the complement of that residue, and a field makes the sum all ones exactly if the
  // number is a multiple of 2^16 - 1 other than 0
  lemma ChecksumIsResidue(b: bytes)
    ensures Fold(WordSum(b)) == Residue(Number(Even(b)))
    ensures AllOnes(b) <==> Number(Even(b)) > 0 && Number(Even(b)) % 0xFFFF == 0
    ensures |b| <= 0x1_FFFE ==> Of(b) == 0xFFFF - Residue(Number(Even(b)))
  {
    var n := Number(Even(b));
    WordSumOfEven(b);
    var k := NumberIsWordSum(Even(b));
    var q := n / 0xFFFF;
    if n > 0 && n % 0xFFFF == 0 {
      FoldIsUnique(WordSum(b), 0xFFFF, q - 1 - k);
    } else {
      FoldIsUnique(WordSum(b), n % 0xFFFF, q - k);
    }
    if |b| <= 0x1_FFFE { OfUnwrapped(b); }
  }
}
