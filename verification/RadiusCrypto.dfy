// The cryptographic services libradius uses, and the chained cipher of section 5.2 of RFC 2865.
module RadiusCrypto {
  import opened Base

  const HASH_SIZE := 16

  type Block = b: bytes | |b| == HASH_SIZE witness Zeros(HASH_SIZE)

  // An MD5 hasher that accumulates data until a hash is asked for.  Unless it is reliable, any call
  // may fail.
  class Hasher {
    const md5: bytes -> Block
    const reliable: bool
    var pending: bytes

    constructor (md5: bytes -> Block, reliable: bool)
      ensures this.md5 == md5 && this.reliable == reliable && pending == []
    {
      this.md5, this.reliable, pending := md5, reliable, [];
    }

    method Succeeds() returns (ok: bool)
      ensures reliable ==> ok
    {
      ok := *;
      if reliable {
        ok := true;
      }
    }

    // get_hash without a result
    method Append(data: bytes) returns (ok: bool)
      modifies this
      ensures reliable ==> ok
      ensures ok ==> pending == old(pending) + data
    {
      pending := pending + data;
      ok := Succeeds();
    }

    // get_hash with a result
    method Finish(data: bytes) returns (ok: bool, hash: Block)
      modifies this
      ensures reliable ==> ok
      ensures ok ==> hash == md5(old(pending) + data) && pending == []
    {
      hash := md5(pending + data);
      pending := [];
      ok := Succeeds();
    }
  }

  // An HMAC-MD5 signer with its key set
  class Signer {
    const hmac: bytes -> Block
    const reliable: bool

    constructor (hmac: bytes -> Block, reliable: bool)
      ensures this.hmac == hmac && this.reliable == reliable
    {
      this.hmac, this.reliable := hmac, reliable;
    }

    method GetSignature(data: bytes) returns (ok: bool, signature: Block)
      ensures reliable ==> ok
      ensures ok ==> signature == hmac(data)
    {
      signature := hmac(data);
      ok := *;
      if reliable {
        ok := true;
      }
    }

    method VerifySignature(data: bytes, signature: bytes) returns (ok: bool)
      ensures ok ==> signature == hmac(data)
      ensures reliable && signature == hmac(data) ==> ok
    {
      var done, expected := GetSignature(data);
      ok := done && signature == expected;
    }
  }

  // ---------------------------------------------------------------- exclusive or

  function Pow2(n: nat): nat { if n == 0 then 1 else 2 * Pow2(n - 1) }

  // The n low bits of the exclusive or, lowest first
  function XorBits(a: nat, b: nat, n: nat): (r: nat)
    ensures r < Pow2(n)
  {
    if n == 0 then 0 else (if a % 2 == b % 2 then 0 else 1) + 2 * XorBits(a / 2, b / 2, n - 1)
  }

  // Bit k of a number, the lowest being bit 0
  predicate Bit(n: nat, k: nat) { if k == 0 then n % 2 == 1 else Bit(n / 2, k - 1) }

  lemma {:induction false} XorBitsDiffer(a: nat, b: nat, n: nat, k: nat)
    requires k < n
    ensures Bit(XorBits(a, b, n), k) <==> Bit(a, k) != Bit(b, k)
  {
    var low, high := if a % 2 == b % 2 then 0 else 1, XorBits(a / 2, b / 2, n - 1);
    var r := XorBits(a, b, n);
    assert r == low + 2 * high;
    assert r / 2 == high && r % 2 == low;
    if k > 0 {
      XorBitsDiffer(a / 2, b / 2, n - 1, k - 1);
    }
  }

  lemma {:induction false} XorBitsTwice(a: nat, b: nat, n: nat)
    requires a < Pow2(n)
    ensures XorBits(XorBits(a, b, n), b, n) == a
  {
    if n > 0 {
      var low, high := if a % 2 == b % 2 then 0 else 1, XorBits(a / 2, b / 2, n - 1);
      var r := XorBits(a, b, n);
      assert r == low + 2 * high;
      assert r / 2 == high && r % 2 == low;
      XorBitsTwice(a / 2, b / 2, n - 1);
    }
  }

  function Xor(a: byte, b: byte): byte {
    assert Pow2(8) == 0x100;
    XorBits(a, b, 8)
  }

  // Each bit of the exclusive or is set exactly if the two bits differ
  lemma XorIsBitwise(a: byte, b: byte)
    ensures forall k: nat | k < 8 :: Bit(Xor(a, b), k) <==> Bit(a, k) != Bit(b, k)
  {
    forall k: nat | k < 8 ensures Bit(Xor(a, b), k) <==> Bit(a, k) != Bit(b, k) {
      XorBitsDiffer(a, b, 8, k);
    }
  }

  function XorBlock(a: Block, b: Block): Block {
    seq(HASH_SIZE, i requires 0 <= i < HASH_SIZE => Xor(a[i], b[i]))
  }

  lemma XorBlockIsBitwise(a: Block, b: Block)
    ensures forall j: nat, k: nat | j < HASH_SIZE && k < 8 ::
      Bit(XorBlock(a, b)[j], k) <==> Bit(a[j], k) != Bit(b[j], k)
  {
    forall j: nat, k: nat | j < HASH_SIZE && k < 8
      ensures Bit(XorBlock(a, b)[j], k) <==> Bit(a[j], k) != Bit(b[j], k)
    {
      XorIsBitwise(a[j], b[j]);
    }
  }

  lemma XorBlockTwice(a: Block, b: Block)
    ensures XorBlock(XorBlock(a, b), b) == a
  {
    forall i | 0 <= i < HASH_SIZE ensures XorBlock(XorBlock(a, b), b)[i] == a[i] {
      assert Pow2(8) == 0x100;
      XorBitsTwice(a[i], b[i], 8);
    }
  }

  // ---------------------------------------------------------------- the chain

  // Each block is combined with the hash of the secret and a seed, the next seed being the block's
  // ciphertext: what comes out when encrypting, what went in when decrypting
  function Chain(encrypting: bool, md5: bytes -> Block, secret: bytes, seed: bytes, text: bytes): (r: bytes)
    requires |text| % HASH_SIZE == 0
    ensures |r| == |text|
    decreases |text|
  {
    if text == [] then []
    else
      var block := XorBlock(text[..HASH_SIZE], md5(secret + seed));
      block + Chain(encrypting, md5, secret, if encrypting then block else text[..HASH_SIZE], text[HASH_SIZE..])
  }

  function BlockAt(text: bytes, i: nat): Block
    requires HASH_SIZE * (i + 1) <= |text|
  {
    text[HASH_SIZE * i..HASH_SIZE * (i + 1)]
  }

  lemma BlockAfter(first: Block, rest: bytes, i: nat)
    requires HASH_SIZE * (i + 1) <= |first + rest|
    ensures BlockAt(first + rest, i) == if i == 0 then first else BlockAt(rest, i - 1)
  {}

  // The formulas of section 5.2 of RFC 2865, for any number of blocks: c(i) = p(i) xor MD5(S + c(i-1)),
  // and the same with p(i) and c(i) exchanged, where c(0) is the seed
  lemma {:induction false} ChainFormula(encrypting: bool, md5: bytes -> Block, secret: bytes, seed: bytes, text: bytes,
                                        i: nat)
    requires |text| % HASH_SIZE == 0 && HASH_SIZE * (i + 1) <= |text|
    ensures var out := Chain(encrypting, md5, secret, seed, text);
      var cipher := if encrypting then out else text;
      var hash := md5(secret + (if i == 0 then seed else BlockAt(cipher, i - 1)));
      forall j: nat, k: nat | j < HASH_SIZE && k < 8 ::
        Bit(BlockAt(out, i)[j], k) <==> Bit(BlockAt(text, i)[j], k) != Bit(hash[j], k)
    decreases i
  {
    var out := Chain(encrypting, md5, secret, seed, text);
    var first, rest := text[..HASH_SIZE], text[HASH_SIZE..];
    var block := XorBlock(first, md5(secret + seed));
    var next: Block := if encrypting then block else first;
    var outRest := Chain(encrypting, md5, secret, next, rest);
    assert out == block + outRest;
    if i == 0 {
      assert BlockAt(out, 0) == block && BlockAt(text, 0) == first;
      XorBlockIsBitwise(first, md5(secret + seed));
    } else {
      ChainFormula(encrypting, md5, secret, next, rest, i - 1);
      assert text == first + rest;
      BlockAfter(block, outRest, i);
      BlockAfter(first, rest, i);
      var cipherRest := if encrypting then outRest else rest;
      assert (if encrypting then out else text) == next + cipherRest;
      BlockAfter(next, cipherRest, i - 1);
    }
  }

  lemma {:induction false} ChainInverse(md5: bytes -> Block, secret: bytes, seed: bytes, text: bytes)
    requires |text| % HASH_SIZE == 0
    ensures Chain(false, md5, secret, seed, Chain(true, md5, secret, seed, text)) == text
    decreases |text|
  {
    if text != [] {
      var block: bytes := XorBlock(text[..HASH_SIZE], md5(secret + seed));
      var rest: bytes := Chain(true, md5, secret, block, text[HASH_SIZE..]);
      assert (block + rest)[..HASH_SIZE] == block && (block + rest)[HASH_SIZE..] == rest;
      XorBlockTwice(text[..HASH_SIZE], md5(secret + seed));
      ChainInverse(md5, secret, block, text[HASH_SIZE..]);
    }
  }

  // The other direction: encrypting what was decrypted
  lemma {:induction false} ChainInverseToo(md5: bytes -> Block, secret: bytes, seed: bytes, text: bytes)
    requires |text| % HASH_SIZE == 0
    ensures Chain(true, md5, secret, seed, Chain(false, md5, secret, seed, text)) == text
    decreases |text|
  {
    if text != [] {
      var block: bytes := XorBlock(text[..HASH_SIZE], md5(secret + seed));
      var rest: bytes := Chain(false, md5, secret, text[..HASH_SIZE], text[HASH_SIZE..]);
      assert (block + rest)[..HASH_SIZE] == block && (block + rest)[HASH_SIZE..] == rest;
      XorBlockTwice(text[..HASH_SIZE], md5(secret + seed));
      ChainInverseToo(md5, secret, text[..HASH_SIZE], text[HASH_SIZE..]);
    }
  }

  // The sizes crypt accepts
  predicate CryptSizes(input: nat, output: nat) { input == output && input % HASH_SIZE == 0 && input >= HASH_SIZE }

  lemma RestKept(text: bytes, before: bytes, after: bytes, pos: nat)
    requires pos + HASH_SIZE <= |text| == |before| == |after| && before[pos..] == text[pos..]
    requires after[pos + HASH_SIZE..] == before[pos + HASH_SIZE..]
    ensures after[pos + HASH_SIZE..] == text[pos + HASH_SIZE..]
  {
    assert before[pos..][HASH_SIZE..] == before[pos + HASH_SIZE..];
    assert text[pos..][HASH_SIZE..] == text[pos + HASH_SIZE..];
  }

  // One turn of the loop: the buffer before and after a block is combined with its hash
  lemma BlockDone(encrypting: bool, md5: bytes -> Block, secret: bytes, seed: bytes, text: bytes,
                  before: bytes, after: bytes, pos: nat, b: Block)
    requires pos + HASH_SIZE <= |text| == |before| == |after| && |text| % HASH_SIZE == 0 && pos % HASH_SIZE == 0
    requires before[pos..] == text[pos..] && b == md5(secret + seed)
    requires after[..pos] == before[..pos] && after[pos + HASH_SIZE..] == before[pos + HASH_SIZE..]
    requires after[pos..pos + HASH_SIZE] == XorBlock(before[pos..pos + HASH_SIZE], b)
    ensures var next := if encrypting then after[pos..pos + HASH_SIZE] else text[pos..pos + HASH_SIZE];
      before[..pos] + Chain(encrypting, md5, secret, seed, text[pos..])
        == after[..pos + HASH_SIZE] + Chain(encrypting, md5, secret, next, text[pos + HASH_SIZE..])
  {
    var rest := text[pos..];
    assert before[pos..][..HASH_SIZE] == before[pos..pos + HASH_SIZE];
    assert rest[..HASH_SIZE] == text[pos..pos + HASH_SIZE] && rest[HASH_SIZE..] == text[pos + HASH_SIZE..];
    assert after[..pos + HASH_SIZE] == after[..pos] + after[pos..pos + HASH_SIZE];
  }

  method NextHash(hasher: Hasher, secret: bytes, seed: bytes) returns (ok: bool, b: Block)
    requires hasher.pending == []
    modifies hasher
    ensures hasher.reliable ==> ok
    ensures ok ==> hasher.pending == [] && b == hasher.md5(secret + seed)
  {
    b := Zeros(HASH_SIZE);
    ok := hasher.Append(secret);
    if ok {
      assert hasher.pending + seed == secret + seed;
      ok, b := hasher.Finish(seed);
    }
  }

  method MemXor(a: array<byte>, off: nat, b: Block)
    requires off + HASH_SIZE <= a.Length
    modifies a
    ensures a[..off] == old(a[..off]) && a[off + HASH_SIZE..] == old(a[off + HASH_SIZE..])
    ensures a[off..off + HASH_SIZE] == XorBlock(old(a[off..off + HASH_SIZE]), b)
  {
    for i := 0 to HASH_SIZE
      invariant a[..off] == old(a[..off]) && a[off + i..] == old(a[off + i..])
      invariant a[off..off + i] == XorBlock(old(a[off..off + HASH_SIZE]), b)[..i]
    {
      a[off + i] := Xor(a[off + i], b[i]);
    }
  }

  // One block of the output, which from there on is still the text
  method CryptBlock(output: array<byte>, pos: nat, b: Block, ghost md5: bytes -> Block, ghost secret: bytes,
                    ghost seed: bytes, ghost text: bytes, ghost encrypting: bool, ghost clean: bool)
    requires pos + HASH_SIZE <= |text| == output.Length && |text| % HASH_SIZE == 0 && pos % HASH_SIZE == 0
    requires output[pos..] == text[pos..] && (clean ==> b == md5(secret + seed))
    modifies output
    ensures output[pos + HASH_SIZE..] == text[pos + HASH_SIZE..]
    ensures clean ==>
      var next := if encrypting then output[pos..pos + HASH_SIZE] else text[pos..pos + HASH_SIZE];
      old(output[..pos]) + Chain(encrypting, md5, secret, seed, text[pos..])
        == output[..pos + HASH_SIZE] + Chain(encrypting, md5, secret, next, text[pos + HASH_SIZE..])
  {
    ghost var before := output[..];
    assert before[pos..] == text[pos..] && before[..pos] == output[..pos];
    MemXor(output, pos, b);
    ghost var after := output[..];
    assert after[..pos] == before[..pos] && after[pos + HASH_SIZE..] == before[pos + HASH_SIZE..];
    assert after[pos..pos + HASH_SIZE] == output[pos..pos + HASH_SIZE];
    RestKept(text, before, after, pos);
    if clean { BlockDone(encrypting, md5, secret, seed, text, before, after, pos, b); }
    assert after[..pos + HASH_SIZE] == output[..pos + HASH_SIZE];
    assert after[pos + HASH_SIZE..] == output[pos + HASH_SIZE..];
  }

  // The loop of crypt, once output is a copy of input and the first block's hash is known
  method CryptBlocks(input: array<byte>, output: array<byte>, secret: bytes, hasher: Hasher, first: Block,
                     ghost seed0: bytes, ghost clean: bool) returns (ok: bool)
    requires hasher.pending == [] && input[..] == output[..] && |input[..]| % HASH_SIZE == 0
    requires clean ==> first == hasher.md5(secret + seed0)
    modifies output, hasher
    ensures hasher.reliable ==> ok
    ensures ok ==> hasher.pending == []
    ensures ok && clean ==> output[..] == Chain(input == output, hasher.md5, secret, seed0, old(input[..]))
  {
    ghost var text, encrypting, seed := input[..], input == output, seed0;
    var b, pos := first, 0;
    ok := true;
    while pos < input.Length
      invariant 0 <= pos <= input.Length && pos % HASH_SIZE == 0
      invariant ok && hasher.pending == []
      invariant output[pos..] == text[pos..] && (!encrypting ==> input[..] == text)
      invariant clean ==>
        Chain(encrypting, hasher.md5, secret, seed0, text)
          == output[..pos] + Chain(encrypting, hasher.md5, secret, seed, text[pos..])
      invariant clean && pos < input.Length ==> b == hasher.md5(secret + seed)
    {
      CryptBlock(output, pos, b, hasher.md5, secret, seed, text, encrypting, clean);
      seed := if encrypting then output[pos..pos + HASH_SIZE] else text[pos..pos + HASH_SIZE];
      if pos + HASH_SIZE < output.Length {
        assert input[pos..pos + HASH_SIZE] == seed;
        ok, b := NextHash(hasher, secret, input[pos..pos + HASH_SIZE]);
        if !ok {
          return;
        }
      }
      pos := pos + HASH_SIZE;
    }
    assert output[..pos] == output[..];
  }

  method FirstHash(hasher: Hasher, secret: bytes, authenticator: Block, salt: bytes) returns (ok: bool, b: Block)
    modifies hasher
    ensures hasher.reliable ==> ok
    ensures ok ==> hasher.pending == [] && b == hasher.md5(old(hasher.pending) + (secret + (authenticator + salt)))
  {
    b := Zeros(HASH_SIZE);
    ok := hasher.Append(secret);
    if ok { ok := hasher.Append(authenticator); }
    if ok {
      assert hasher.pending + salt == old(hasher.pending) + (secret + (authenticator + salt));
      ok, b := hasher.Finish(salt);
    }
  }

  // crypt: one routine for both directions.  The next seed is read from `input` after `output` was
  // changed, so it is the ciphertext in either case: with one buffer for both, the block just
  // encrypted; with two, the block just decrypted, as it was.  A hasher that still holds data from a
  // call that failed spoils the first block.
  method Crypt(authenticator: Block, salt: bytes, input: array<byte>, output: array<byte>,
               secret: bytes, hasher: Hasher) returns (ok: bool)
    modifies output, hasher
    ensures !CryptSizes(input.Length, output.Length) ==>
      !ok && output[..] == old(output[..]) && hasher.pending == old(hasher.pending)
    ensures hasher.reliable && CryptSizes(input.Length, output.Length) ==> ok
    ensures ok ==> hasher.pending == []
    ensures ok && old(hasher.pending) == [] ==>
      output[..] == Chain(input == output, hasher.md5, secret, authenticator + salt, old(input[..]))
  {
    if input.Length != output.Length || input.Length % HASH_SIZE != 0 || input.Length < HASH_SIZE {
      return false;
    }
    ghost var text, clean := input[..], hasher.pending == [];
    if output != input {
      forall i | 0 <= i < input.Length {
        output[i] := input[i];
      }
    }
    assert output[..] == text;
    var b;
    ok, b := FirstHash(hasher, secret, authenticator, salt);
    if ok {
      assert clean ==> [] + (secret + (authenticator + salt)) == secret + (authenticator + salt);
      ok := CryptBlocks(input, output, secret, hasher, b, authenticator + salt, clean);
    }
  }
}
