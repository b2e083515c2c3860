/** CBC of aes.c: cipher block chaining with the IV carried from call to call. */
module Cbc {
  import opened Bytes
  import opened BlockModes

  /** Encryption: the last ciphertext block is the IV of what follows. */
  function CbcEncrypt(c: Cipher, iv: Block, s: Bytes): (r: (Block, Bytes))
    requires |s| % 16 == 0
    ensures |r.1| == |s|
  {
    if s == [] then (iv, [])
    else
      var n := |s| - 16;
      var (prev, out) := CbcEncrypt(c, iv, s[..n]);
      var e := c.enc(XorBytes(s[n..], prev));
      (e, out + e)
  }

  function CbcDecrypt(c: Cipher, iv: Block, s: Bytes): (r: (Block, Bytes))
    requires |s| % 16 == 0
    ensures |r.1| == |s|
  {
    if s == [] then (iv, [])
    else
      var n := |s| - 16;
      var (prev, out) := CbcDecrypt(c, iv, s[..n]);
      (s[n..], out + XorBytes(c.dec(s[n..]), prev))
  }

  function CbcCrypt(c: Cipher, mode: Mode, iv: Block, s: Bytes): (r: (Block, Bytes))
    requires |s| % 16 == 0
  {
    if mode == Encrypt then CbcEncrypt(c, iv, s) else CbcDecrypt(c, iv, s)
  }

  /** Decryption undoes encryption and leaves the same IV for the next call. */
  lemma {:induction false} CbcInverse(c: Cipher, iv: Block, s: Bytes)
    requires c.Permutation() && |s| % 16 == 0
    ensures var (next, e) := CbcEncrypt(c, iv, s); CbcDecrypt(c, iv, e) == (next, s)
  {
    hide XorBytes;
    if s != [] {
      var n := |s| - 16;
      CbcInverse(c, iv, s[..n]);
      var (prev, out) := CbcEncrypt(c, iv, s[..n]);
      var (next, e) := CbcEncrypt(c, iv, s);
      assert e[..n] == out && e[n..] == next;
      XorBytesCancel(s[n..], prev);
      assert s[..n] + s[n..] == s;
    }
  }

  /** Splitting the input between blocks over two calls changes nothing. */
  lemma {:induction false} CbcAppend(c: Cipher, mode: Mode, iv: Block, s: Bytes, t: Bytes)
    requires |s| % 16 == 0 && |t| % 16 == 0
    ensures var (p, out) := CbcCrypt(c, mode, iv, s);
            var (q, out') := CbcCrypt(c, mode, p, t);
            CbcCrypt(c, mode, iv, s + t) == (q, out + out')
    decreases |t|
  {
    hide XorBytes;
    var (p, out) := CbcCrypt(c, mode, iv, s);
    if t == [] {
      assert s + t == s && out + [] == out;
    } else {
      var n := |t| - 16;
      CbcAppend(c, mode, iv, s, t[..n]);
      assert (s + t)[..|s + t| - 16] == s + t[..n] && (s + t)[|s + t| - 16..] == t[n..];
      var (prev, out') := CbcCrypt(c, mode, p, t[..n]);
      var last := if mode == Encrypt then c.enc(XorBytes(t[n..], prev)) else XorBytes(c.dec(t[n..]), prev);
      assert out + (out' + last) == out + out' + last;
    }
  }

  /** One more block. */
  lemma CbcNext(c: Cipher, mode: Mode, iv: Block, s: Bytes, b: Block)
    requires |s| % 16 == 0
    ensures var (prev, out) := CbcCrypt(c, mode, iv, s);
            CbcCrypt(c, mode, iv, s + b) ==
            if mode == Encrypt then (c.enc(XorBytes(b, prev)), out + c.enc(XorBytes(b, prev)))
            else (b, out + XorBytes(c.dec(b), prev))
  {
    hide XorBytes;
    assert (s + b)[..|s|] == s && (s + b)[|s|..] == b;
  }

  lemma CbcPrefix(c: Cipher, mode: Mode, iv: Block, s: Bytes, m: nat)
    requires |s| % 16 == 0 && m % 16 == 0 && m <= |s|
    ensures var out, before := CbcCrypt(c, mode, iv, s).1, CbcCrypt(c, mode, iv, s[..m]).1;
            |before| == m && |out| == |s| && out[..m] == before
  {
    hide XorBytes, CbcEncrypt, CbcDecrypt;
    CbcAppend(c, mode, iv, s[..m], s[m..]);
    assert s[..m] + s[m..] == s;
  }

  /** The chain value is the IV or the last block of ciphertext. */
  lemma CbcChain(c: Cipher, mode: Mode, iv: Block, s: Bytes)
    requires |s| % 16 == 0
    ensures var (next, out) := CbcCrypt(c, mode, iv, s);
            && |out| == |s|
            && next == if s == [] then iv else if mode == Encrypt then out[|s| - 16..] else s[|s| - 16..]
  {
    hide XorBytes;
  }

  /** Section 6.2 of NIST SP 800-38A, for every block j of a call, the first with the IV as the block before. */
  lemma CbcBlocks(c: Cipher, mode: Mode, iv: Block, s: Bytes, j: nat, prev: Block)
    requires |s| % 16 == 0 && 16 * j + 16 <= |s| && |CbcCrypt(c, mode, iv, s).1| == |s|
    requires prev == if j == 0 then iv
                     else if mode == Encrypt then CbcCrypt(c, mode, iv, s).1[16 * j - 16..16 * j] else s[16 * j - 16..16 * j]
    ensures var b: Block, out := s[16 * j..16 * j + 16], CbcCrypt(c, mode, iv, s).1[16 * j..16 * j + 16];
            out == if mode == Encrypt then c.enc(XorBytes(b, prev)) else XorBytes(c.dec(b), prev)
  {
    hide XorBytes, CbcCrypt;
    var m := 16 * j;
    var out := CbcCrypt(c, mode, iv, s).1;
    CbcPrefix(c, mode, iv, s, m);
    CbcPrefix(c, mode, iv, s, m + 16);
    CbcChain(c, mode, iv, s[..m]);
    assert j > 0 ==> s[..m][m - 16..] == s[m - 16..m] && out[..m][m - 16..] == out[m - 16..m];
    CbcNext(c, mode, iv, s[..m], s[m..m + 16]);
    assert s[..m] + s[m..m + 16] == s[..m + 16];
    assert out[..m + 16][m..] == out[m..m + 16];
  }

  /** Everything up to a block boundary is done. */
  ghost predicate CbcDone(c: Cipher, mode: Mode, iv: Block, s: Bytes, at: nat, chain: Block, out: Bytes)
  {
    at <= |s| && at % 16 == 0 && CbcCrypt(c, mode, iv, s[..at]) == (chain, out)
  }

  lemma CbcStarts(c: Cipher, mode: Mode, iv: Block, s: Bytes)
    ensures CbcDone(c, mode, iv, s, 0, iv, [])
  {
    assert s[..0] == [];
  }

  lemma CbcNextDone(c: Cipher, mode: Mode, iv: Block, s: Bytes, at: nat, chain: Block, out: Bytes)
    requires CbcDone(c, mode, iv, s, at, chain, out) && at + 16 <= |s|
    ensures var b: Block := s[at..at + 16];
            if mode == Encrypt
            then CbcDone(c, mode, iv, s, at + 16, c.enc(XorBytes(b, chain)), out + c.enc(XorBytes(b, chain)))
            else CbcDone(c, mode, iv, s, at + 16, b, out + XorBytes(c.dec(b), chain))
  {
    hide XorBytes, CbcCrypt;
    CbcNext(c, mode, iv, s[..at], s[at..at + 16]);
    assert s[..at + 16] == s[..at] + s[at..at + 16];
  }

  lemma CbcEnds(c: Cipher, mode: Mode, iv: Block, s: Bytes, chain: Block, out: Bytes)
    requires CbcDone(c, mode, iv, s, |s|, chain, out)
    ensures CbcCrypt(c, mode, iv, s) == (chain, out)
  {
    assert s[..|s|] == s;
  }

  /** One block: the ciphertext block it leaves is the chain value of the next. */
  method CryptBlock(c: Cipher, mode: Mode, chain: Block, input: array<Byte>, output: array<Byte>, at: nat)
    returns (next: Block)
    requires at + 16 <= input.Length && at + 16 <= output.Length
    modifies output
    ensures var b: Block := old(input[at..at + 16]);
            if mode == Encrypt then next == c.enc(XorBytes(b, chain)) && output[at..at + 16] == next
            else next == b && output[at..at + 16] == XorBytes(c.dec(b), chain)
    ensures output[..at] == old(output[..at]) && input[at + 16..] == old(input[at + 16..])
    ensures OnlyWritten(output, at, 16)
  {
    hide XorBytes;
    if mode == Decrypt {
      next := input[at..at + 16];
      Store(output, at, XorBytes(c.dec(next), chain));
    } else {
      next := c.enc(XorBytes(input[at..at + 16], chain));
      Store(output, at, next);
    }
  }

  /** The block loop: all blocks are done, and the last one is the chain value. */
  method CryptBlocks(c: Cipher, mode: Mode, length: nat, iv: Block, input: array<Byte>, output: array<Byte>)
    returns (chain: Block)
    requires length <= input.Length && length <= output.Length && length % 16 == 0
    modifies output
    ensures CbcDone(c, mode, iv, old(input[..length]), length, chain, output[..length])
    ensures OnlyWritten(output, 0, length)
  {
    hide XorBytes, CbcDone;
    ghost var s := input[..length];
    CbcStarts(c, mode, iv, s);
    assert output[..0] == [];
    chain := iv;
    var at := 0;
    while at < length
      invariant at <= length && at % 16 == 0
      invariant CbcDone(c, mode, iv, s, at, chain, output[..at])
      invariant input[at..length] == s[at..] && OnlyWritten(output, 0, at)
    {
      ghost var rest, done := input[at + 16..], output[..at];
      NextPiece(input, length, s, at, 16);
      CbcNextDone(c, mode, iv, s, at, chain, done);
      chain := CryptBlock(c, mode, chain, input, output, at);
      assert input[at + 16..length] == rest[..length - at - 16];
      assert output[..at + 16] == done + output[at..at + 16];
      at := at + 16;
    }
  }

  /** mbedtls_aes_crypt_cbc; input and output may be the same buffer. */
  method CryptCbc(c: Cipher, mode: Mode, length: nat, iv: array<Byte>, input: array<Byte>, output: array<Byte>)
    returns (status: ModeStatus)
    requires iv.Length == 16 && iv != output && iv != input
    requires length <= input.Length && length <= output.Length
    modifies iv, output
    ensures status == if length % 16 == 0 then Success else InvalidInputLength
    ensures if status == Success
            then (iv[..], output[..length]) == CbcCrypt(c, mode, old(iv[..]), old(input[..length]))
            else iv[..] == old(iv[..])
    ensures OnlyWritten(output, 0, if status == Success then length else 0)
  {
    hide XorBytes, CbcCrypt, CbcDone;
    ghost var iv0: Block := iv[..];
    ghost var s := input[..length];
    CbcStarts(c, mode, iv0, s);
    assert output[..0] == [];
    if length == 0 {
      CbcEnds(c, mode, iv0, s, iv0, []);
      return Success;
    }
    if length % 16 != 0 {
      return InvalidInputLength;
    }
    var chain := CryptBlocks(c, mode, length, iv[..], input, output);
    CbcEnds(c, mode, iv0, s, chain, output[..length]);
    Store(iv, 0, chain);
    assert iv[..] == iv[0..16];
    return Success;
  }
}
