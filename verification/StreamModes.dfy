/**
 * The modes of aes.c that turn a block cipher into a byte stream (OFB, CFB128 and CTR), with the
 * counter of ctr.h. Each is a step on one byte; a call runs the step over its input and hands the
 * state to the next call.
 */
module StreamModes {
  import opened Bits
  import opened Bytes
  import opened Limbs
  import opened LimbBytes
  import opened BlockModes

  // ---------------------------------------------------------------- runs of a step

  /** The state after a byte string, and what came out. */
  function Run<S>(step: (S, Byte) -> (S, Byte), q: S, s: Bytes): (r: (S, Bytes))
    ensures |r.1| == |s|
  {
    if s == [] then (q, [])
    else
      var (q', out) := Run(step, q, s[..|s| - 1]);
      var (q'', b) := step(q', s[|s| - 1]);
      (q'', out + [b])
  }

  /** Splitting the input over two calls changes neither the output nor the final state. */
  lemma {:induction false} RunAppend<S>(step: (S, Byte) -> (S, Byte), q: S, s: Bytes, t: Bytes)
    ensures var (q', out) := Run(step, q, s);
            var (q'', out') := Run(step, q', t);
            Run(step, q, s + t) == (q'', out + out')
  {
    var (q', out) := Run(step, q, s);
    if t == [] {
      assert s + t == s && out + [] == out;
    } else {
      var t', b := t[..|t| - 1], t[|t| - 1];
      RunAppend(step, q, s, t');
      RunSnoc(step, q, s + t', b);
      RunSnoc(step, q', t', b);
      assert s + t == s + t' + [b] && t == t' + [b];
      var (p, out') := Run(step, q', t');
      var (p', x) := step(p, b);
      assert out + (out' + [x]) == out + out' + [x];
    }
  }

  lemma RunSnoc<S>(step: (S, Byte) -> (S, Byte), q: S, s: Bytes, b: Byte)
    ensures var (q', out) := Run(step, q, s);
            var (q'', x) := step(q', b);
            Run(step, q, s + [b]) == (q'', out + [x])
  {
    assert (s + [b])[..|s|] == s;
  }

  function Join(chunks: seq<Bytes>): (s: Bytes)
  {
    if chunks == [] then [] else Join(chunks[..|chunks| - 1]) + chunks[|chunks| - 1]
  }

  /** A sequence of calls, each starting in the state the one before left. */
  function Calls<S>(step: (S, Byte) -> (S, Byte), q: S, chunks: seq<Bytes>): (S, Bytes)
  {
    if chunks == [] then (q, [])
    else
      var (q', out) := Calls(step, q, chunks[..|chunks| - 1]);
      var (q'', out') := Run(step, q', chunks[|chunks| - 1]);
      (q'', out + out')
  }

  /** However a message is split over calls, they yield what one call on the whole yields. */
  lemma {:induction false} ChunkingDoesNotMatter<S>(step: (S, Byte) -> (S, Byte), q: S, chunks: seq<Bytes>)
    ensures Calls(step, q, chunks) == Run(step, q, Join(chunks))
  {
    if chunks != [] {
      ChunkingDoesNotMatter(step, q, chunks[..|chunks| - 1]);
      RunAppend(step, q, Join(chunks[..|chunks| - 1]), chunks[|chunks| - 1]);
    }
  }

  lemma RunOne<S>(step: (S, Byte) -> (S, Byte), q: S, s: Bytes, i: nat)
    requires i < |s|
    ensures var (q', out) := Run(step, q, s[..i]);
            var (q'', b) := step(q', s[i]);
            Run(step, q, s[..i + 1]) == (q'', out + [b])
  {
    assert s[..i + 1][..i] == s[..i];
  }

  // ---------------------------------------------------------------- OFB and CFB128

  type Offset = n: nat | n < 16

  /** The IV and how much of it is used up. */
  datatype Feedback = Feedback(off: Offset, iv: Block)

  /** The block cipher is called when a new block begins. */
  function Refreshed(c: Cipher, q: Feedback): Block
  {
    if q.off == 0 then c.enc(q.iv) else q.iv
  }

  function Next(off: Offset): Offset
  {
    (off + 1) % 16
  }

  /** OFB: the key stream is fed back. */
  function OfbStep(c: Cipher): (Feedback, Byte) -> (Feedback, Byte)
  {
    (q: Feedback, b: Byte) =>
      var iv := Refreshed(c, q);
      (Feedback(Next(q.off), iv), XorByte(b, iv[q.off]))
  }

  /** CFB128: the ciphertext byte is fed back. */
  function CfbStep(c: Cipher, mode: Mode): (Feedback, Byte) -> (Feedback, Byte)
  {
    (q: Feedback, b: Byte) =>
      var iv := Refreshed(c, q);
      var out := XorByte(iv[q.off], b);
      (Feedback(Next(q.off), iv[q.off := if mode == Encrypt then out else b]), out)
  }

  lemma CfbStepInverse(c: Cipher, q: Feedback, b: Byte)
    ensures var (q', x) := CfbStep(c, Encrypt)(q, b); CfbStep(c, Decrypt)(q, x) == (q', b)
  {
    hide XorByte;
    var v := Refreshed(c, q)[q.off];
    XorByteCancel(b, v);
    XorByteCancel(v, b);
    XorByteCancel(XorByte(v, b), v);
  }

  /** CFB128 decryption from the same state undoes encryption and leaves the same state. */
  lemma {:induction false} CfbInverse(c: Cipher, q: Feedback, s: Bytes)
    ensures var (q', e) := Run(CfbStep(c, Encrypt), q, s);
            Run(CfbStep(c, Decrypt), q, e) == (q', s)
  {
    hide CfbStep;
    if s != [] {
      var t, b := s[..|s| - 1], s[|s| - 1];
      CfbInverse(c, q, t);
      var (p, e) := Run(CfbStep(c, Encrypt), q, t);
      var (p', x) := CfbStep(c, Encrypt)(p, b);
      CfbStepInverse(c, p, b);
      RunSnoc(CfbStep(c, Decrypt), q, e, x);
      assert s == t + [b];
    }
  }

  /** OFB is its own inverse. */
  lemma {:induction false} OfbInverse(c: Cipher, q: Feedback, s: Bytes)
    ensures var (q', e) := Run(OfbStep(c), q, s); Run(OfbStep(c), q, e) == (q', s)
  {
    hide XorByte;
    if s != [] {
      var t, b := s[..|s| - 1], s[|s| - 1];
      OfbInverse(c, q, t);
      var (p, e) := Run(OfbStep(c), q, t);
      var (p', x) := OfbStep(c)(p, b);
      XorByteCancel(b, Refreshed(c, p)[p.off]);
      assert OfbStep(c)(p, x) == (p', b);
      RunSnoc(OfbStep(c), q, e, x);
      assert s == t + [b];
    }
  }

  lemma CfbStepIs(c: Cipher, q: Feedback, b: Byte)
    ensures var w := if q.off == 0 then c.enc(q.iv) else q.iv;
            var x := XorByte(w[q.off], b);
            CfbStep(c, Encrypt)(q, b) == (Feedback(Next(q.off), w[q.off := x]), x)
  {
    hide XorByte;
  }

  /** The bytes of a CFB128 block begun. */
  lemma {:induction false} WithinCfbBlock(c: Cipher, iv: Block, p: Block, k: nat)
    requires 0 < k <= 16
    ensures var e := XorBytes(c.enc(iv), p);
            Run(CfbStep(c, Encrypt), Feedback(0, iv), p[..k]) == (Feedback(k % 16, e[..k] + c.enc(iv)[k..]), e[..k])
  {
    hide XorByte, Run, CfbStep;
    var e := XorBytes(c.enc(iv), p);
    assert e[k - 1] == XorByte(c.enc(iv)[k - 1], p[k - 1]) && Next(k - 1) == k % 16;
    RunOne(CfbStep(c, Encrypt), Feedback(0, iv), p, k - 1);
    if k == 1 {
      RunEmpty(CfbStep(c, Encrypt), Feedback(0, iv));
      assert p[..0] == [];
      CfbStepIs(c, Feedback(0, iv), p[0]);
      assert c.enc(iv)[0 := e[0]] == e[..1] + c.enc(iv)[1..];
    } else {
      WithinCfbBlock(c, iv, p, k - 1);
      var v: Block := e[..k - 1] + c.enc(iv)[k - 1..];
      assert v[k - 1 := e[k - 1]] == e[..k] + c.enc(iv)[k..];
      assert (k - 1) % 16 == k - 1;
      CfbStepIs(c, Feedback(k - 1, v), p[k - 1]);
    }
    assert e[..k - 1] + [e[k - 1]] == e[..k];
  }

  lemma OfbStepIs(c: Cipher, q: Feedback, b: Byte)
    ensures OfbStep(c)(q, b)
         == (Feedback(Next(q.off), if q.off == 0 then c.enc(q.iv) else q.iv),
             XorByte(b, (if q.off == 0 then c.enc(q.iv) else q.iv)[q.off]))
  {
    hide XorByte;
  }

  /** The bytes of an OFB block begun. */
  lemma {:induction false} WithinOfbBlock(c: Cipher, iv: Block, p: Block, k: nat)
    requires 0 < k <= 16
    ensures Run(OfbStep(c), Feedback(0, iv), p[..k]) == (Feedback(k % 16, c.enc(iv)), XorBytes(p, c.enc(iv))[..k])
  {
    hide XorByte, Run, OfbStep;
    var e := XorBytes(p, c.enc(iv));
    assert e[k - 1] == XorByte(p[k - 1], c.enc(iv)[k - 1]) && Next(k - 1) == k % 16;
    RunOne(OfbStep(c), Feedback(0, iv), p, k - 1);
    if k == 1 {
      RunEmpty(OfbStep(c), Feedback(0, iv));
      assert p[..0] == [];
      OfbStepIs(c, Feedback(0, iv), p[0]);
    } else {
      WithinOfbBlock(c, iv, p, k - 1);
      assert (k - 1) % 16 == k - 1;
      OfbStepIs(c, Feedback(k - 1, c.enc(iv)), p[k - 1]);
    }
    assert e[..k - 1] + [e[k - 1]] == e[..k];
  }

  lemma RunEmpty<S>(step: (S, Byte) -> (S, Byte), q: S)
    ensures Run(step, q, []) == (q, [])
  {
  }

  /**
   * Section 6 of NIST SP 800-38A, a whole block: CFB128 yields E(iv) + p and keeps it, OFB yields
   * p + E(iv) and keeps E(iv).
   */
  lemma WholeBlock(c: Cipher, iv: Block, p: Block)
    ensures Run(CfbStep(c, Encrypt), Feedback(0, iv), p)
         == (Feedback(0, XorBytes(c.enc(iv), p)), XorBytes(c.enc(iv), p))
    ensures Run(OfbStep(c), Feedback(0, iv), p) == (Feedback(0, c.enc(iv)), XorBytes(p, c.enc(iv)))
  {
    hide XorByte, XorBytes;
    WithinCfbBlock(c, iv, p, 16);
    WithinOfbBlock(c, iv, p, 16);
    assert p[..16] == p;
    var e := XorBytes(c.enc(iv), p);
    assert e[..16] + c.enc(iv)[16..] == e && e[..16] == e && XorBytes(p, c.enc(iv))[..16] == XorBytes(p, c.enc(iv));
  }

  /** Bit for bit: both modes add E(iv) to the block modulo 2. */
  lemma WholeBlockBits(c: Cipher, iv: Block, p: Block, i: nat, j: nat)
    requires i < 16
    ensures Bit(Run(CfbStep(c, Encrypt), Feedback(0, iv), p).1[i], j) == (Bit(c.enc(iv)[i], j) + Bit(p[i], j)) % 2
    ensures Bit(Run(OfbStep(c), Feedback(0, iv), p).1[i], j) == (Bit(p[i], j) + Bit(c.enc(iv)[i], j)) % 2
  {
    hide Bit, XorBytes, Run, CfbStep, OfbStep;
    WholeBlock(c, iv, p);
    XorBytesBits(c.enc(iv), p, i, j);
    XorBytesBits(p, c.enc(iv), i, j);
  }

  // ---------------------------------------------------------------- the counter of ctr.h

  /** MBEDTLS_GET_UINT32_BE */
  function BeWord(b: Block, i: nat): (x: Limb)
    requires i < 4
  {
    FromBytes(b[4 * i + 3], b[4 * i + 2], b[4 * i + 1], b[4 * i])
  }

  /** MBEDTLS_PUT_UINT32_BE */
  function PutWord(b: Block, i: nat, x: Limb): (r: Block)
    requires i < 4
  {
    b[4 * i := LimbByte(x, 3)][4 * i + 1 := LimbByte(x, 2)][4 * i + 2 := LimbByte(x, 1)][4 * i + 3 := LimbByte(x, 0)]
  }

  lemma GetPut(b: Block, i: nat, x: Limb, j: nat)
    requires i < 4 && j < 4
    ensures BeWord(PutWord(b, i, x), j) == if j == i then x else BeWord(b, j)
  {
    hide FromBytes, LimbByte;
    LimbOfItsBytes(x);
  }

  /** The big-endian number in words 0 to i of a block. */
  function TopVal(b: Block, i: nat): (v: nat)
    requires i < 4
  {
    if i == 0 then BeWord(b, 0) else 0x1_0000_0000 * TopVal(b, i - 1) + BeWord(b, i)
  }

  /** 2^(32 * (i + 1)) */
  function Width(i: nat): (w: nat)
    ensures w > 0
  {
    if i == 0 then 0x1_0000_0000 else if i == 1 then 0x1_0000_0000_0000_0000
    else if i == 2 then 0x1_0000_0000_0000_0000_0000_0000 else TWO_128
  }

  const TWO_128: nat := 0x1_0000_0000_0000_0000_0000_0000_0000_0000

  /** The big-endian number in a block. */
  function BlockVal(b: Block): (v: nat)
  {
    TopVal(b, 3)
  }

  /** The words of the counter make up the big-endian number of its 16 bytes. */
  lemma BlockValIsBigEndian(b: Block)
    ensures BlockVal(b) == BeVal(b)
  {
    TopValIsBigEndian(b, 3);
    assert b[..16] == b;
  }

  lemma {:induction false} TopValIsBigEndian(b: Block, i: nat)
    requires i < 4
    ensures TopVal(b, i) == BeVal(b[..4 * i + 4])
  {
    var n := 4 * i;
    FourMore(b, n);
    if i > 0 {
      TopValIsBigEndian(b, i - 1);
    } else {
      assert b[..0] == [];
    }
  }

  lemma FourMore(b: Block, n: nat)
    requires n + 4 <= 16
    ensures BeVal(b[..n + 4]) == 0x1_0000_0000 * BeVal(b[..n]) + FromBytes(b[n + 3], b[n + 2], b[n + 1], b[n])
  {
    OneMore(b, n);
    OneMore(b, n + 1);
    OneMore(b, n + 2);
    OneMore(b, n + 3);
  }

  lemma OneMore(b: Block, n: nat)
    requires n < 16
    ensures BeVal(b[..n + 1]) == 0x100 * BeVal(b[..n]) + b[n]
  {
    assert b[..n + 1][..n] == b[..n];
  }

  lemma {:induction false} TopValBound(b: Block, i: nat)
    requires i < 4
    ensures TopVal(b, i) < Width(i)
  {
    hide BeWord;
    if i > 0 {
      TopValBound(b, i - 1);
    }
  }

  /** The number determines the block. */
  lemma BlockValInjective(a: Block, b: Block)
    requires BlockVal(a) == BlockVal(b)
    ensures a == b
  {
    hide BeWord;
    SameTopWords(a, b, 3);
    forall k | 0 <= k < 16
      ensures a[k] == b[k]
    {
      SameWord(a, b, k / 4);
    }
  }

  lemma {:induction false} SameTopWords(a: Block, b: Block, i: nat)
    requires i < 4 && TopVal(a, i) == TopVal(b, i)
    ensures forall j :: 0 <= j <= i ==> BeWord(a, j) == BeWord(b, j)
  {
    hide BeWord;
    if i > 0 {
      SameTopWords(a, b, i - 1);
    }
  }

  lemma SameWord(a: Block, b: Block, i: nat)
    requires i < 4 && BeWord(a, i) == BeWord(b, i)
    ensures forall k :: 4 * i <= k < 4 * i + 4 ==> a[k] == b[k]
  {
    hide FromBytes, LimbByte;
    BytesOfLimb(a[4 * i + 3], a[4 * i + 2], a[4 * i + 1], a[4 * i]);
    BytesOfLimb(b[4 * i + 3], b[4 * i + 2], b[4 * i + 1], b[4 * i]);
  }

  /** The loop of mbedtls_ctr_increment_counter from word i up. */
  function IncrementFrom(b: Block, i: nat): (r: Block)
    requires i < 4
    decreases i
  {
    var x := (BeWord(b, i) + 1) % 0x1_0000_0000;
    var r := PutWord(b, i, x);
    if x != 0 || i == 0 then r else IncrementFrom(r, i - 1)
  }

  function Incremented(b: Block): (r: Block)
  {
    IncrementFrom(b, 3)
  }

  lemma {:induction false} TopValPut(b: Block, k: nat, x: Limb, i: nat)
    requires i < k < 4
    ensures TopVal(PutWord(b, k, x), i) == TopVal(b, i)
  {
    hide BeWord, PutWord;
    GetPut(b, k, x, i);
    if i > 0 {
      TopValPut(b, k, x, i - 1);
    }
  }

  /** Counting up word by word is adding one, modulo the width. */
  lemma {:induction false} IncrementFromValue(b: Block, i: nat)
    requires i < 4
    ensures TopVal(IncrementFrom(b, i), i) == (TopVal(b, i) + 1) % Width(i)
    ensures forall j :: i < j < 4 ==> BeWord(IncrementFrom(b, i), j) == BeWord(b, j)
    decreases i
  {
    hide BeWord, PutWord, Width;
    WidthOfOne();
    var x := (BeWord(b, i) + 1) % 0x1_0000_0000;
    var r := PutWord(b, i, x);
    forall j | 0 <= j < 4
      ensures BeWord(r, j) == if j == i then x else BeWord(b, j)
    {
      GetPut(b, i, x, j);
    }
    if i > 0 {
      TopValPut(b, i, x, i - 1);
      TopValBound(b, i - 1);
      if x == 0 {
        IncrementFromValue(r, i - 1);
        CarryUp(TopVal(b, i - 1), i);
        LastOfCarry(BeWord(b, i));
      } else {
        NoCarry(TopVal(b, i - 1), BeWord(b, i), i);
      }
    }
  }

  lemma WidthOfOne()
    ensures Width(0) == 0x1_0000_0000
  {
  }

  lemma LastOfCarry(w: Limb)
    requires (w + 1) % 0x1_0000_0000 == 0
    ensures w == 0xFFFF_FFFF
  {
  }

  lemma NoCarry(t: nat, w: Limb, i: nat)
    requires 0 < i < 4 && t < Width(i - 1) && (w + 1) % 0x1_0000_0000 != 0
    ensures 0x1_0000_0000 * t + (w + 1) % 0x1_0000_0000 == (0x1_0000_0000 * t + w + 1) % Width(i)
  {
    assert w + 1 < 0x1_0000_0000;
    assert (w + 1) % 0x1_0000_0000 == w + 1;
  }

  lemma CarryUp(t: nat, i: nat)
    requires 0 < i < 4 && t < Width(i - 1)
    ensures 0x1_0000_0000 * ((t + 1) % Width(i - 1)) == (0x1_0000_0000 * t + 0xFFFF_FFFF + 1) % Width(i)
  {
    if t + 1 == Width(i - 1) {
      assert (t + 1) % Width(i - 1) == 0;
    }
  }

  lemma IncrementedValue(b: Block)
    ensures BlockVal(Incremented(b)) == (BlockVal(b) + 1) % TWO_128
  {
    IncrementFromValue(b, 3);
  }

  /** mbedtls_ctr_increment_counter */
  method IncrementCounter(n: array<Byte>)
    requires n.Length == 16
    modifies n
    ensures n[..] == Incremented(old(n[..]))
    ensures BlockVal(n[..]) == (BlockVal(old(n[..])) + 1) % TWO_128
  {
    hide BlockVal, BeWord, PutWord;
    ghost var b: Block := n[..];
    IncrementedValue(b);
    var i := 3;
    while true
      invariant 0 <= i < 4 && IncrementFrom(n[..], i) == Incremented(b)
      decreases i
    {
      var x := (BeWord(n[..], i) + 1) % 0x1_0000_0000;
      StoreWord(n, i, x);
      if x != 0 || i == 0 {
        break;
      }
      i := i - 1;
    }
  }

  method StoreWord(n: array<Byte>, i: nat, x: Limb)
    requires n.Length == 16 && i < 4
    modifies n
    ensures n[..] == PutWord(old(n[..]), i, x)
  {
    n[4 * i] := LimbByte(x, 3);
    n[4 * i + 1] := LimbByte(x, 2);
    n[4 * i + 2] := LimbByte(x, 1);
    n[4 * i + 3] := LimbByte(x, 0);
  }

  // ---------------------------------------------------------------- CTR

  /** The counter block, the current stream block and how much of it is used up. */
  datatype Counter = Counter(off: Offset, nonce: Block, stream: Block)

  /** At the start of a block the counter is encrypted and then incremented. */
  function Refilled(c: Cipher, q: Counter): Counter
  {
    if q.off == 0 then Counter(0, Incremented(q.nonce), c.enc(q.nonce)) else q
  }

  function CtrStep(c: Cipher): (Counter, Byte) -> (Counter, Byte)
  {
    (q: Counter, b: Byte) =>
      var r := Refilled(c, q);
      (r.(off := Next(q.off)), XorByte(b, r.stream[q.off]))
  }

  /** The counter after j increments. */
  function CounterAt(nonce: Block, j: nat): (r: Block)
  {
    if j == 0 then nonce else Incremented(CounterAt(nonce, j - 1))
  }

  lemma {:induction false} CounterAtValue(nonce: Block, j: nat)
    ensures BlockVal(CounterAt(nonce, j)) == (BlockVal(nonce) + j) % TWO_128
  {
    hide BlockVal, Incremented;
    if j == 0 {
      hide TopVal;
      BlockValBound(nonce);
    } else {
      CounterAtValue(nonce, j - 1);
      IncrementedValue(CounterAt(nonce, j - 1));
      ModuloNext(BlockVal(nonce) + j - 1);
    }
  }

  lemma BlockValBound(b: Block)
    ensures BlockVal(b) < TWO_128
  {
    TopValBound(b, 3);
  }

  lemma ModuloNext(x: nat)
    ensures (x % TWO_128 + 1) % TWO_128 == (x + 1) % TWO_128
  {
  }

  /** The state n bytes after the start of a block. */
  function CtrState(c: Cipher, q: Counter, n: nat): Counter
  {
    var stream := if n == 0 then q.stream else c.enc(CounterAt(q.nonce, (n - 1) / 16));
    Counter(n % 16, CounterAt(q.nonce, (n + 15) / 16), stream)
  }

  lemma CtrStepAt(c: Cipher, q: Counter, n: nat, b: Byte)
    ensures CtrStep(c)(CtrState(c, q, n), b)
         == (CtrState(c, q, n + 1), XorByte(b, c.enc(CounterAt(q.nonce, n / 16))[n % 16]))
  {
    hide XorByte, Incremented;
    BlockOfByte(n);
    CounterAtNext(q.nonce, n / 16);
    hide CounterAt;
    var r := Refilled(c, CtrState(c, q, n));
    if n % 16 == 0 {
      assert r == Counter(0, CounterAt(q.nonce, n / 16 + 1), c.enc(CounterAt(q.nonce, n / 16)));
    } else {
      assert r == Counter(n % 16, CounterAt(q.nonce, n / 16 + 1), c.enc(CounterAt(q.nonce, n / 16)));
    }
    assert r.(off := Next(n % 16)) == CtrState(c, q, n + 1);
  }

  lemma CounterAtNext(nonce: Block, j: nat)
    ensures CounterAt(nonce, j + 1) == Incremented(CounterAt(nonce, j))
  {
  }

  /** The stream from the start of a block: the state and every byte of the output. */
  lemma {:induction false} CtrRun(c: Cipher, q: Counter, s: Bytes)
    requires q.off == 0
    ensures var (q', out) := Run(CtrStep(c), q, s);
            && q' == CtrState(c, q, |s|)
            && forall k :: 0 <= k < |s| ==> out[k] == XorByte(s[k], c.enc(CounterAt(q.nonce, k / 16))[k % 16])
  {
    hide XorByte, CounterAt, CtrStep, Run;
    if s == [] {
      RunEmpty(CtrStep(c), q);
      CounterAtZero(q.nonce);
    } else {
      var t, b := s[..|s| - 1], s[|s| - 1];
      CtrRun(c, q, t);
      RunSnoc(CtrStep(c), q, t, b);
      CtrStepAt(c, q, |t|, b);
      assert s == t + [b];
    }
  }

  lemma CounterAtZero(nonce: Block)
    ensures CounterAt(nonce, 0) == nonce
  {
  }

  lemma BlockOfByte(n: nat)
    ensures n % 16 == 0 ==> (n + 15) / 16 == n / 16 && (n + 16) / 16 == n / 16 + 1
    ensures n % 16 != 0 ==> (n - 1) / 16 == n / 16 && (n + 15) / 16 == n / 16 + 1 && (n + 16) / 16 == n / 16 + 1
    ensures (n % 16 + 1) % 16 == (n + 1) % 16
  {
  }

  /** Byte k is combined with byte k mod 16 of the encryption of counter + k div 16 modulo 2^128. */
  lemma CtrByte(c: Cipher, q: Counter, s: Bytes, k: nat, counter: Block)
    requires q.off == 0 && k < |s|
    requires BlockVal(counter) == (BlockVal(q.nonce) + k / 16) % TWO_128
    ensures Run(CtrStep(c), q, s).1[k] == XorByte(s[k], c.enc(counter)[k % 16])
  {
    hide XorByte, Incremented, BlockVal, Run;
    CounterAtValue(q.nonce, k / 16);
    BlockValInjective(counter, CounterAt(q.nonce, k / 16));
    CtrRun(c, q, s);
  }

  /** Bit for bit: the key stream is added modulo 2. */
  lemma CtrBits(c: Cipher, q: Counter, s: Bytes, k: nat, counter: Block, j: nat)
    requires q.off == 0 && k < |s|
    requires BlockVal(counter) == (BlockVal(q.nonce) + k / 16) % TWO_128
    ensures Bit(Run(CtrStep(c), q, s).1[k], j) == (Bit(s[k], j) + Bit(c.enc(counter)[k % 16], j)) % 2
  {
    hide Bit, XorByte, BlockVal, Run, CtrStep;
    CtrByte(c, q, s, k, counter);
    XorByteBits(s[k], c.enc(counter)[k % 16], j);
  }

  // ---------------------------------------------------------------- the implementations

  /** mbedtls_aes_crypt_ofb */
  method CryptOfb(c: Cipher, length: nat, ivOff: nat, iv: array<Byte>, input: array<Byte>, output: array<Byte>)
    returns (status: ModeStatus, newOff: nat)
    requires iv.Length == 16 && iv != output && iv != input
    requires length <= input.Length && length <= output.Length
    modifies iv, output
    ensures status == if ivOff > 15 then BadInputData else Success
    ensures if ivOff > 15 then newOff == ivOff && iv[..] == old(iv[..])
            else newOff < 16 && Run(OfbStep(c), Feedback(ivOff, old(iv[..])), old(input[..length]))
                                == (Feedback(newOff, iv[..]), output[..length])
    ensures OnlyWritten(output, 0, if status == Success then length else 0)
  {
    hide Run, XorByte;
    var n: nat := ivOff;
    if n > 15 {
      return BadInputData, ivOff;
    }
    ghost var q := Feedback(n, iv[..]);
    ghost var s := input[..length];
    RunEmpty(OfbStep(c), q);
    assert s[..0] == [] && output[..0] == [];
    var i := 0;
    while i < length
      invariant i <= length && n < 16
      invariant Run(OfbStep(c), q, s[..i]) == (Feedback(n, iv[..]), output[..i])
      invariant input[i..length] == s[i..] && OnlyWritten(output, 0, i)
    {
      RunOne(OfbStep(c), q, s, i);
      assert input[i] == s[i] by {
        assert input[i..length][0] == s[i..][0];
      }
      ghost var before := Feedback(n, iv[..]);
      if n == 0 {
        Store(iv, 0, c.enc(iv[..]));
        assert iv[..] == iv[0..16];
      }
      assert iv[..] == Refreshed(c, before);
      ghost var rest, done := input[i + 1..length], output[..i];
      output[i] := XorByte(input[i], iv[n]);
      assert output[..i + 1] == done + [output[i]];
      assert rest == s[i + 1..] by {
        assert rest == s[i..][1..];
      }
      n := (n + 1) % 16;
      i := i + 1;
    }
    assert s[..length] == s;
    return Success, n;
  }

  /** mbedtls_aes_crypt_cfb128 */
  method CryptCfb128(c: Cipher, mode: Mode, length: nat, ivOff: nat, iv: array<Byte>,
                     input: array<Byte>, output: array<Byte>)
    returns (status: ModeStatus, newOff: nat)
    requires iv.Length == 16 && iv != output && iv != input
    requires length <= input.Length && length <= output.Length
    modifies iv, output
    ensures status == if ivOff > 15 then BadInputData else Success
    ensures if ivOff > 15 then newOff == ivOff && iv[..] == old(iv[..])
            else newOff < 16 && Run(CfbStep(c, mode), Feedback(ivOff, old(iv[..])), old(input[..length]))
                                == (Feedback(newOff, iv[..]), output[..length])
    ensures OnlyWritten(output, 0, if status == Success then length else 0)
  {
    hide Run, XorByte;
    var n: nat := ivOff;
    if n > 15 {
      return BadInputData, ivOff;
    }
    ghost var q := Feedback(n, iv[..]);
    ghost var s := input[..length];
    RunEmpty(CfbStep(c, mode), q);
    assert s[..0] == [] && output[..0] == [];
    var i := 0;
    while i < length
      invariant i <= length && n < 16
      invariant Run(CfbStep(c, mode), q, s[..i]) == (Feedback(n, iv[..]), output[..i])
      invariant input[i..length] == s[i..] && OnlyWritten(output, 0, i)
    {
      RunOne(CfbStep(c, mode), q, s, i);
      assert input[i] == s[i] by {
        assert input[i..length][0] == s[i..][0];
      }
      ghost var before := Feedback(n, iv[..]);
      if n == 0 {
        Store(iv, 0, c.enc(iv[..]));
        assert iv[..] == iv[0..16];
      }
      assert iv[..] == Refreshed(c, before);
      ghost var rest, done, w := input[i + 1..length], output[..i], iv[..];
      if mode == Decrypt {
        var b := input[i];
        output[i] := XorByte(iv[n], b);
        iv[n] := b;
      } else {
        output[i] := XorByte(iv[n], input[i]);
        iv[n] := output[i];
      }
      assert iv[..] == w[n := if mode == Encrypt then output[i] else s[i]];
      assert output[..i + 1] == done + [output[i]];
      assert rest == s[i + 1..] by {
        assert rest == s[i..][1..];
      }
      n := (n + 1) % 16;
      i := i + 1;
    }
    assert s[..length] == s;
    return Success, n;
  }

  lemma XorBytesAppend(x: Bytes, y: Bytes, u: Bytes, v: Bytes)
    requires |x| == |u| && |y| == |v|
    ensures XorBytes(x + y, u + v) == XorBytes(x, u) + XorBytes(y, v)
  {
    hide XorByte;
  }

  lemma XorBytesOne(x: Byte, u: Byte)
    ensures XorBytes([x], [u]) == [XorByte(x, u)]
  {
    hide XorByte;
  }

  /** Within a block the stream is the rest of the stream block. */
  lemma {:induction false} CtrSpan(c: Cipher, q: Counter, s: Bytes)
    requires 0 < q.off && q.off + |s| <= 16
    ensures Run(CtrStep(c), q, s)
         == (q.(off := (q.off + |s|) % 16), XorBytes(s, q.stream[q.off..q.off + |s|]))
  {
    hide XorByte, XorBytes, Run;
    if s == [] {
      RunEmpty(CtrStep(c), q);
    } else {
      var t, b := s[..|s| - 1], s[|s| - 1];
      var k := q.off + |t|;
      CtrSpan(c, q, t);
      RunSnoc(CtrStep(c), q, t, b);
      assert s == t + [b];
      assert CtrStep(c)(q.(off := k), b) == (q.(off := Next(k)), XorByte(b, q.stream[k]));
      XorBytesAppend(t, [b], q.stream[q.off..k], [q.stream[k]]);
      XorBytesOne(b, q.stream[k]);
      assert q.stream[q.off..k + 1] == q.stream[q.off..k] + [q.stream[k]];
    }
  }

  /** Up to the end of a block the stream is the rest of the stream block, made first when needed. */
  lemma CtrPiece(c: Cipher, q: Counter, s: Bytes)
    requires 0 < |s| && q.off + |s| <= 16
    ensures var r := Refilled(c, q);
            Run(CtrStep(c), q, s) == (r.(off := (q.off + |s|) % 16), XorBytes(s, r.stream[q.off..q.off + |s|]))
  {
    hide XorByte, XorBytes, Run, Incremented;
    if q.off > 0 {
      CtrSpan(c, q, s);
    } else {
      var b, t, r := s[0], s[1..], Refilled(c, q);
      RunEmpty(CtrStep(c), q);
      RunSnoc(CtrStep(c), q, [], b);
      RunAppend(CtrStep(c), q, [b], t);
      assert [] + [b] == [b] && [b] + t == s;
      assert CtrStep(c)(q, b) == (r.(off := 1), XorByte(b, r.stream[0]));
      assert [] + [XorByte(b, r.stream[0])] == [XorByte(b, r.stream[0])];
      CtrSpan(c, r.(off := 1), t);
      XorBytesAppend([b], t, [r.stream[0]], r.stream[1..1 + |t|]);
      XorBytesOne(b, r.stream[0]);
      assert r.stream[0..|s|] == [r.stream[0]] + r.stream[1..1 + |t|];
    }
  }

  /** CTR is its own inverse. */
  lemma {:induction false} CtrInverse(c: Cipher, q: Counter, s: Bytes)
    ensures var (q', e) := Run(CtrStep(c), q, s); Run(CtrStep(c), q, e) == (q', s)
  {
    hide XorByte, Incremented;
    if s != [] {
      var t, b := s[..|s| - 1], s[|s| - 1];
      CtrInverse(c, q, t);
      var (p, e) := Run(CtrStep(c), q, t);
      var (p', x) := CtrStep(c)(p, b);
      XorByteCancel(b, Refilled(c, p).stream[p.off]);
      assert CtrStep(c)(p, x) == (p', b);
      RunSnoc(CtrStep(c), q, e, x);
      assert s == t + [b];
    }
  }

  /** mbedtls_xor of n bytes of the input with part of the stream block. */
  method XorInto(output: array<Byte>, input: array<Byte>, at: nat, stream: array<Byte>, offset: nat, n: nat)
    requires at + n <= output.Length && at + n <= input.Length && offset + n <= stream.Length
    modifies output
    ensures output[at..at + n] == XorBytes(old(input[at..at + n]), old(stream[offset..offset + n]))
    ensures OnlyWritten(output, at, n)
  {
    Store(output, at, XorBytes(input[at..at + n], stream[offset..offset + n]));
  }

  /** After i bytes the state and the output are those of the stream. */
  ghost predicate CtrDone(c: Cipher, q: Counter, s: Bytes, i: nat, p: Counter, out: Bytes)
  {
    i <= |s| && Run(CtrStep(c), q, s[..i]) == (p, out)
  }

  lemma CtrStarts(c: Cipher, q: Counter, s: Bytes)
    ensures CtrDone(c, q, s, 0, q, [])
  {
    assert s[..0] == [];
  }

  lemma CtrNext(c: Cipher, q: Counter, s: Bytes, i: nat, p: Counter, out: Bytes, n: nat)
    requires CtrDone(c, q, s, i, p, out) && 0 < n && i + n <= |s| && p.off + n <= 16
    ensures var r := Refilled(c, p);
            CtrDone(c, q, s, i + n, Counter((p.off + n) % 16, r.nonce, r.stream),
                    out + XorBytes(s[i..i + n], r.stream[p.off..p.off + n]))
  {
    hide XorBytes, Run, Incremented, CtrStep;
    CtrPiece(c, p, s[i..i + n]);
    RunAppend(CtrStep(c), q, s[..i], s[i..i + n]);
    assert s[..i + n] == s[..i] + s[i..i + n];
  }

  /** The counter is encrypted to the stream block and then incremented. */
  method NextStreamBlock(c: Cipher, nonce: array<Byte>, stream: array<Byte>)
    requires nonce.Length == 16 && stream.Length == 16 && nonce != stream
    modifies nonce, stream
    ensures stream[..] == c.enc(old(nonce[..])) && nonce[..] == Incremented(old(nonce[..]))
  {
    hide Incremented, BlockVal;
    Store(stream, 0, c.enc(nonce[..]));
    assert stream[..] == stream[0..16];
    IncrementCounter(nonce);
  }

  /** One turn of the loop of mbedtls_aes_crypt_ctr. */
  method CtrTurn(c: Cipher, length: nat, offset: Offset, i: nat, nonce: array<Byte>, stream: array<Byte>,
                 input: array<Byte>, output: array<Byte>)
    returns (n: nat)
    requires nonce.Length == 16 && stream.Length == 16 && nonce != stream
    requires nonce != output && nonce != input && stream != output && stream != input
    requires i < length <= input.Length && length <= output.Length
    modifies nonce, stream, output
    ensures n == if 16 - offset > length - i then length - i else 16 - offset
    ensures var r := Refilled(c, Counter(offset, old(nonce[..]), old(stream[..])));
            && nonce[..] == r.nonce && stream[..] == r.stream
            && output[i..i + n] == XorBytes(old(input[i..i + n]), r.stream[offset..offset + n])
    ensures output[..i] == old(output[..i]) && input[i + n..length] == old(input[i + n..length])
    ensures OnlyWritten(output, i, n)
  {
    hide XorBytes, Incremented;
    n := 16;
    if offset == 0 {
      NextStreamBlock(c, nonce, stream);
    } else {
      n := n - offset;
    }
    if n > length - i {
      n := length - i;
    }
    assert stream[offset..offset + n] == stream[..][offset..offset + n];
    XorInto(output, input, i, stream, offset, n);
  }

  /** mbedtls_aes_crypt_ctr */
  method CryptCtr(c: Cipher, length: nat, ncOff: nat, nonce: array<Byte>, stream: array<Byte>,
                  input: array<Byte>, output: array<Byte>)
    returns (status: ModeStatus, newOff: nat)
    requires nonce.Length == 16 && stream.Length == 16 && nonce != stream
    requires nonce != output && nonce != input && stream != output && stream != input
    requires length <= input.Length && length <= output.Length
    modifies nonce, stream, output
    ensures status == if ncOff > 15 then BadInputData else Success
    ensures if ncOff > 15 then newOff == ncOff && nonce[..] == old(nonce[..]) && stream[..] == old(stream[..])
            else newOff < 16 && Run(CtrStep(c), Counter(ncOff, old(nonce[..]), old(stream[..])), old(input[..length]))
                                == (Counter(newOff, nonce[..], stream[..]), output[..length])
    ensures OnlyWritten(output, 0, if status == Success then length else 0)
  {
    hide Run, XorBytes, CtrDone, CtrStep, Refilled;
    if ncOff > 15 {
      return BadInputData, ncOff;
    }
    var offset: nat := ncOff;
    ghost var q := Counter(ncOff, nonce[..], stream[..]);
    ghost var s := input[..length];
    CtrStarts(c, q, s);
    assert output[..0] == [];
    var i := 0;
    while i < length
      invariant i <= length && offset < 16 && (i < length ==> offset == (ncOff + i) % 16)
      invariant CtrDone(c, q, s, i, Counter((ncOff + i) % 16, nonce[..], stream[..]), output[..i])
      invariant input[i..length] == s[i..] && OnlyWritten(output, 0, i)
    {
      ghost var before, done := Counter(offset, nonce[..], stream[..]), output[..i];
      ghost var m: nat := if 16 - offset > length - i then length - i else 16 - offset;
      NextPiece(input, length, s, i, m);
      CtrNext(c, q, s, i, before, done, m);
      var n := CtrTurn(c, length, offset, i, nonce, stream, input, output);
      assert output[..i + n] == done + output[i..i + n];
      OffsetNext(ncOff, i, n);
      offset := 0;
      i := i + n;
    }
    CtrEnds(c, q, s, Counter((ncOff + length) % 16, nonce[..], stream[..]), output[..length]);
    return Success, (ncOff + length) % 16;
  }

  lemma CtrEnds(c: Cipher, q: Counter, s: Bytes, p: Counter, out: Bytes)
    requires CtrDone(c, q, s, |s|, p, out)
    ensures Run(CtrStep(c), q, s) == (p, out)
  {
    assert s[..|s|] == s;
  }

  /** The next offset, and a piece that does not end the input ends the block. */
  lemma OffsetNext(ncOff: nat, i: nat, n: nat)
    ensures ((ncOff + i) % 16 + n) % 16 == (ncOff + (i + n)) % 16
  {
  }

  // ---------------------------------------------------------------- a message over two calls

  /**
   * Two calls on the halves of a message, with offset, counter and stream block carried over, leave
   * what one call on the whole message leaves, and together yield its output.
   */
  method CtrTwoCalls(c: Cipher, ncOff: Offset, nonce: array<Byte>, stream: array<Byte>,
                     in1: array<Byte>, out1: array<Byte>, in2: array<Byte>, out2: array<Byte>)
    returns (newOff: nat)
    requires nonce.Length == 16 && stream.Length == 16 && nonce != stream
    requires nonce !in {in1, in2, out1, out2} && stream !in {in1, in2, out1, out2}
    requires in1.Length == out1.Length && in2.Length == out2.Length && out1 != in2 && out1 != out2
    modifies nonce, stream, out1, out2
    ensures newOff < 16
            && Run(CtrStep(c), Counter(ncOff, old(nonce[..]), old(stream[..])), old(in1[..] + in2[..]))
               == (Counter(newOff, nonce[..], stream[..]), out1[..] + out2[..])
  {
    hide Run, CtrStep;
    ghost var s, t, q := in1[..], in2[..], Counter(ncOff, nonce[..], stream[..]);
    assert in1[..in1.Length] == s && in2[..in2.Length] == t;
    var status, off := CryptCtr(c, in1.Length, ncOff, nonce, stream, in1, out1);
    ghost var done := out1[..];
    assert out1[..in1.Length] == done && in2[..in2.Length] == t;
    status, newOff := CryptCtr(c, in2.Length, off, nonce, stream, in2, out2);
    assert out2[..in2.Length] == out2[..] && out1[..] == done;
    RunAppend(CtrStep(c), q, s, t);
  }

  /** The same for CFB128 in either direction. */
  method CfbTwoCalls(c: Cipher, mode: Mode, ivOff: Offset, iv: array<Byte>,
                     in1: array<Byte>, out1: array<Byte>, in2: array<Byte>, out2: array<Byte>)
    returns (newOff: nat)
    requires iv.Length == 16 && iv !in {in1, in2, out1, out2}
    requires in1.Length == out1.Length && in2.Length == out2.Length && out1 != in2 && out1 != out2
    modifies iv, out1, out2
    ensures newOff < 16
            && Run(CfbStep(c, mode), Feedback(ivOff, old(iv[..])), old(in1[..] + in2[..]))
               == (Feedback(newOff, iv[..]), out1[..] + out2[..])
  {
    hide Run, CfbStep;
    ghost var s, t, q := in1[..], in2[..], Feedback(ivOff, iv[..]);
    assert in1[..in1.Length] == s && in2[..in2.Length] == t;
    var status, off := CryptCfb128(c, mode, in1.Length, ivOff, iv, in1, out1);
    ghost var done := out1[..];
    assert out1[..in1.Length] == done && in2[..in2.Length] == t;
    status, newOff := CryptCfb128(c, mode, in2.Length, off, iv, in2, out2);
    assert out2[..in2.Length] == out2[..] && out1[..] == done;
    RunAppend(CfbStep(c, mode), q, s, t);
  }

  /** The same for OFB. */
  method OfbTwoCalls(c: Cipher, ivOff: Offset, iv: array<Byte>,
                     in1: array<Byte>, out1: array<Byte>, in2: array<Byte>, out2: array<Byte>)
    returns (newOff: nat)
    requires iv.Length == 16 && iv !in {in1, in2, out1, out2}
    requires in1.Length == out1.Length && in2.Length == out2.Length && out1 != in2 && out1 != out2
    modifies iv, out1, out2
    ensures newOff < 16
            && Run(OfbStep(c), Feedback(ivOff, old(iv[..])), old(in1[..] + in2[..]))
               == (Feedback(newOff, iv[..]), out1[..] + out2[..])
  {
    hide Run, OfbStep;
    ghost var s, t, q := in1[..], in2[..], Feedback(ivOff, iv[..]);
    assert in1[..in1.Length] == s && in2[..in2.Length] == t;
    var status, off := CryptOfb(c, in1.Length, ivOff, iv, in1, out1);
    ghost var done := out1[..];
    assert out1[..in1.Length] == done && in2[..in2.Length] == t;
    status, newOff := CryptOfb(c, in2.Length, off, iv, in2, out2);
    assert out2[..in2.Length] == out2[..] && out1[..] == done;
    RunAppend(OfbStep(c), q, s, t);
  }
}
