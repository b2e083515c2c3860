/**
 * The diffusion layer of ARIA: aria_a of aria.c on four words, and the proof that it is the matrix
 * of RFC 5794, section 2.4.3, that it is its own inverse and that it is additive.
 */
module AriaDiffusion {
  import opened Gf256
  import opened Blocks

  // ---------------------------------------------------------------- the matrix

  function Sum7(a: Byte, b: Byte, c: Byte, d: Byte, e: Byte, f: Byte, g: Byte): Byte
  {
    Add(Add(Add(a, b), Add(c, d)), Add(Add(e, f), g))
  }

  /** RFC 5794, section 2.4.3: every output byte is the sum of seven input bytes x(0) to x(15). */
  function Diffuse(x: Block): (y: Block)
  {
    var Block(Word(x0, x1, x2, x3), Word(x4, x5, x6, x7), Word(x8, x9, x10, x11), Word(x12, x13, x14, x15)) := x;
    Block(Word(Sum7(x3, x4, x6, x8, x9, x13, x14),
               Sum7(x2, x5, x7, x8, x9, x12, x15),
               Sum7(x1, x4, x6, x10, x11, x12, x15),
               Sum7(x0, x5, x7, x10, x11, x13, x14)),
          Word(Sum7(x0, x2, x5, x8, x11, x14, x15),
               Sum7(x1, x3, x4, x9, x10, x14, x15),
               Sum7(x0, x2, x7, x9, x10, x12, x13),
               Sum7(x1, x3, x6, x8, x11, x12, x13)),
          Word(Sum7(x0, x1, x4, x7, x10, x13, x15),
               Sum7(x0, x1, x5, x6, x11, x12, x14),
               Sum7(x2, x3, x5, x6, x8, x13, x15),
               Sum7(x2, x3, x4, x7, x9, x12, x14)),
          Word(Sum7(x1, x2, x6, x7, x9, x11, x12),
               Sum7(x0, x3, x6, x7, x8, x10, x13),
               Sum7(x0, x3, x4, x5, x9, x11, x14),
               Sum7(x1, x2, x4, x5, x8, x10, x15)))
  }

  // ---------------------------------------------------------------- aria_a

  /** ARIA_P1: the bytes of each half change places. */
  function P1(w: Word): Word
  {
    Word(w.b1, w.b0, w.b3, w.b2)
  }

  /** ARIA_P2: the halves change places. */
  function P2(w: Word): Word
  {
    Word(w.b2, w.b3, w.b0, w.b1)
  }

  /** ARIA_P3: the bytes in reverse order. */
  function P3(w: Word): Word
  {
    Word(w.b3, w.b2, w.b1, w.b0)
  }

  /** aria_a, assignment by assignment. */
  function AriaA(x: Block): (y: Block)
  {
    var Block(a0, b0, c0, d0) := x;
    var b1, a1 := a0, P2(b0);
    var tb1, d1 := P2(d0), P1(c0);
    var c1, ta1, tc1 := P1(tb1), Xor(b0, d1), P2(b1);
    var ta2 := Xor(Xor(P1(ta1), tc1), c1);
    var tb2, tc2 := Xor(tb1, P2(d1)), Xor(tc1, P1(a1));
    var b2, tb3 := Xor(b1, Xor(ta2, tb2)), Xor(P2(tb2), ta2);
    var a2, ta3 := Xor(a1, P1(tb3)), P2(ta2);
    var d2, tc3 := Xor(d1, Xor(P1(ta3), tc2)), P2(tc2);
    var c2 := Xor(c1, Xor(P1(tc3), ta3));
    Block(a2, b2, c2, d2)
  }

  // ---------------------------------------------------------------- sums by their terms

  /** Which of w, P1(w), P2(w) and P3(w) occur in a sum. */
  datatype Bits = Bits(e: bool, p1: bool, p2: bool, p3: bool)

  /** Which of these occur in a sum for each of the four words of a block. */
  datatype Terms = Terms(a: Bits, b: Bits, c: Bits, d: Bits)

  function BitsXor(m: Bits, n: Bits): Bits
  {
    Bits(m.e != n.e, m.p1 != n.p1, m.p2 != n.p2, m.p3 != n.p3)
  }

  function TermsXor(m: Terms, n: Terms): Terms
  {
    Terms(BitsXor(m.a, n.a), BitsXor(m.b, n.b), BitsXor(m.c, n.c), BitsXor(m.d, n.d))
  }

  const NOTHING := Word(ZERO, ZERO, ZERO, ZERO)

  function Keep(p: bool, w: Word): Word
  {
    if p then w else NOTHING
  }

  function WordSum4(a: Word, b: Word, c: Word, d: Word): Word
  {
    Xor(Xor(a, b), Xor(c, d))
  }

  lemma WordSum4Add(a: Word, b: Word, c: Word, d: Word, e: Word, f: Word, g: Word, h: Word)
    ensures WordSum4(Xor(a, e), Xor(b, f), Xor(c, g), Xor(d, h)) == Xor(WordSum4(a, b, c, d), WordSum4(e, f, g, h))
  {
    hide Add;
    Sum4Add(a.b0, b.b0, c.b0, d.b0, e.b0, f.b0, g.b0, h.b0);
    Sum4Add(a.b1, b.b1, c.b1, d.b1, e.b1, f.b1, g.b1, h.b1);
    Sum4Add(a.b2, b.b2, c.b2, d.b2, e.b2, f.b2, g.b2, h.b2);
    Sum4Add(a.b3, b.b3, c.b3, d.b3, e.b3, f.b3, g.b3, h.b3);
  }

  function Dot(m: Bits, w: Word): Word
  {
    WordSum4(Keep(m.e, w), Keep(m.p1, P1(w)), Keep(m.p2, P2(w)), Keep(m.p3, P3(w)))
  }

  /** The sum of the terms. */
  function Comb(m: Terms, x: Block): (s: Word)
  {
    WordSum4(Dot(m.a, x.x0), Dot(m.b, x.x1), Dot(m.c, x.x2), Dot(m.d, x.x3))
  }

  lemma KeepAdd(p: bool, q: bool, w: Word)
    ensures Xor(Keep(p, w), Keep(q, w)) == Keep(p != q, w)
  {
    hide Add;
    PickAdd(p, q, w.b0);
    PickAdd(p, q, w.b1);
    PickAdd(p, q, w.b2);
    PickAdd(p, q, w.b3);
  }

  lemma DotAdd(m: Bits, n: Bits, w: Word)
    ensures Xor(Dot(m, w), Dot(n, w)) == Dot(BitsXor(m, n), w)
  {
    hide Xor, Keep, P1, P2, P3;
    KeepAdd(m.e, n.e, w);
    KeepAdd(m.p1, n.p1, P1(w));
    KeepAdd(m.p2, n.p2, P2(w));
    KeepAdd(m.p3, n.p3, P3(w));
    WordSum4Add(Keep(m.e, w), Keep(m.p1, P1(w)), Keep(m.p2, P2(w)), Keep(m.p3, P3(w)),
                Keep(n.e, w), Keep(n.p1, P1(w)), Keep(n.p2, P2(w)), Keep(n.p3, P3(w)));
  }

  /** Sums are added by adding their terms: what occurs twice cancels. */
  lemma CombAdd(m: Terms, n: Terms, x: Block)
    ensures Xor(Comb(m, x), Comb(n, x)) == Comb(TermsXor(m, n), x)
  {
    hide Xor, Dot, BitsXor;
    DotAdd(m.a, n.a, x.x0);
    DotAdd(m.b, n.b, x.x1);
    DotAdd(m.c, n.c, x.x2);
    DotAdd(m.d, n.d, x.x3);
    WordSum4Add(Dot(m.a, x.x0), Dot(m.b, x.x1), Dot(m.c, x.x2), Dot(m.d, x.x3),
                Dot(n.a, x.x0), Dot(n.b, x.x1), Dot(n.c, x.x2), Dot(n.d, x.x3));
  }

  // ---------------------------------------------------------------- byte swaps on terms

  function P1Bits(m: Bits): Bits { Bits(m.p1, m.e, m.p3, m.p2) }
  function P2Bits(m: Bits): Bits { Bits(m.p2, m.p3, m.e, m.p1) }

  function P1Terms(m: Terms): Terms
  {
    Terms(P1Bits(m.a), P1Bits(m.b), P1Bits(m.c), P1Bits(m.d))
  }

  function P2Terms(m: Terms): Terms
  {
    Terms(P2Bits(m.a), P2Bits(m.b), P2Bits(m.c), P2Bits(m.d))
  }

  lemma SwapSum4(a: Word, b: Word, c: Word, d: Word)
    ensures P1(WordSum4(a, b, c, d)) == WordSum4(P1(a), P1(b), P1(c), P1(d))
    ensures P2(WordSum4(a, b, c, d)) == WordSum4(P2(a), P2(b), P2(c), P2(d))
    ensures WordSum4(a, b, c, d) == WordSum4(b, a, d, c) == WordSum4(c, d, a, b)
  {
    hide Add;
    XorCommutes(a, b);
    XorCommutes(c, d);
    XorCommutes(Xor(a, b), Xor(c, d));
  }

  lemma SwapKeep(p: bool, w: Word)
    ensures P1(Keep(p, w)) == Keep(p, P1(w)) && P2(Keep(p, w)) == Keep(p, P2(w))
  {
  }

  lemma SwapTwice(w: Word)
    ensures P1(P1(w)) == w && P1(P2(w)) == P3(w) && P1(P3(w)) == P2(w)
    ensures P2(P1(w)) == P3(w) && P2(P2(w)) == w && P2(P3(w)) == P1(w)
  {
  }

  lemma SwapDot(m: Bits, w: Word)
    ensures P1(Dot(m, w)) == Dot(P1Bits(m), w) && P2(Dot(m, w)) == Dot(P2Bits(m), w)
  {
    hide WordSum4, Keep, P1, P2, P3;
    var e, f, g, h := Keep(m.e, w), Keep(m.p1, P1(w)), Keep(m.p2, P2(w)), Keep(m.p3, P3(w));
    SwapTwice(w);
    SwapSum4(e, f, g, h);
    SwapKeep(m.e, w);
    SwapKeep(m.p1, P1(w));
    SwapKeep(m.p2, P2(w));
    SwapKeep(m.p3, P3(w));
    SwapSum4(P1(e), P1(f), P1(g), P1(h));
    SwapSum4(P2(e), P2(f), P2(g), P2(h));
  }

  lemma SwapComb(m: Terms, x: Block)
    ensures P1(Comb(m, x)) == Comb(P1Terms(m), x) && P2(Comb(m, x)) == Comb(P2Terms(m), x)
  {
    hide WordSum4, Dot, P1, P2, P1Bits, P2Bits;
    SwapDot(m.a, x.x0);
    SwapDot(m.b, x.x1);
    SwapDot(m.c, x.x2);
    SwapDot(m.d, x.x3);
    SwapSum4(Dot(m.a, x.x0), Dot(m.b, x.x1), Dot(m.c, x.x2), Dot(m.d, x.x3));
  }

  // ---------------------------------------------------------------- aria_a on terms

  /** Four rows, one for each word of the result. */
  datatype Rows = Rows(x0: Terms, x1: Terms, x2: Terms, x3: Terms)

  /** The matrix with the given rows, applied to a block. */
  function Apply(m: Rows, x: Block): Block
  {
    Block(Comb(m.x0, x), Comb(m.x1, x), Comb(m.x2, x), Comb(m.x3, x))
  }

  /** The assignments of aria_a on rows. */
  function AriaARows(m: Rows): Rows
  {
    var Rows(a0, b0, c0, d0) := m;
    var b1, a1 := a0, P2Terms(b0);
    var tb1, d1 := P2Terms(d0), P1Terms(c0);
    var c1, ta1, tc1 := P1Terms(tb1), TermsXor(b0, d1), P2Terms(b1);
    var ta2 := TermsXor(TermsXor(P1Terms(ta1), tc1), c1);
    var tb2, tc2 := TermsXor(tb1, P2Terms(d1)), TermsXor(tc1, P1Terms(a1));
    var b2, tb3 := TermsXor(b1, TermsXor(ta2, tb2)), TermsXor(P2Terms(tb2), ta2);
    var a2, ta3 := TermsXor(a1, P1Terms(tb3)), P2Terms(ta2);
    var d2, tc3 := TermsXor(d1, TermsXor(P1Terms(ta3), tc2)), P2Terms(tc2);
    var c2 := TermsXor(c1, TermsXor(P1Terms(tc3), ta3));
    Rows(a2, b2, c2, d2)
  }

  lemma AriaAOnRows(m: Rows, x: Block)
    ensures AriaA(Apply(m, x)) == Apply(AriaARows(m), x)
  {
    hide Xor, P1, P2, TermsXor, P1Terms, P2Terms, Comb;
    var Rows(a0, b0, c0, d0) := m;
    var b1, a1 := a0, P2Terms(b0);
    var tb1, d1 := P2Terms(d0), P1Terms(c0);
    var c1, ta1, tc1 := P1Terms(tb1), TermsXor(b0, d1), P2Terms(b1);
    var ta2 := TermsXor(TermsXor(P1Terms(ta1), tc1), c1);
    var tb2, tc2 := TermsXor(tb1, P2Terms(d1)), TermsXor(tc1, P1Terms(a1));
    var tb3, ta3, tc3 := TermsXor(P2Terms(tb2), ta2), P2Terms(ta2), P2Terms(tc2);
    SwapComb(b0, x);
    SwapComb(c0, x);
    SwapComb(d0, x);
    SwapComb(tb1, x);
    SwapComb(b1, x);
    SwapComb(ta1, x);
    SwapComb(d1, x);
    SwapComb(a1, x);
    SwapComb(tb2, x);
    SwapComb(tb3, x);
    SwapComb(ta2, x);
    SwapComb(ta3, x);
    SwapComb(tc2, x);
    SwapComb(tc3, x);
    CombAdd(b0, d1, x);
    CombAdd(P1Terms(ta1), tc1, x);
    CombAdd(TermsXor(P1Terms(ta1), tc1), c1, x);
    CombAdd(tb1, P2Terms(d1), x);
    CombAdd(tc1, P1Terms(a1), x);
    CombAdd(ta2, tb2, x);
    CombAdd(b1, TermsXor(ta2, tb2), x);
    CombAdd(P2Terms(tb2), ta2, x);
    CombAdd(a1, P1Terms(tb3), x);
    CombAdd(P1Terms(ta3), tc2, x);
    CombAdd(d1, TermsXor(P1Terms(ta3), tc2), x);
    CombAdd(P1Terms(tc3), ta3, x);
    CombAdd(c1, TermsXor(P1Terms(tc3), ta3), x);
  }

  function None(): Bits { Bits(false, false, false, false) }
  function Once(): Bits { Bits(true, false, false, false) }
  function Only1(): Bits { Bits(false, true, false, false) }
  function Only2(): Bits { Bits(false, false, true, false) }
  function Only3(): Bits { Bits(false, false, false, true) }

  /** The words themselves. */
  function Identity(): Rows
  {
    Rows(Terms(Once(), None(), None(), None()), Terms(None(), Once(), None(), None()),
         Terms(None(), None(), Once(), None()), Terms(None(), None(), None(), Once()))
  }

  /** The sums of the comment on aria_a: 0123 is the word a, 1032 is P1(a), 2301 is P2(a), 3210 is P3(a). */
  function Diffusion(): Rows
  {
    Rows(Terms(Only3(), Bits(true, false, true, false), Bits(true, true, false, false), Bits(false, true, true, false)),
         Terms(Bits(true, false, true, false), Only1(), Bits(true, false, false, true), Bits(false, false, true, true)),
         Terms(Bits(true, true, false, false), Bits(true, false, false, true), Only2(), Bits(false, true, false, true)),
         Terms(Bits(false, true, true, false), Bits(false, false, true, true), Bits(false, true, false, true), Once()))
  }

  lemma AriaAOfIdentity()
    ensures AriaARows(Identity()) == Diffusion()
  {
  }

  lemma AriaAOfDiffusion()
    ensures AriaARows(Diffusion()) == Identity()
  {
  }

  lemma AddNothing(w: Word)
    ensures Xor(w, NOTHING) == w && Xor(NOTHING, w) == w
  {
    hide Add;
    AddZero(w.b0);
    AddZero(w.b1);
    AddZero(w.b2);
    AddZero(w.b3);
  }

  lemma DotOnce(w: Word)
    ensures Dot(Once(), w) == w && Dot(None(), w) == NOTHING
  {
    hide Xor, P1, P2, P3;
    AddNothing(w);
    AddNothing(NOTHING);
  }

  lemma IdentityApplies(x: Block)
    ensures Apply(Identity(), x) == x
  {
    hide Xor, Dot, None, Once;
    DotOnce(x.x0);
    DotOnce(x.x1);
    DotOnce(x.x2);
    DotOnce(x.x3);
    AddNothing(NOTHING);
    AddNothing(x.x0);
    AddNothing(x.x1);
    AddNothing(x.x2);
    AddNothing(x.x3);
  }

  // ---------------------------------------------------------------- what aria_a is

  lemma AriaAApplies(x: Block)
    ensures AriaA(x) == Apply(Diffusion(), x)
  {
    hide AriaA, AriaARows, Apply, Identity, Diffusion;
    IdentityApplies(x);
    AriaAOnRows(Identity(), x);
    AriaAOfIdentity();
  }

  /** aria_a is its own inverse. */
  lemma AriaAInvolution(x: Block)
    ensures AriaA(AriaA(x)) == x
  {
    hide AriaA, AriaARows, Apply, Identity, Diffusion;
    AriaAApplies(x);
    AriaAOnRows(Diffusion(), x);
    AriaAOfDiffusion();
    IdentityApplies(x);
  }

  lemma KeepLinear(p: bool, v: Word, w: Word)
    ensures Keep(p, Xor(v, w)) == Xor(Keep(p, v), Keep(p, w))
  {
    hide Xor;
    AddNothing(NOTHING);
  }

  lemma DotLinear(m: Bits, v: Word, w: Word)
    ensures Dot(m, Xor(v, w)) == Xor(Dot(m, v), Dot(m, w))
  {
    hide Xor, Keep, P1, P2, P3;
    SwapXor(v, w);
    KeepLinear(m.e, v, w);
    KeepLinear(m.p1, P1(v), P1(w));
    KeepLinear(m.p2, P2(v), P2(w));
    KeepLinear(m.p3, P3(v), P3(w));
    WordSum4Add(Keep(m.e, v), Keep(m.p1, P1(v)), Keep(m.p2, P2(v)), Keep(m.p3, P3(v)),
                Keep(m.e, w), Keep(m.p1, P1(w)), Keep(m.p2, P2(w)), Keep(m.p3, P3(w)));
  }

  lemma SwapXor(v: Word, w: Word)
    ensures P1(Xor(v, w)) == Xor(P1(v), P1(w)) && P2(Xor(v, w)) == Xor(P2(v), P2(w))
    ensures P3(Xor(v, w)) == Xor(P3(v), P3(w))
  {
    hide Add;
  }

  lemma CombLinear(m: Terms, x: Block, y: Block)
    ensures Comb(m, XorBlock(x, y)) == Xor(Comb(m, x), Comb(m, y))
  {
    hide Xor, Dot;
    DotLinear(m.a, x.x0, y.x0);
    DotLinear(m.b, x.x1, y.x1);
    DotLinear(m.c, x.x2, y.x2);
    DotLinear(m.d, x.x3, y.x3);
    WordSum4Add(Dot(m.a, x.x0), Dot(m.b, x.x1), Dot(m.c, x.x2), Dot(m.d, x.x3),
                Dot(m.a, y.x0), Dot(m.b, y.x1), Dot(m.c, y.x2), Dot(m.d, y.x3));
  }

  /** aria_a commutes with the addition of a round key. */
  lemma AriaALinear(x: Block, y: Block)
    ensures AriaA(XorBlock(x, y)) == XorBlock(AriaA(x), AriaA(y))
  {
    hide AriaA, Comb, Diffusion, Xor;
    AriaAApplies(x);
    AriaAApplies(y);
    AriaAApplies(XorBlock(x, y));
    CombLinear(Diffusion().x0, x, y);
    CombLinear(Diffusion().x1, x, y);
    CombLinear(Diffusion().x2, x, y);
    CombLinear(Diffusion().x3, x, y);
  }

  // ---------------------------------------------------------------- the standard's matrix

  lemma DotTerms(w: Word)
    ensures Dot(Bits(true, false, true, false), w) == Xor(w, P2(w))
    ensures Dot(Bits(true, true, false, false), w) == Xor(w, P1(w))
    ensures Dot(Bits(true, false, false, true), w) == Xor(w, P3(w))
    ensures Dot(Bits(false, true, true, false), w) == Xor(P1(w), P2(w))
    ensures Dot(Bits(false, true, false, true), w) == Xor(P1(w), P3(w))
    ensures Dot(Bits(false, false, true, true), w) == Xor(P2(w), P3(w))
    ensures Dot(Bits(false, true, false, false), w) == P1(w) && Dot(Bits(false, false, true, false), w) == P2(w)
    ensures Dot(Bits(false, false, false, true), w) == P3(w) && Dot(Bits(true, false, false, false), w) == w
  {
    hide Xor, P1, P2, P3;
    AddNothing(w);
    AddNothing(P1(w));
    AddNothing(P2(w));
    AddNothing(P3(w));
    AddNothing(NOTHING);
    AddNothing(Xor(w, P1(w)));
    AddNothing(Xor(P2(w), P3(w)));
  }

  lemma SingleFirst(a: Byte, b: Byte, c: Byte, d: Byte, e: Byte, f: Byte, g: Byte)
    ensures Add(Add(a, Add(b, c)), Add(Add(d, e), Add(f, g))) == Sum7(a, b, c, d, e, f, g)
  {
    hide Add;
    Assoc(a, b, c);
    SingleSecond(a, b, c, d, e, f, g);
  }

  lemma SingleSecond(a: Byte, b: Byte, c: Byte, d: Byte, e: Byte, f: Byte, g: Byte)
    ensures Add(Add(Add(a, b), c), Add(Add(d, e), Add(f, g))) == Sum7(a, b, c, d, e, f, g)
  {
    hide Add;
    var r, s := Add(a, b), Add(f, g);
    Assoc(d, e, s);
    Assoc(Add(r, c), d, Add(e, s));
    Assoc(r, c, d);
    Assoc(e, f, g);
  }

  lemma SingleThird(a: Byte, b: Byte, c: Byte, d: Byte, e: Byte, f: Byte, g: Byte)
    ensures Add(Add(Add(a, b), Add(c, d)), Add(e, Add(f, g))) == Sum7(a, b, c, d, e, f, g)
  {
    hide Add;
    Assoc(e, f, g);
  }

  /** Word 0 of the sums is word 0 of the standard's matrix. */
  lemma RowIsA(x: Block)
    ensures Comb(Diffusion().x0, x) == Diffuse(x).x0
  {
    hide Add, Dot, Sum7;
    DotTerms(x.x0);
    DotTerms(x.x1);
    DotTerms(x.x2);
    DotTerms(x.x3);
    assert Comb(Diffusion().x0, x)
        == WordSum4(P3(x.x0), Xor(x.x1, P2(x.x1)), Xor(x.x2, P1(x.x2)), Xor(P1(x.x3), P2(x.x3)));
    SingleFirst(x.x0.b3, x.x1.b0, x.x1.b2, x.x2.b0, x.x2.b1, x.x3.b1, x.x3.b2);
    AddCommutes(x.x2.b1, x.x2.b0);
    SingleFirst(x.x0.b2, x.x1.b1, x.x1.b3, x.x2.b0, x.x2.b1, x.x3.b0, x.x3.b3);
    AddCommutes(x.x1.b2, x.x1.b0);
    AddCommutes(x.x3.b3, x.x3.b0);
    SingleFirst(x.x0.b1, x.x1.b0, x.x1.b2, x.x2.b2, x.x2.b3, x.x3.b0, x.x3.b3);
    AddCommutes(x.x1.b3, x.x1.b1);
    AddCommutes(x.x2.b3, x.x2.b2);
    AddCommutes(x.x3.b2, x.x3.b1);
    SingleFirst(x.x0.b0, x.x1.b1, x.x1.b3, x.x2.b2, x.x2.b3, x.x3.b1, x.x3.b2);
  }

  /** Word 1 of the sums is word 1 of the standard's matrix. */
  lemma RowIsB(x: Block)
    ensures Comb(Diffusion().x1, x) == Diffuse(x).x1
  {
    hide Add, Dot, Sum7;
    DotTerms(x.x0);
    DotTerms(x.x1);
    DotTerms(x.x2);
    DotTerms(x.x3);
    assert Comb(Diffusion().x1, x)
        == WordSum4(Xor(x.x0, P2(x.x0)), P1(x.x1), Xor(x.x2, P3(x.x2)), Xor(P2(x.x3), P3(x.x3)));
    SingleSecond(x.x0.b0, x.x0.b2, x.x1.b1, x.x2.b0, x.x2.b3, x.x3.b2, x.x3.b3);
    AddCommutes(x.x3.b3, x.x3.b2);
    SingleSecond(x.x0.b1, x.x0.b3, x.x1.b0, x.x2.b1, x.x2.b2, x.x3.b2, x.x3.b3);
    AddCommutes(x.x0.b2, x.x0.b0);
    AddCommutes(x.x2.b2, x.x2.b1);
    SingleSecond(x.x0.b0, x.x0.b2, x.x1.b3, x.x2.b1, x.x2.b2, x.x3.b0, x.x3.b1);
    AddCommutes(x.x0.b3, x.x0.b1);
    AddCommutes(x.x2.b3, x.x2.b0);
    AddCommutes(x.x3.b1, x.x3.b0);
    SingleSecond(x.x0.b1, x.x0.b3, x.x1.b2, x.x2.b0, x.x2.b3, x.x3.b0, x.x3.b1);
  }

  /** Word 2 of the sums is word 2 of the standard's matrix. */
  lemma RowIsC(x: Block)
    ensures Comb(Diffusion().x2, x) == Diffuse(x).x2
  {
    hide Add, Dot, Sum7;
    DotTerms(x.x0);
    DotTerms(x.x1);
    DotTerms(x.x2);
    DotTerms(x.x3);
    assert Comb(Diffusion().x2, x)
        == WordSum4(Xor(x.x0, P1(x.x0)), Xor(x.x1, P3(x.x1)), P2(x.x2), Xor(P1(x.x3), P3(x.x3)));
    SingleThird(x.x0.b0, x.x0.b1, x.x1.b0, x.x1.b3, x.x2.b2, x.x3.b1, x.x3.b3);
    AddCommutes(x.x0.b1, x.x0.b0);
    SingleThird(x.x0.b0, x.x0.b1, x.x1.b1, x.x1.b2, x.x2.b3, x.x3.b0, x.x3.b2);
    AddCommutes(x.x1.b2, x.x1.b1);
    AddCommutes(x.x3.b3, x.x3.b1);
    SingleThird(x.x0.b2, x.x0.b3, x.x1.b1, x.x1.b2, x.x2.b0, x.x3.b1, x.x3.b3);
    AddCommutes(x.x0.b3, x.x0.b2);
    AddCommutes(x.x1.b3, x.x1.b0);
    AddCommutes(x.x3.b2, x.x3.b0);
    SingleThird(x.x0.b2, x.x0.b3, x.x1.b0, x.x1.b3, x.x2.b1, x.x3.b0, x.x3.b2);
  }

  /** Word 3 of the sums is word 3 of the standard's matrix. */
  lemma RowIsD(x: Block)
    ensures Comb(Diffusion().x3, x) == Diffuse(x).x3
  {
    hide Add, Dot;
    DotTerms(x.x0);
    DotTerms(x.x1);
    DotTerms(x.x2);
    DotTerms(x.x3);
    assert Comb(Diffusion().x3, x)
        == WordSum4(Xor(P1(x.x0), P2(x.x0)), Xor(P2(x.x1), P3(x.x1)), Xor(P1(x.x2), P3(x.x2)), x.x3);
    AddCommutes(x.x1.b3, x.x1.b2);
    AddCommutes(x.x0.b3, x.x0.b0);
    AddCommutes(x.x2.b3, x.x2.b1);
    AddCommutes(x.x0.b2, x.x0.b1);
    AddCommutes(x.x1.b1, x.x1.b0);
    AddCommutes(x.x2.b2, x.x2.b0);
  }

  /** aria_a is the diffusion layer of the standard. */
  lemma AriaAIsDiffuse(x: Block)
    ensures AriaA(x) == Diffuse(x)
  {
    hide AriaA, Comb, Diffusion, Diffuse;
    AriaAApplies(x);
    RowIsA(x);
    RowIsB(x);
    RowIsC(x);
    RowIsD(x);
  }
}
