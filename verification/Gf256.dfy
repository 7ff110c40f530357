/**
 Bytes as polynomials over GF(2) modulo x^8 + x^4 + x^3 + x + 1 (FIPS 197, section 4), and the
 column products the AES engine forms with them.
 */
module Gf256 {

  function Add(a: bv8, b: bv8): bv8 {
    a ^ b
  }

  function Sum4(a: bv8, b: bv8, c: bv8, d: bv8): bv8 {
    Add(Add(a, b), Add(c, d))
  }

  /** Multiplication by x: a shift, and 0x1b when the top bit falls out. */
  function Double(v: bv8): bv8 {
    (v << 1) ^ (0x1b & (0 - (v >> 7)))
  }

  function Product(value: bv8, factor: bv8): bv8
    decreases factor as nat
  {
    if factor == 0 then 0
    else
      HalfIsSmaller(factor);
      Add(if factor & 1 != 0 then value else 0, Product(Double(value), factor >> 1))
  }

  lemma HalfIsSmaller(factor: bv8)
    requires factor != 0
    ensures (factor >> 1) as nat < factor as nat
  {
    assert factor >> 1 < factor;
  }

  /** The engine's doubling branches on the top bit. */
  method XTime(value: bv8) returns (r: bv8)
    ensures r == Double(value)
  {
    r := (value << 1) ^ (if value & 0x80 != 0 then 0x1b else 0x00);
  }

  /** The engine's shift-and-add multiplication. */
  method Multiply(value: bv8, factor: bv8) returns (result: bv8)
    ensures result == Product(value, factor)
  {
    result := 0;
    var v, f := value, factor;
    AddZero(Product(value, factor));
    while f != 0
      invariant Add(result, Product(v, f)) == Product(value, factor)
      decreases f as nat
    {
      HalfIsSmaller(f);
      if f & 1 != 0 {
        Assoc(result, v, Product(Double(v), f >> 1));
        result := result ^ v;
      } else {
        AddZero(Product(Double(v), f >> 1));
      }
      v := XTime(v);
      f := f >> 1;
    }
    AddZero(result);
    Comm(result, 0);
  }

  // ---------- addition ----------

  lemma AddZero(v: bv8)
    ensures Add(0, v) == v
  {
  }

  lemma Comm(a: bv8, b: bv8)
    ensures Add(a, b) == Add(b, a)
  {
  }

  lemma Assoc(a: bv8, b: bv8, c: bv8)
    ensures Add(Add(a, b), c) == Add(a, Add(b, c))
  {
  }

  lemma Interchange(a: bv8, b: bv8, c: bv8, d: bv8)
    ensures Sum4(a, b, c, d) == Sum4(a, c, b, d)
  {
    Assoc(a, b, Add(c, d));
    Assoc(b, c, d);
    Comm(b, c);
    Assoc(c, b, d);
    Assoc(a, c, Add(b, d));
  }

  lemma AddSum4(a0: bv8, a1: bv8, a2: bv8, a3: bv8, b0: bv8, b1: bv8, b2: bv8, b3: bv8)
    ensures Add(Sum4(a0, a1, a2, a3), Sum4(b0, b1, b2, b3)) == Sum4(Add(a0, b0), Add(a1, b1), Add(a2, b2), Add(a3, b3))
  {
    Interchange(Add(a0, a1), Add(a2, a3), Add(b0, b1), Add(b2, b3));
    Interchange(a0, a1, b0, b1);
    Interchange(a2, a3, b2, b3);
  }

  /** A sum of four sums may be taken by columns instead of by rows. */
  lemma Transpose(a0: bv8, a1: bv8, a2: bv8, a3: bv8, b0: bv8, b1: bv8, b2: bv8, b3: bv8,
                  c0: bv8, c1: bv8, c2: bv8, c3: bv8, d0: bv8, d1: bv8, d2: bv8, d3: bv8)
    ensures Sum4(Sum4(a0, a1, a2, a3), Sum4(b0, b1, b2, b3), Sum4(c0, c1, c2, c3), Sum4(d0, d1, d2, d3))
         == Sum4(Sum4(a0, b0, c0, d0), Sum4(a1, b1, c1, d1), Sum4(a2, b2, c2, d2), Sum4(a3, b3, c3, d3))
  {
    AddSum4(a0, a1, a2, a3, b0, b1, b2, b3);
    AddSum4(c0, c1, c2, c3, d0, d1, d2, d3);
    AddSum4(Add(a0, b0), Add(a1, b1), Add(a2, b2), Add(a3, b3), Add(c0, d0), Add(c1, d1), Add(c2, d2), Add(c3, d3));
  }

  // ---------- multiplication ----------

  lemma DoubleAdd(a: bv8, b: bv8)
    ensures Double(Add(a, b)) == Add(Double(a), Double(b))
  {
  }

  /** Multiplication distributes over addition. */
  lemma {:induction false} ProductAdd(a: bv8, b: bv8, f: bv8)
    ensures Product(Add(a, b), f) == Add(Product(a, f), Product(b, f))
    decreases f as nat
  {
    if f != 0 {
      HalfIsSmaller(f);
      DoubleAdd(a, b);
      ProductAdd(Double(a), Double(b), f >> 1);
      var x, y := Product(Double(a), f >> 1), Product(Double(b), f >> 1);
      if f & 1 != 0 {
        Interchange(a, b, x, y);
      } else {
        AddZero(x);
        AddZero(y);
        AddZero(Add(x, y));
      }
    }
  }

  lemma Product1(v: bv8)
    ensures Product(v, 1) == v
  {
    assert Product(Double(v), 0) == 0;
  }

  lemma Product2(v: bv8)
    ensures Product(v, 2) == Double(v)
  {
    Product1(Double(v));
    AddZero(Double(v));
  }

  lemma Product3(v: bv8)
    ensures Product(v, 3) == Add(v, Double(v))
  {
    Product1(Double(v));
  }

  lemma Product4(v: bv8)
    ensures Product(v, 4) == Double(Double(v))
  {
    Product2(Double(v));
    AddZero(Double(Double(v)));
  }

  lemma Product5(v: bv8)
    ensures Product(v, 5) == Add(v, Double(Double(v)))
  {
    Product2(Double(v));
  }

  lemma Product6(v: bv8)
    ensures Product(v, 6) == Add(Double(v), Double(Double(v)))
  {
    Product3(Double(v));
    AddZero(Product(Double(v), 3));
  }

  lemma Product7(v: bv8)
    ensures Product(v, 7) == Add(v, Add(Double(v), Double(Double(v))))
  {
    Product3(Double(v));
  }

  lemma Product9(v: bv8)
    ensures Product(v, 0x09) == Add(v, Double(Double(Double(v))))
  {
    Product4(Double(v));
  }

  lemma ProductB(v: bv8)
    ensures Product(v, 0x0b) == Add(v, Add(Double(v), Double(Double(Double(v)))))
  {
    Product5(Double(v));
  }

  lemma ProductD(v: bv8)
    ensures Product(v, 0x0d) == Add(v, Add(Double(Double(v)), Double(Double(Double(v)))))
  {
    Product6(Double(v));
  }

  lemma ProductE(v: bv8)
    ensures Product(v, 0x0e) == Add(Double(v), Add(Double(Double(v)), Double(Double(Double(v)))))
  {
    Product7(Double(v));
    AddZero(Product(Double(v), 7));
  }

  // ---------- columns as polynomials ----------

  /** One coefficient of the product of a column with a fixed polynomial. */
  function Row(a: bv8, b: bv8, c: bv8, d: bv8, p: bv8, q: bv8, r: bv8, s: bv8): bv8 {
    Sum4(Product(a, p), Product(b, q), Product(c, r), Product(d, s))
  }

  /** Row 0 of a column times 03 x^3 + 01 x^2 + 01 x + 02; the other rows by rotation (section 5.1.3). */
  function MixByte(a: bv8, b: bv8, c: bv8, d: bv8): bv8 {
    Row(a, b, c, d, 0x02, 0x03, 0x01, 0x01)
  }

  /** Row 0 of a column times 0b x^3 + 0d x^2 + 09 x + 0e; the other rows by rotation (section 5.3.3). */
  function UnmixByte(a: bv8, b: bv8, c: bv8, d: bv8): bv8 {
    Row(a, b, c, d, 0x0e, 0x0b, 0x0d, 0x09)
  }

  lemma Rotate(a: bv8, b: bv8, c: bv8, d: bv8)
    ensures Sum4(a, b, c, d) == Sum4(d, a, b, c)
  {
    Interchange(a, b, c, d);
    Comm(Add(a, c), Add(b, d));
    Comm(b, d);
    Interchange(d, b, a, c);
  }

  lemma RowTimes(a: bv8, b: bv8, c: bv8, d: bv8, p: bv8, q: bv8, r: bv8, s: bv8, f: bv8)
    ensures Product(Row(a, b, c, d, p, q, r, s), f)
         == Sum4(Product(Product(a, p), f), Product(Product(b, q), f), Product(Product(c, r), f),
             Product(Product(d, s), f))
  {
    var w, x, y, z := Product(a, p), Product(b, q), Product(c, r), Product(d, s);
    ProductAdd(Add(w, x), Add(y, z), f);
    ProductAdd(w, x, f);
    ProductAdd(y, z, f);
  }

  /** What a byte contributes to a coefficient of the product of two polynomials. */
  function Contribution(v: bv8, p: bv8, q: bv8, r: bv8, s: bv8, f: bv8, g: bv8, h: bv8, k: bv8): bv8 {
    Sum4(Product(Product(v, p), f), Product(Product(v, q), g), Product(Product(v, r), h), Product(Product(v, s), k))
  }

  /** Multiplying by one polynomial and then by another, modulo x^4 + 1, contribution by contribution. */
  lemma TwoProducts(a: bv8, b: bv8, c: bv8, d: bv8, p: bv8, q: bv8, r: bv8, s: bv8, f: bv8, g: bv8, h: bv8, k: bv8)
    ensures Row(Row(a, b, c, d, p, q, r, s), Row(b, c, d, a, p, q, r, s),
                Row(c, d, a, b, p, q, r, s), Row(d, a, b, c, p, q, r, s), f, g, h, k)
         == Sum4(Contribution(a, p, s, r, q, f, g, h, k), Contribution(b, q, p, s, r, f, g, h, k),
                 Contribution(c, r, q, p, s, f, g, h, k), Contribution(d, s, r, q, p, f, g, h, k))
  {
    Rotate(Product(b, p), Product(c, q), Product(d, r), Product(a, s));
    Rotate(Product(c, p), Product(d, q), Product(a, r), Product(b, s));
    Rotate(Product(b, s), Product(c, p), Product(d, q), Product(a, r));
    Rotate(Product(d, p), Product(a, q), Product(b, r), Product(c, s));
    Rotate(Product(c, s), Product(d, p), Product(a, q), Product(b, r));
    Rotate(Product(b, r), Product(c, s), Product(d, p), Product(a, q));
    RowTimes(a, b, c, d, p, q, r, s, f);
    RowTimes(a, b, c, d, s, p, q, r, g);
    RowTimes(a, b, c, d, r, s, p, q, h);
    RowTimes(a, b, c, d, q, r, s, p, k);
    Transpose(Product(Product(a, p), f), Product(Product(b, q), f), Product(Product(c, r), f),
        Product(Product(d, s), f),
              Product(Product(a, s), g), Product(Product(b, p), g), Product(Product(c, q), g),
                  Product(Product(d, r), g),
              Product(Product(a, r), h), Product(Product(b, s), h), Product(Product(c, p), h),
                  Product(Product(d, q), h),
              Product(Product(a, q), k), Product(Product(b, r), k), Product(Product(c, s), k),
                  Product(Product(d, p), k));
  }

  // The product of the two polynomials is 1: its four coefficients, in both orders of multiplication.

  lemma MixThenUnmix0(v: bv8)
    ensures Contribution(v, 2, 1, 1, 3, 0x0e, 0x0b, 0x0d, 0x09) == v
  {
    hide Product;
    Product2(v);
    Product1(v);
    Product3(v);
    ProductE(Product(v, 2));
    ProductB(Product(v, 1));
    ProductD(Product(v, 1));
    Product9(Product(v, 3));
  }

  lemma MixThenUnmix1(v: bv8)
    ensures Contribution(v, 3, 2, 1, 1, 0x0e, 0x0b, 0x0d, 0x09) == 0
  {
    hide Product;
    Product3(v);
    Product2(v);
    Product1(v);
    ProductE(Product(v, 3));
    ProductB(Product(v, 2));
    ProductD(Product(v, 1));
    Product9(Product(v, 1));
  }

  lemma MixThenUnmix2(v: bv8)
    ensures Contribution(v, 1, 3, 2, 1, 0x0e, 0x0b, 0x0d, 0x09) == 0
  {
    hide Product;
    Product1(v);
    Product3(v);
    Product2(v);
    ProductE(Product(v, 1));
    ProductB(Product(v, 3));
    ProductD(Product(v, 2));
    Product9(Product(v, 1));
  }

  lemma MixThenUnmix3(v: bv8)
    ensures Contribution(v, 1, 1, 3, 2, 0x0e, 0x0b, 0x0d, 0x09) == 0
  {
    hide Product;
    Product1(v);
    Product3(v);
    Product2(v);
    ProductE(Product(v, 1));
    ProductB(Product(v, 1));
    ProductD(Product(v, 3));
    Product9(Product(v, 2));
  }

  lemma UnmixThenMix0(v: bv8)
    ensures Contribution(v, 0x0e, 0x09, 0x0d, 0x0b, 2, 3, 1, 1) == v
  {
    hide Product;
    ProductE(v);
    Product9(v);
    ProductD(v);
    ProductB(v);
    Product2(Product(v, 0x0e));
    Product3(Product(v, 0x09));
    Product1(Product(v, 0x0d));
    Product1(Product(v, 0x0b));
  }

  lemma UnmixThenMix1(v: bv8)
    ensures Contribution(v, 0x0b, 0x0e, 0x09, 0x0d, 2, 3, 1, 1) == 0
  {
    hide Product;
    ProductB(v);
    ProductE(v);
    Product9(v);
    ProductD(v);
    Product2(Product(v, 0x0b));
    Product3(Product(v, 0x0e));
    Product1(Product(v, 0x09));
    Product1(Product(v, 0x0d));
  }

  lemma UnmixThenMix2(v: bv8)
    ensures Contribution(v, 0x0d, 0x0b, 0x0e, 0x09, 2, 3, 1, 1) == 0
  {
    hide Product;
    ProductD(v);
    ProductB(v);
    ProductE(v);
    Product9(v);
    Product2(Product(v, 0x0d));
    Product3(Product(v, 0x0b));
    Product1(Product(v, 0x0e));
    Product1(Product(v, 0x09));
  }

  lemma UnmixThenMix3(v: bv8)
    ensures Contribution(v, 0x09, 0x0d, 0x0b, 0x0e, 2, 3, 1, 1) == 0
  {
    hide Product;
    Product9(v);
    ProductD(v);
    ProductB(v);
    ProductE(v);
    Product2(Product(v, 0x09));
    Product3(Product(v, 0x0d));
    Product1(Product(v, 0x0b));
    Product1(Product(v, 0x0e));
  }

  lemma LeadingOnly(v: bv8)
    ensures Sum4(v, 0, 0, 0) == v
  {
  }

  lemma UnmixUndoesMix(a: bv8, b: bv8, c: bv8, d: bv8)
    ensures UnmixByte(MixByte(a, b, c, d), MixByte(b, c, d, a), MixByte(c, d, a, b), MixByte(d, a, b, c)) == a
  {
    TwoProducts(a, b, c, d, 2, 3, 1, 1, 0x0e, 0x0b, 0x0d, 0x09);
    MixThenUnmix0(a);
    MixThenUnmix1(b);
    MixThenUnmix2(c);
    MixThenUnmix3(d);
    LeadingOnly(a);
  }

  lemma MixUndoesUnmix(a: bv8, b: bv8, c: bv8, d: bv8)
    ensures MixByte(UnmixByte(a, b, c, d), UnmixByte(b, c, d, a), UnmixByte(c, d, a, b), UnmixByte(d, a, b, c)) == a
  {
    TwoProducts(a, b, c, d, 0x0e, 0x0b, 0x0d, 0x09, 2, 3, 1, 1);
    UnmixThenMix0(a);
    UnmixThenMix1(b);
    UnmixThenMix2(c);
    UnmixThenMix3(d);
    LeadingOnly(a);
  }
}
