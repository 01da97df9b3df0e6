/** Arithmetic in GF(2^8) as FIPS 197 defines it, and the two substitution tables. */
module AesField {

  /** Multiplication by x, section 4.2.1 of FIPS 197, as `xtime` computes it. */
  function XTime(a: bv8): bv8 {
    (a << 1) ^ (((a >> 7) & 1) * 0x1b)
  }

  lemma XTimeLinear(a: bv8, b: bv8)
    ensures XTime(Add(a, b)) == Add(XTime(a), XTime(b))
  {
  }

  function Add(a: bv8, b: bv8): bv8 {
    a ^ b
  }

  function Sum(a: bv8, b: bv8, c: bv8, d: bv8): bv8 {
    Add(Add(Add(a, b), c), d)
  }

  lemma AddOrder(a: bv8, b: bv8, c: bv8)
    ensures Add(a, b) == Add(b, a)
    ensures Add(Add(a, b), c) == Add(a, Add(b, c))
    ensures Add(Add(a, b), b) == a
    ensures Add(a, 0) == a
  {
  }

  /** The term of a product for one bit of the second factor. */
  function Term(b: bv8, k: bv3, multiple: bv8): bv8 {
    ((b >> k) & 1) * multiple
  }

  /** `Multiply`: the product in the field, for second factors of at most five bits. */
  function Multiply(x: bv8, y: bv8): bv8 {
    Add(Sum(Term(y, 0, x), Term(y, 1, XTime(x)), Term(y, 2, XTime(XTime(x))), Term(y, 3, XTime(XTime(XTime(x))))),
        Term(y, 4, XTime(XTime(XTime(XTime(x))))))
  }

  /** The product of two polynomials modulo x^8 + x^4 + x^3 + x + 1. */
  function Product(x: bv8, y: bv8): bv8 {
    var x4 := XTime(XTime(XTime(XTime(x))));
    Multiply(x, y & 15) ^ Multiply(x4, y >> 4)
  }

  /** Row `high` of the S-box, first entry in the highest byte. */
  function SboxRow(high: bv8): bv128 {
    if high == 0 then 0x637c777bf26b6fc53001672bfed7ab76
    else if high == 1 then 0xca82c97dfa5947f0add4a2af9ca472c0
    else if high == 2 then 0xb7fd9326363ff7cc34a5e5f171d83115
    else if high == 3 then 0x04c723c31896059a071280e2eb27b275
    else if high == 4 then 0x09832c1a1b6e5aa0523bd6b329e32f84
    else if high == 5 then 0x53d100ed20fcb15b6acbbe394a4c58cf
    else if high == 6 then 0xd0efaafb434d338545f9027f503c9fa8
    else if high == 7 then 0x51a3408f929d38f5bcb6da2110fff3d2
    else if high == 8 then 0xcd0c13ec5f974417c4a77e3d645d1973
    else if high == 9 then 0x60814fdc222a908846eeb814de5e0bdb
    else if high == 10 then 0xe0323a0a4906245cc2d3ac629195e479
    else if high == 11 then 0xe7c8376d8dd54ea96c56f4ea657aae08
    else if high == 12 then 0xba78252e1ca6b4c6e8dd741f4bbd8b8a
    else if high == 13 then 0x703eb5664803f60e613557b986c11d9e
    else if high == 14 then 0xe1f8981169d98e949b1e87e9ce5528df
    else 0x8ca1890dbfe6426841992d0fb054bb16
  }

  /** The same for the inverse S-box. */
  function RsboxRow(high: bv8): bv128 {
    if high == 0 then 0x52096ad53036a538bf40a39e81f3d7fb
    else if high == 1 then 0x7ce339829b2fff87348e4344c4dee9cb
    else if high == 2 then 0x547b9432a6c2233dee4c950b42fac34e
    else if high == 3 then 0x082ea16628d924b2765ba2496d8bd125
    else if high == 4 then 0x72f8f66486689816d4a45ccc5d65b692
    else if high == 5 then 0x6c704850fdedb9da5e154657a78d9d84
    else if high == 6 then 0x90d8ab008cbcd30af7e45805b8b34506
    else if high == 7 then 0xd02c1e8fca3f0f02c1afbd0301138a6b
    else if high == 8 then 0x3a9111414f67dcea97f2cfcef0b4e673
    else if high == 9 then 0x96ac7422e7ad3585e2f937e81c75df6e
    else if high == 10 then 0x47f11a711d29c5896fb7620eaa18be1b
    else if high == 11 then 0xfc563e4bc6d279209adbc0fe78cd5af4
    else if high == 12 then 0x1fdda8338807c731b11210592780ec5f
    else if high == 13 then 0x60517fa919b54a0d2de57a9f93c99cef
    else if high == 14 then 0xa0e03b4dae2af5b0c8ebbb3c83539961
    else 0x172b047eba77d626e169146355210c7d
  }

  function Entry(row: bv128, low: bv8): bv8
    requires low < 16
  {
    ((row >> (8 * (15 - low))) & 0xff) as bv8
  }

  function Sbox(x: bv8): bv8 {
    Entry(SboxRow(x >> 4), x & 15)
  }

  function Rsbox(x: bv8): bv8 {
    Entry(RsboxRow(x >> 4), x & 15)
  }

  lemma SboxInverse(x: bv8)
    ensures Rsbox(Sbox(x)) == x
  {
    hide Sbox, Rsbox;
    if x < 0x80 { SboxInverseLow(x); } else { SboxInverseHigh(x); }
  }

  lemma SboxInverseLow(x: bv8)
    requires x < 0x80
    ensures Rsbox(Sbox(x)) == x
  {
  }

  lemma SboxInverseHigh(x: bv8)
    requires x >= 0x80
    ensures Rsbox(Sbox(x)) == x
  {
  }

  function Rotate(x: bv8, k: bv3): bv8 {
    (x << k) | (x >> (8 - k as bv4))
  }

  /** The affine transformation of section 5.1.1 of FIPS 197, and its inverse. */
  function Affine(x: bv8): bv8 {
    x ^ Rotate(x, 1) ^ Rotate(x, 2) ^ Rotate(x, 3) ^ Rotate(x, 4) ^ 0x63
  }

  function Unaffine(y: bv8): bv8 {
    Rotate(y, 1) ^ Rotate(y, 3) ^ Rotate(y, 6) ^ 0x05
  }

  /** The table is the one FIPS 197 defines: the multiplicative inverse, zero kept, and then the affine transformation. */
  lemma SboxMeaning(x: bv8)
    ensures Affine(Unaffine(Sbox(x))) == Sbox(x)
    ensures Unaffine(Sbox(0)) == 0
    ensures x != 0 ==> Product(x, Unaffine(Sbox(x))) == 1
  {
    SboxAffine(Sbox(x));
    SboxZero();
    hide Sbox, Affine, Unaffine, Product;
    if x == 0 {
    } else if x < 0x40 { SboxInverts1(x); }
    else if x < 0x80 { SboxInverts2(x); }
    else if x < 0xc0 { SboxInverts3(x); }
    else { SboxInverts4(x); }
  }

  lemma SboxZero()
    ensures Unaffine(Sbox(0)) == 0
  {
  }

  lemma SboxAffine(x: bv8)
    ensures Affine(Unaffine(x)) == x
  {
  }

  lemma SboxInverts1(x: bv8)
    requires 0 < x < 0x40
    ensures Product(x, Unaffine(Sbox(x))) == 1
  {
  }

  lemma SboxInverts2(x: bv8)
    requires 0x40 <= x < 0x80
    ensures Product(x, Unaffine(Sbox(x))) == 1
  {
  }

  lemma SboxInverts3(x: bv8)
    requires 0x80 <= x < 0xc0
    ensures Product(x, Unaffine(Sbox(x))) == 1
  {
  }

  lemma SboxInverts4(x: bv8)
    requires 0xc0 <= x
    ensures Product(x, Unaffine(Sbox(x))) == 1
  {
  }

  // ---------------------------------------------------------------- columns

  /** One byte of `MixColumns`, section 5.1.3 of FIPS 197: the constants are 2, 3, 1 and 1. */
  function MixEntry(a: bv8, b: bv8, c: bv8, d: bv8): bv8 {
    Sum(Multiply(a, 2), Multiply(b, 3), c, d)
  }

  /** One byte of `InvMixColumns`, section 5.3.3: the constants are 14, 11, 13 and 9. */
  function InvMixEntry(a: bv8, b: bv8, c: bv8, d: bv8): bv8 {
    Sum(Multiply(a, 0x0e), Multiply(b, 0x0b), Multiply(c, 0x0d), Multiply(d, 0x09))
  }

  lemma TermLinear(y: bv8, k: bv3, a: bv8, b: bv8)
    ensures Term(y, k, Add(a, b)) == Add(Term(y, k, a), Term(y, k, b))
  {
    assert (y >> k) & 1 == 0 || (y >> k) & 1 == 1;
  }

  lemma AddSwap(a: bv8, b: bv8, c: bv8, d: bv8)
    ensures Add(Add(a, b), Add(c, d)) == Add(Add(a, c), Add(b, d))
  {
    hide Add;
    AddOrder(a, b, Add(c, d));
    AddOrder(b, c, d);
    AddOrder(c, b, d);
    AddOrder(a, c, Add(b, d));
  }

  lemma SumOfSums(p0: bv8, p1: bv8, p2: bv8, p3: bv8, q0: bv8, q1: bv8, q2: bv8, q3: bv8)
    ensures Sum(Add(p0, q0), Add(p1, q1), Add(p2, q2), Add(p3, q3)) == Add(Sum(p0, p1, p2, p3), Sum(q0, q1, q2, q3))
  {
    hide Add;
    AddSwap(p0, q0, p1, q1);
    AddSwap(Add(p0, p1), Add(q0, q1), p2, q2);
    AddSwap(Add(Add(p0, p1), p2), Add(Add(q0, q1), q2), p3, q3);
  }

  lemma MultiplyLinear(a: bv8, b: bv8, y: bv8)
    ensures Multiply(Add(a, b), y) == Add(Multiply(a, y), Multiply(b, y))
  {
    hide Add, Sum, XTime, Term;
    var a1, b1 := XTime(a), XTime(b);
    var a2, b2 := XTime(a1), XTime(b1);
    var a3, b3 := XTime(a2), XTime(b2);
    XTimeLinear(a, b);
    XTimeLinear(a1, b1);
    XTimeLinear(a2, b2);
    XTimeLinear(a3, b3);
    TermLinear(y, 0, a, b);
    TermLinear(y, 1, a1, b1);
    TermLinear(y, 2, a2, b2);
    TermLinear(y, 3, a3, b3);
    TermLinear(y, 4, XTime(a3), XTime(b3));
    SumOfSums(Term(y, 0, a), Term(y, 1, a1), Term(y, 2, a2), Term(y, 3, a3),
              Term(y, 0, b), Term(y, 1, b1), Term(y, 2, b2), Term(y, 3, b3));
    AddSwap(Sum(Term(y, 0, a), Term(y, 1, a1), Term(y, 2, a2), Term(y, 3, a3)),
            Sum(Term(y, 0, b), Term(y, 1, b1), Term(y, 2, b2), Term(y, 3, b3)),
            Term(y, 4, XTime(a3)), Term(y, 4, XTime(b3)));
  }

  lemma MultiplySum(a: bv8, b: bv8, c: bv8, d: bv8, y: bv8)
    ensures Multiply(Sum(a, b, c, d), y) == Sum(Multiply(a, y), Multiply(b, y), Multiply(c, y), Multiply(d, y))
  {
    hide Multiply, Add;
    MultiplyLinear(Add(Add(a, b), c), d, y);
    MultiplyLinear(Add(a, b), c, y);
    MultiplyLinear(a, b, y);
  }

  lemma OnFirst(a: bv8)
    ensures Sum(Multiply(Multiply(a, 2), 0x0e), Multiply(a, 0x0b), Multiply(a, 0x0d), Multiply(Multiply(a, 3), 9)) == a
  {
  }

  lemma OnSecond(a: bv8)
    ensures Sum(Multiply(Multiply(a, 3), 0x0e), Multiply(Multiply(a, 2), 0x0b), Multiply(a, 0x0d), Multiply(a, 9)) == 0
  {
  }

  lemma OnThird(a: bv8)
    ensures Sum(Multiply(a, 0x0e), Multiply(Multiply(a, 3), 0x0b), Multiply(Multiply(a, 2), 0x0d), Multiply(a, 9)) == 0
  {
  }

  lemma OnFourth(a: bv8)
    ensures Sum(Multiply(a, 0x0e), Multiply(a, 0x0b), Multiply(Multiply(a, 3), 0x0d), Multiply(Multiply(a, 2), 9)) == 0
  {
  }

  /** Sixteen terms summed by rows, as the column of a column meets them, or by columns. */
  lemma Table(a0: bv8, b0: bv8, c0: bv8, d0: bv8, a1: bv8, b1: bv8, c1: bv8, d1: bv8,
              a2: bv8, b2: bv8, c2: bv8, d2: bv8, a3: bv8, b3: bv8, c3: bv8, d3: bv8)
    ensures Sum(Sum(a0, b0, c0, d0), Sum(b1, c1, d1, a1), Sum(c2, d2, a2, b2), Sum(d3, a3, b3, c3))
      == Sum(Sum(a0, a1, a2, a3), Sum(b0, b1, b2, b3), Sum(c0, c1, c2, c3), Sum(d0, d1, d2, d3))
  {
    Turn(a1, b1, c1, d1);
    Turn(a2, b2, c2, d2);
    Turn(a3, b3, c3, d3);
    SumOfSums(a0, b0, c0, d0, a1, b1, c1, d1);
    SumOfSums(a2, b2, c2, d2, a3, b3, c3, d3);
    SumOfSums(Add(a0, a1), Add(b0, b1), Add(c0, c1), Add(d0, d1), Add(a2, a3), Add(b2, b3), Add(c2, c3), Add(d2, d3));
    Paired(a0, a1, a2, a3);
    Paired(b0, b1, b2, b3);
    Paired(c0, c1, c2, c3);
    Paired(d0, d1, d2, d3);
    Paired(Sum(a0, b0, c0, d0), Sum(a1, b1, c1, d1), Sum(a2, b2, c2, d2), Sum(a3, b3, c3, d3));
    hide Add, Sum;
  }

  lemma Paired(a: bv8, b: bv8, c: bv8, d: bv8)
    ensures Sum(a, b, c, d) == Add(Add(a, b), Add(c, d))
  {
    hide Add;
    AddOrder(Add(a, b), c, d);
  }

  lemma Turn(a: bv8, b: bv8, c: bv8, d: bv8)
    ensures Sum(b, c, d, a) == Sum(c, d, a, b) == Sum(d, a, b, c) == Sum(a, b, c, d)
  {
    TurnOnce(a, b, c, d);
    TurnOnce(b, c, d, a);
    TurnOnce(c, d, a, b);
    hide Sum;
  }

  lemma TurnOnce(a: bv8, b: bv8, c: bv8, d: bv8)
    ensures Sum(b, c, d, a) == Sum(a, b, c, d)
  {
    hide Add;
    AddOrder(Add(Add(b, c), d), a, 0);
    AddOrder(a, Add(b, c), d);
    AddOrder(a, b, c);
  }

  /** The matrix of section 5.3.3 is the inverse of that of section 5.1.3. */
  lemma InvMixMix(a: bv8, b: bv8, c: bv8, d: bv8)
    ensures InvMixEntry(MixEntry(a, b, c, d), MixEntry(b, c, d, a), MixEntry(c, d, a, b), MixEntry(d, a, b, c)) == a
  {
    hide Multiply, Sum;
    MultiplySum(Multiply(a, 2), Multiply(b, 3), c, d, 0x0e);
    MultiplySum(Multiply(b, 2), Multiply(c, 3), d, a, 0x0b);
    MultiplySum(Multiply(c, 2), Multiply(d, 3), a, b, 0x0d);
    MultiplySum(Multiply(d, 2), Multiply(a, 3), b, c, 0x09);
    OnFirst(a);
    OnSecond(b);
    OnThird(c);
    OnFourth(d);
    SumZero(a);
    Table(Multiply(Multiply(a, 2), 0x0e), Multiply(Multiply(b, 3), 0x0e), Multiply(c, 0x0e), Multiply(d, 0x0e),
          Multiply(a, 0x0b), Multiply(Multiply(b, 2), 0x0b), Multiply(Multiply(c, 3), 0x0b), Multiply(d, 0x0b),
          Multiply(a, 0x0d), Multiply(b, 0x0d), Multiply(Multiply(c, 2), 0x0d), Multiply(Multiply(d, 3), 0x0d),
          Multiply(Multiply(a, 3), 0x09), Multiply(b, 0x09), Multiply(c, 0x09), Multiply(Multiply(d, 2), 0x09));
  }

  lemma SumZero(a: bv8)
    ensures Sum(a, 0, 0, 0) == a
  {
  }

  /** `MixColumns` adds to each byte the sum of its column and twice its sum with the next. */
  function Blend(x: bv8, y: bv8, all: bv8): bv8 {
    x ^ (XTime(x ^ y) ^ all)
  }

  lemma BlendMixes(a: bv8, b: bv8, c: bv8, d: bv8)
    ensures Blend(a, b, Sum(a, b, c, d)) == MixEntry(a, b, c, d)
  {
    Twice(a);
    Twice(b);
    XTimeLinear(a, b);
    Shared(a, b, c, d, XTime(a), XTime(b));
    hide Multiply, XTime, Sum;
    assert a ^ b == Add(a, b) && XTime(a) ^ XTime(b) == Add(XTime(a), XTime(b));
  }

  lemma Twice(a: bv8)
    ensures Multiply(a, 2) == XTime(a)
    ensures Multiply(a, 3) == Add(a, XTime(a))
  {
  }

  lemma Shared(a: bv8, b: bv8, c: bv8, d: bv8, xa: bv8, xb: bv8)
    ensures a ^ ((xa ^ xb) ^ Sum(a, b, c, d)) == Sum(xa, Add(b, xb), c, d)
  {
    SharedBits(a, b, c, d, xa, xb);
  }

  lemma SharedBits(a: bv8, b: bv8, c: bv8, d: bv8, xa: bv8, xb: bv8)
    ensures a ^ ((xa ^ xb) ^ (a ^ b ^ c ^ d)) == xa ^ (b ^ xb) ^ c ^ d
  {
  }
}
