/**
 * The slow reference Expansion of exact/exact_tests.cpp: a polynomial in up to 32
 * infinitesimal variables, kept as a hash map from packed monomials to coefficients.
 * A monomial packs the exponent of variable k (0..3) into bits 2k and 2k+1 of a 64-bit word.
 */
module Expansion {

  /** A packed monomial: an unsigned 64-bit word. */
  datatype Monomial = Monomial(bits: bv64)

  /** The int8_t coefficient handed to the constructor. */
  newtype int8 = v: int | -128 <= v < 128

  /** The coefficient map (int64 coefficients, kept unbounded here). */
  type Coeffs = map<Monomial, int>

  datatype Option<T> = None | Some(value: T)

  /** The coefficient of m, 0 when m is not stored. */
  function Coef(x: Coeffs, m: Monomial): int
  {
    if m in x then x[m] else 0
  }

  /** No stored coefficient is zero. */
  ghost predicate Pruned(x: Coeffs)
  {
    forall m | m in x :: x[m] != 0
  }

  /** The 2-bit field k of a word. */
  function Field(w: bv64, k: nat): nat
  {
    if k == 0 then (w & 3) as nat else Field(w >> 2, k - 1)
  }

  /** The exponent of variable k in a monomial. */
  function Degree(a: Monomial, k: nat): nat
  {
    Field(a.bits, k)
  }

  lemma ZeroField(k: nat)
    ensures Field(0, k) == 0
  {
  }

  // ---------------------------------------------------------------------------
  // Expansion(i, v)

  /** Variable i to the first power, as a word: Monomial(1) << 2*i. */
  function VariableWord(i: nat): bv64
    requires i < 32
  {
    1 << (2 * i)
  }

  /** The shift amount 2*i, as the 7-bit amount the shift uses. */
  lemma WordAmount(i: nat)
    requires i < 32
    ensures VariableWord(i) == (1 as bv64) << ((2 * i) as bv7)
    ensures ((2 * i) as bv7) as int == 2 * i
  {
  }

  lemma AmountDown(a: bv7)
    requires 2 <= a
    ensures (a - 2) as int == a as int - 2
  {
  }

  lemma PowerShift(a: bv7)
    requires 2 <= a <= 63
    ensures ((1 as bv64) << a) >> 2 == (1 as bv64) << (a - 2)
  {
  }

  lemma PowerLow(a: bv7)
    requires 2 <= a <= 63
    ensures ((1 as bv64) << a) & 3 == 0
  {
  }

  /** The single bit 2*j lies in field j. */
  lemma {:induction false} PowerFields(a: bv7, j: nat, k: nat)
    requires j < 32 && a as int == 2 * j
    ensures Field((1 as bv64) << a, k) == if k == j then 1 else 0
    decreases k
  {
    if j == 0 {
      assert a == 0;
      if k > 0 {
        assert ((1 as bv64) << a) >> 2 == 0;
        ZeroField(k - 1);
      }
    } else if k == 0 {
      PowerLow(a);
    } else {
      PowerShift(a);
      AmountDown(a);
      PowerFields(a - 2, j - 1, k - 1);
    }
  }

  /** Variable i's word has field i equal to 1 and every other field 0. */
  lemma VariableFields(i: nat, k: nat)
    requires i < 32
    ensures Field(VariableWord(i), k) == if k == i then 1 else 0
  {
    WordAmount(i);
    PowerFields((2 * i) as bv7, i, k);
  }

  /** The monomial of variable i to the first power: exponent 1 in variable i, 0 in every other one. */
  function VariableMonomial(i: nat): (m: Monomial)
    requires i < 32
    ensures forall k: nat :: Degree(m, k) == if k == i then 1 else 0
  {
    forall k: nat ensures Field(VariableWord(i), k) == if k == i then 1 else 0 {
      VariableFields(i, k);
    }
    Monomial(VariableWord(i))
  }

  /**
   * Expansion(i, v) = v + x_i: the constant monomial holds v (stored even when v is 0)
   * and variable i's monomial holds 1. The shift needs i < 32.
   */
  function Variable(i: nat, v: int8): (r: Coeffs)
    requires i < 32
    ensures r.Keys == {Monomial(0), VariableMonomial(i)}
    ensures Coef(r, Monomial(0)) == v as int && Coef(r, VariableMonomial(i)) == 1
  {
    ZeroField(i);
    assert Degree(VariableMonomial(i), i) == 1;
    assert VariableMonomial(i) != Monomial(0);
    map[Monomial(0) := v as int][VariableMonomial(i) := 1]
  }

  // ---------------------------------------------------------------------------
  // operator+ and operator-

  /**
   * x with sign*y[m] added at each monomial m of done (a subset of y's monomials);
   * a monomial of done whose sum is zero is erased, every other monomial of x is kept as is.
   */
  ghost function Combined(x: Coeffs, y: Coeffs, sign: int, done: set<Monomial>): (r: Coeffs)
    requires done <= y.Keys
  {
    map m | m in x.Keys + done && (m in done ==> Coef(x, m) + sign * y[m] != 0)
      :: if m in done then Coef(x, m) + sign * y[m] else x[m]
  }

  lemma CombinedCoef(x: Coeffs, y: Coeffs, sign: int, done: set<Monomial>)
    requires done <= y.Keys
    ensures var r := Combined(x, y, sign, done);
            && (forall m :: Coef(r, m) == if m in done then Coef(x, m) + sign * y[m] else Coef(x, m))
            && (forall m :: m in r <==> if m in done then Coef(x, m) + sign * y[m] != 0 else m in x)
  {
  }

  /**
   * What x + y (sign 1) and x - y (sign -1) compute: coefficientwise sum or difference,
   * zero results erased where y has a term, other monomials of x untouched.
   */
  ghost function Sum(x: Coeffs, y: Coeffs, sign: int): (r: Coeffs)
    ensures forall m :: Coef(r, m) == Coef(x, m) + sign * Coef(y, m)
    ensures forall m | m in y :: m in r <==> Coef(x, m) + sign * y[m] != 0
    ensures forall m | m !in y :: m in r <==> m in x
    ensures Pruned(x) ==> Pruned(r)
  {
    var r := Combined(x, y, sign, y.Keys);
    CombinedCoef(x, y, sign, y.Keys);
    assert forall m :: Coef(r, m) == Coef(x, m) + sign * Coef(y, m) by {
      forall m ensures Coef(r, m) == Coef(x, m) + sign * Coef(y, m) {
        assert m in y ==> Coef(y, m) == y[m];
      }
    }
    r
  }

  /** r with c added at m, the entry erased when the sum is zero. */
  function AddTerm(r: Coeffs, m: Monomial, c: int): Coeffs
  {
    var s := Coef(r, m) + c;
    if s == 0 then r - {m} else r[m := s]
  }

  /** One step of the loop in operator+ / operator-: monomial m of y is folded in. */
  lemma CombinedStep(x: Coeffs, y: Coeffs, sign: int, done: set<Monomial>, m: Monomial)
    requires done <= y.Keys && m in y && m !in done
    ensures Combined(x, y, sign, done + {m}) == AddTerm(Combined(x, y, sign, done), m, sign * y[m])
  {
    var r := Combined(x, y, sign, done);
    var lhs := Combined(x, y, sign, done + {m});
    CombinedCoef(x, y, sign, done);
    CombinedCoef(x, y, sign, done + {m});
    var rhs := AddTerm(r, m, sign * y[m]);
    assert lhs.Keys == rhs.Keys;
    assert forall k | k in lhs :: lhs[k] == Coef(lhs, k) && rhs[k] == Coef(rhs, k);
  }

  lemma CombinedNone(x: Coeffs, y: Coeffs, sign: int)
    ensures Combined(x, y, sign, {}) == x
  {
    var r := Combined(x, y, sign, {});
    assert r.Keys == x.Keys;
  }

  /** The loop shared by operator+ (sign 1) and operator- (sign -1), over y's terms in any order. */
  method Combine(x: Coeffs, y: Coeffs, sign: int) returns (r: Coeffs)
    ensures r == Combined(x, y, sign, y.Keys)
  {
    r := x;
    var rest := y.Keys;
    ghost var done: set<Monomial> := {};
    CombinedNone(x, y, sign);
    while |rest| > 0
      invariant done <= y.Keys && rest <= y.Keys
      invariant forall m :: m in y.Keys ==> (m in done <==> m !in rest)
      invariant r == Combined(x, y, sign, done)
      decreases |rest|
    {
      var m :| m in rest;
      CombinedStep(x, y, sign, done, m);
      r := AddTerm(r, m, sign * y[m]);
      rest := rest - {m};
      done := done + {m};
    }
    assert done == y.Keys by {
      assert |rest| == 0;
    }
  }

  /** x + y. */
  method Add(x: Coeffs, y: Coeffs) returns (r: Coeffs)
    ensures r == Sum(x, y, 1)
  {
    r := Combine(x, y, 1);
  }

  /** x - y. */
  method Sub(x: Coeffs, y: Coeffs) returns (r: Coeffs)
    ensures r == Sum(x, y, -1)
  {
    r := Combine(x, y, -1);
  }

  /** Subtracting what was added gives back every coefficient; on pruned x, x itself. */
  lemma AddThenSub(x: Coeffs, y: Coeffs)
    ensures forall m :: Coef(Sum(Sum(x, y, 1), y, -1), m) == Coef(x, m)
    ensures Pruned(x) ==> Sum(Sum(x, y, 1), y, -1) == x
  {
    var s := Sum(x, y, 1);
    var r := Sum(s, y, -1);
    assert forall m :: Coef(r, m) == Coef(x, m);
    if Pruned(x) {
      forall m ensures m in r <==> m in x {
        if m in y {
          assert m in r <==> Coef(s, m) - y[m] != 0;
          assert Coef(s, m) - y[m] == Coef(x, m);
        } else {
          assert m in r <==> m in s;
        }
      }
      assert r.Keys == x.Keys;
      forall m | m in r ensures r[m] == x[m] {
        assert r[m] == Coef(r, m) && x[m] == Coef(x, m);
      }
      assert r == x;
    }
  }

  // ---------------------------------------------------------------------------
  // add_degrees

  const Odd: bv64 := 0x3333_3333_3333_3333
  const Even: bv64 := 0xcccc_cccc_cccc_cccc

  /** The monomial product of add_degrees: the masked adds of the odd and the even fields. */
  function AddDegrees(a: Monomial, b: Monomial): Monomial
  {
    Monomial(AddDegreesWord(a.bits, b.bits))
  }

  /** The monomial product adds the exponents field by field, each field on its own modulo 4. */
  lemma AddDegreesFields(a: Monomial, b: Monomial)
    ensures forall k: nat | k < 32 :: Degree(AddDegrees(a, b), k) == (Degree(a, k) + Degree(b, k)) % 4
  {
    forall k: nat | k < 32 ensures Field(AddDegreesWord(a.bits, b.bits), k) == (Degree(a, k) + Degree(b, k)) % 4 {
      AddWordFields(a.bits, b.bits, k);
    }
  }

  /** The masked-add expression itself. */
  function AddDegreesWord(a: bv64, b: bv64): bv64
  {
    (((a & Odd) + (b & Odd)) & Odd) + (((a & Even) + (b & Even)) & Even)
  }

  lemma OddShift(p: bv64, q: bv64)
    ensures (((p & Odd) + (q & Odd)) & Odd) >> 4 == (((p >> 4) & Odd) + ((q >> 4) & Odd)) & Odd
  {
  }

  lemma EvenShift(p: bv64, q: bv64)
    ensures (((p & Even) + (q & Even)) & Even) >> 4 == (((p >> 4) & Even) + ((q >> 4) & Even)) & Even
  {
  }

  lemma DisjointShift(x: bv64, y: bv64)
    ensures ((x & Odd) + (y & Even)) >> 4 == ((x & Odd) >> 4) + ((y & Even) >> 4)
  {
  }

  lemma MaskIdempotent(x: bv64)
    ensures (x & Odd) & Odd == x & Odd
    ensures (x & Even) & Even == x & Even
  {
  }

  /** No carry leaves a 4-bit nibble, so shifting by one nibble commutes with the product. */
  lemma ShiftNibble(a: bv64, b: bv64)
    ensures AddDegreesWord(a, b) >> 4 == AddDegreesWord(a >> 4, b >> 4)
  {
    var o := (a & Odd) + (b & Odd);
    var e := (a & Even) + (b & Even);
    MaskIdempotent(o);
    MaskIdempotent(e);
    DisjointShift(o & Odd, e & Even);
    OddShift(a, b);
    EvenShift(a, b);
  }

  lemma LowNibble(a: bv64, b: bv64)
    ensures Field(AddDegreesWord(a, b), 0) == (Field(a, 0) + Field(b, 0)) % 4
    ensures Field(AddDegreesWord(a, b), 1) == (Field(a, 1) + Field(b, 1)) % 4
  {
  }

  lemma FieldShift(a: bv64, k: nat)
    requires 2 <= k
    ensures Field(a, k) == Field(a >> 4, k - 2)
  {
    assert a >> 2 >> 2 == a >> 4;
  }

  lemma FieldsStep(a: bv64, b: bv64, s: bv64, t: bv64, k: nat)
    requires 2 <= k
    requires s >> 4 == t
    requires Field(t, k - 2) == (Field(a >> 4, k - 2) + Field(b >> 4, k - 2)) % 4
    ensures Field(s, k) == (Field(a, k) + Field(b, k)) % 4
  {
    FieldShift(a, k);
    FieldShift(b, k);
    FieldShift(s, k);
  }

  /** Field k of the sum follows from field k - 2 of the sum of the words shifted by one nibble. */
  lemma NibbleStep(a: bv64, b: bv64, k: nat)
    requires 2 <= k
    requires Field(AddDegreesWord(a >> 4, b >> 4), k - 2) == (Field(a >> 4, k - 2) + Field(b >> 4, k - 2)) % 4
    ensures Field(AddDegreesWord(a, b), k) == (Field(a, k) + Field(b, k)) % 4
  {
    ShiftNibble(a, b);
    FieldsStep(a, b, AddDegreesWord(a, b), AddDegreesWord(a >> 4, b >> 4), k);
  }

  lemma LowFields(a: bv64, b: bv64, k: nat)
    requires k < 2
    ensures Field(AddDegreesWord(a, b), k) == (Field(a, k) + Field(b, k)) % 4
  {
    LowNibble(a, b);
  }

  lemma {:induction false} AddWordFields(a: bv64, b: bv64, k: nat)
    requires k < 32
    ensures Field(AddDegreesWord(a, b), k) == (Field(a, k) + Field(b, k)) % 4
    decreases k
  {
    if k < 2 {
      LowFields(a, b, k);
    } else {
      AddWordFields(a >> 4, b >> 4, k - 2);
      NibbleStep(a, b, k);
    }
  }

  /** The monomial product is commutative and has the constant monomial as unit. */
  lemma AddDegreesCommutesUnit(a: Monomial, b: Monomial)
    ensures AddDegrees(a, b) == AddDegrees(b, a)
    ensures AddDegrees(a, Monomial(0)) == a
  {
    assert AddDegreesWord(a.bits, 0) == a.bits;
    assert AddDegreesWord(a.bits, b.bits) == AddDegreesWord(b.bits, a.bits);
  }

  // ---------------------------------------------------------------------------
  // operator*

  type Pair = (Monomial, Monomial)

  /** The contribution of the pair of terms p to monomial m of the product. */
  function Term(x: Coeffs, y: Coeffs, p: Pair, m: Monomial): int
    requires p.0 in x && p.1 in y
  {
    if AddDegrees(p.0, p.1) == m then x[p.0] * y[p.1] else 0
  }

  ghost predicate PairsOf(x: Coeffs, y: Coeffs, ps: set<Pair>)
  {
    forall p | p in ps :: p.0 in x && p.1 in y
  }

  /** The coefficient of m summed over the term pairs ps, in no particular order. */
  ghost function PairSum(x: Coeffs, y: Coeffs, ps: set<Pair>, m: Monomial): int
    requires PairsOf(x, y, ps)
    decreases |ps|
  {
    if ps == {} then 0
    else
      var p :| p in ps;
      Term(x, y, p, m) + PairSum(x, y, ps - {p}, m)
  }

  /** The sum does not depend on the order: any pair can be taken out first. */
  lemma {:induction false} PairSumRemove(x: Coeffs, y: Coeffs, ps: set<Pair>, q: Pair, m: Monomial)
    requires PairsOf(x, y, ps) && q in ps
    ensures PairSum(x, y, ps, m) == Term(x, y, q, m) + PairSum(x, y, ps - {q}, m)
    decreases |ps|
  {
    var p :| p in ps && PairSum(x, y, ps, m) == Term(x, y, p, m) + PairSum(x, y, ps - {p}, m);
    if p != q {
      PairSumRemove(x, y, ps - {p}, q, m);
      PairSumRemove(x, y, ps - {q}, p, m);
      assert ps - {p} - {q} == ps - {q} - {p};
    }
  }

  /** The monomials some pair of ps multiplies to. */
  ghost function Products(ps: set<Pair>): set<Monomial>
  {
    set p | p in ps :: AddDegrees(p.0, p.1)
  }

  ghost function AllPairs(x: Coeffs, y: Coeffs): (ps: set<Pair>)
    ensures PairsOf(x, y, ps)
  {
    set s, t | s in x && t in y :: (s, t)
  }

  /**
   * What x * y computes: each monomial reached by some pair of terms, with the sum of the
   * products of the pairs reaching it, and every zero sum pruned.
   */
  ghost function Product(x: Coeffs, y: Coeffs): (r: Coeffs)
    ensures Pruned(r)
    ensures forall m :: Coef(r, m) == if m in Products(AllPairs(x, y)) then PairSum(x, y, AllPairs(x, y), m) else 0
  {
    var ps := AllPairs(x, y);
    map m | m in Products(ps) && PairSum(x, y, ps, m) != 0 :: PairSum(x, y, ps, m)
  }

  /** A pair of terms added to the accumulated sums. */
  lemma AccumulateStep(x: Coeffs, y: Coeffs, done: set<Pair>, q: Pair)
    requires PairsOf(x, y, done) && q.0 in x && q.1 in y && q !in done
    ensures PairsOf(x, y, done + {q})
    ensures forall m :: PairSum(x, y, done + {q}, m) == Term(x, y, q, m) + PairSum(x, y, done, m)
  {
    forall m ensures PairSum(x, y, done + {q}, m) == Term(x, y, q, m) + PairSum(x, y, done, m) {
      PairSumRemove(x, y, done + {q}, q, m);
      assert done + {q} - {q} == done;
    }
  }

  lemma ProductsStep(done: set<Pair>, q: Pair)
    ensures Products(done + {q}) == Products(done) + {AddDegrees(q.0, q.1)}
  {
  }

  /** The accumulator of operator* after the pairs in done: each product's running sum, zeros kept. */
  ghost predicate Accumulated(x: Coeffs, y: Coeffs, done: set<Pair>, r: Coeffs)
  {
    PairsOf(x, y, done) && r.Keys == Products(done) && forall m | m in r :: r[m] == PairSum(x, y, done, m)
  }

  /** The body of the inner loop of operator*: r[add_degrees(s, t)] += x[s] * y[t]. */
  lemma AccumulatedStep(x: Coeffs, y: Coeffs, done: set<Pair>, r: Coeffs, q: Pair)
    requires Accumulated(x, y, done, r) && q.0 in x && q.1 in y && q !in done
    ensures var m := AddDegrees(q.0, q.1);
            Accumulated(x, y, done + {q}, r[m := Coef(r, m) + x[q.0] * y[q.1]])
  {
    AccumulateStep(x, y, done, q);
    ProductsStep(done, q);
    var m := AddDegrees(q.0, q.1);
    var r' := r[m := Coef(r, m) + x[q.0] * y[q.1]];
    forall k | k in r' ensures r'[k] == PairSum(x, y, done + {q}, k) {
      if k != m {
        assert Term(x, y, q, k) == 0;
        assert k in Products(done);
      } else if m !in r {
        assert m !in Products(done);
        assert PairSum(x, y, done, m) == 0 by {
          ProductsCoverSums(x, y, done, m);
        }
      }
    }
  }

  /** A monomial no pair of ps reaches has sum 0. */
  lemma {:induction false} ProductsCoverSums(x: Coeffs, y: Coeffs, ps: set<Pair>, m: Monomial)
    requires PairsOf(x, y, ps) && m !in Products(ps)
    ensures PairSum(x, y, ps, m) == 0
    decreases |ps|
  {
    if ps != {} {
      var p :| p in ps && PairSum(x, y, ps, m) == Term(x, y, p, m) + PairSum(x, y, ps - {p}, m);
      assert AddDegrees(p.0, p.1) in Products(ps);
      assert Term(x, y, p, m) == 0;
      assert Products(ps - {p}) <= Products(ps);
      ProductsCoverSums(x, y, ps - {p}, m);
      assert PairSum(x, y, ps - {p}, m) == 0;
    }
  }

  /** The pairs the loops have visited: all of x's visited monomials with all of y's, plus s with y's visited ones. */
  ghost predicate Visited(x: Coeffs, y: Coeffs, done: set<Pair>, restX: set<Monomial>, s: Monomial, restY: set<Monomial>)
  {
    forall p :: p in done <==> (p.0 in x && p.0 !in restX && p.1 in y) || (p.0 == s && p.1 in y && p.1 !in restY)
  }

  lemma VisitedStep(x: Coeffs, y: Coeffs, done: set<Pair>, restX: set<Monomial>, s: Monomial, restY: set<Monomial>, t: Monomial)
    requires Visited(x, y, done, restX, s, restY) && s in restX && s in x && t in restY && restY <= y.Keys
    ensures (s, t) !in done
    ensures Visited(x, y, done + {(s, t)}, restX, s, restY - {t})
  {
  }

  lemma VisitedRow(x: Coeffs, y: Coeffs, done: set<Pair>, restX: set<Monomial>, s: Monomial, s0: Monomial)
    requires Visited(x, y, done, restX, s, {}) && s in x
    ensures Visited(x, y, done, restX - {s}, s0, y.Keys)
  {
  }

  lemma AllVisited(x: Coeffs, y: Coeffs, done: set<Pair>, s: Monomial)
    requires Visited(x, y, done, {}, s, y.Keys)
    ensures done == AllPairs(x, y)
  {
    assert forall p :: p in AllPairs(x, y) <==> p.0 in x && p.1 in y;
  }

  /** A row not yet started: which monomial of x it belongs to does not matter. */
  lemma VisitedNone(x: Coeffs, y: Coeffs, done: set<Pair>, restX: set<Monomial>, s0: Monomial, s: Monomial)
    requires Visited(x, y, done, restX, s0, y.Keys)
    ensures Visited(x, y, done, restX, s, y.Keys)
  {
  }

  /** The inner loop of operator*: s paired with every monomial of y. */
  method AccumulateRow(x: Coeffs, y: Coeffs, s: Monomial, r0: Coeffs, ghost done0: set<Pair>, ghost restX: set<Monomial>)
    returns (r: Coeffs, ghost done: set<Pair>)
    requires s in restX && restX <= x.Keys
    requires Visited(x, y, done0, restX, s, y.Keys) && Accumulated(x, y, done0, r0)
    ensures Visited(x, y, done, restX, s, {}) && Accumulated(x, y, done, r)
  {
    r, done := r0, done0;
    var restY := y.Keys;
    while |restY| > 0
      invariant restY <= y.Keys
      invariant Visited(x, y, done, restX, s, restY)
      invariant Accumulated(x, y, done, r)
      decreases |restY|
    {
      var t :| t in restY;
      VisitedStep(x, y, done, restX, s, restY, t);
      AccumulatedStep(x, y, done, r, (s, t));
      var m := AddDegrees(s, t);
      r := r[m := Coef(r, m) + x[s] * y[t]];
      done := done + {(s, t)};
      restY := restY - {t};
    }
  }

  /** The pair loops of operator*: every pair of terms adds its product at add_degrees of its monomials. */
  method Accumulate(x: Coeffs, y: Coeffs) returns (r: Coeffs)
    ensures Accumulated(x, y, AllPairs(x, y), r)
  {
    r := map[];
    ghost var done: set<Pair> := {};
    var restX := x.Keys;
    ghost var s0: Monomial := Monomial(0);
    while |restX| > 0
      invariant restX <= x.Keys
      invariant Visited(x, y, done, restX, s0, y.Keys)
      invariant Accumulated(x, y, done, r)
      decreases |restX|
    {
      var s :| s in restX;
      VisitedNone(x, y, done, restX, s0, s);
      r, done := AccumulateRow(x, y, s, r, done, restX);
      VisitedRow(x, y, done, restX, s, s0);
      restX := restX - {s};
    }
    AllVisited(x, y, done, s0);
  }

  /** The prune loop of operator*: every zero coefficient is erased, the rest kept. */
  method Prune(acc: Coeffs) returns (r: Coeffs)
    ensures r == map m | m in acc && acc[m] != 0 :: acc[m]
  {
    r := acc;
    var rest := acc.Keys;
    while rest != {}
      invariant rest <= acc.Keys
      invariant r == map m | m in acc && (m in rest || acc[m] != 0) :: acc[m]
      decreases |rest|
    {
      var m :| m in rest;
      if r[m] == 0 {
        r := r - {m};
      }
      rest := rest - {m};
    }
  }

  /** x * y. */
  method Mul(x: Coeffs, y: Coeffs) returns (r: Coeffs)
    ensures r == Product(x, y)
  {
    var acc := Accumulate(x, y);
    r := Prune(acc);
  }

  /** The sum over a single pair is that pair's contribution. */
  lemma SinglePairSum(x: Coeffs, y: Coeffs, q: Pair, m: Monomial)
    requires q.0 in x && q.1 in y
    ensures PairsOf(x, y, {q})
    ensures PairSum(x, y, {q}, m) == Term(x, y, q, m)
  {
    PairSumRemove(x, y, {q}, q, m);
    assert {q} - {q} == {};
  }

  /** Two single terms make a single pair. */
  lemma SinglePairs(a: Monomial, c: int, b: Monomial, d: int)
    ensures AllPairs(map[a := c], map[b := d]) == {(a, b)}
  {
  }

  /** The product of two single terms is the single term at their monomial product (when nonzero). */
  lemma MulTerms(a: Monomial, c: int, b: Monomial, d: int)
    ensures Product(map[a := c], map[b := d]) == if c * d == 0 then map[] else map[AddDegrees(a, b) := c * d]
  {
    var x, y := map[a := c], map[b := d];
    var m := AddDegrees(a, b);
    SinglePairs(a, c, b, d);
    SinglePairSum(x, y, (a, b), m);
    assert Products({(a, b)}) == {m};
  }

  // ---------------------------------------------------------------------------
  // positive()

  /** The unsigned value of a monomial, by which positive() orders them. */
  function Rank(m: Monomial): nat
  {
    m.bits as nat
  }

  /** Entry j of the iteration order is smaller than every entry before it. */
  predicate NewMinimum(order: seq<Monomial>, j: int)
    requires 0 <= j < |order|
  {
    forall i | 0 <= i < j :: Rank(order[j]) < Rank(order[i])
  }

  /** Entry at is a smallest one among the first k entries. */
  ghost predicate PrefixMinimum(order: seq<Monomial>, at: int, k: int)
    requires 0 <= at < k <= |order|
  {
    forall i | 0 <= i < k :: Rank(order[at]) <= Rank(order[i])
  }

  /**
   * One step of the scan: entry k is a new minimum exactly when it is below the prefix
   * minimum at index at, and then it is the minimum of the longer prefix; otherwise at stays it.
   */
  lemma PrefixMinimumStep(order: seq<Monomial>, at: int, k: int)
    requires 0 <= at < k < |order| && PrefixMinimum(order, at, k)
    ensures NewMinimum(order, k) <==> Rank(order[k]) < Rank(order[at])
    ensures Rank(order[k]) < Rank(order[at]) ==> PrefixMinimum(order, k, k + 1)
    ensures Rank(order[at]) <= Rank(order[k]) ==> PrefixMinimum(order, at, k + 1)
  {
  }

  /** order enumerates the monomials of x, each once, as the hash map's iteration does. */
  ghost predicate Enumerates(x: Coeffs, order: seq<Monomial>)
  {
    && (forall i, j | 0 <= i < j < |order| :: order[i] != order[j])
    && (forall i | 0 <= i < |order| :: order[i] in x)
    && (forall m | m in x :: m in order)
  }

  /**
   * positive(), with the hash map's iteration order given as order. None is the failed
   * assertion: an empty expansion, or a zero coefficient met at a new minimum after the first
   * entry. Otherwise the result is whether the smallest monomial's coefficient is positive.
   */
  method Positive(x: Coeffs, order: seq<Monomial>) returns (r: Option<bool>)
    requires Enumerates(x, order)
    ensures r.None? <==> |order| == 0 || exists j | 0 < j < |order| :: NewMinimum(order, j) && x[order[j]] == 0
    ensures r.Some? ==> exists j | 0 <= j < |order| ::
              (forall i | 0 <= i < |order| :: Rank(order[j]) <= Rank(order[i])) && (r.value <==> x[order[j]] > 0)
  {
    if |order| == 0 {
      return None;
    }
    var first := order[0];
    ghost var at := 0;
    var positive := x[order[0]] > 0;
    var k := 1;
    while k < |order|
      invariant 1 <= k <= |order| && 0 <= at < k && first == order[at]
      invariant PrefixMinimum(order, at, k)
      invariant positive <==> x[first] > 0
      invariant forall j | 0 < j < k :: NewMinimum(order, j) ==> x[order[j]] != 0
    {
      PrefixMinimumStep(order, at, k);
      if Rank(order[k]) < Rank(first) {
        if x[order[k]] == 0 {
          return None;
        }
        first := order[k];
        at := k;
        positive := x[order[k]] > 0;
      }
      k := k + 1;
    }
    return Some(positive);
  }
}
