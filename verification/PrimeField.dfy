/**
 The field GF(2^61 - 1) in which secrets are shared.

 The code inverts by raising to the power p - 2. That this is an inverse for every
 nonzero residue is a fact about this one modulus, and it is proved here from a
 certificate: for every prime power n dividing p - 1 exactly, an element of order n.
 The product of these elements has order p - 1, so its powers are all the nonzero
 residues, and each of them has (p - 1)-st power one.
 */
module PrimeField {

  /** 2^61 - 1 */
  const P: nat := 2305843009213693951

  ghost predicate Cong(a: int, b: int) {
    exists k :: TimesP(k) == a - b
  }

  function TimesP(k: int): int {
    k * P
  }

  function Exp(b: int, e: nat): int {
    if e == 0 then 1 else b * Exp(b, e - 1)
  }

  // ---------------------------------------------------------------- congruences

  lemma CongFrom(a: int, b: int, k: int)
    requires a - b == k * P
    ensures Cong(a, b)
  {
    assert TimesP(k) == a - b;
  }

  ghost function Quotient(a: int, b: int): (k: int)
    requires Cong(a, b)
    ensures a == b + k * P
  {
    var k :| TimesP(k) == a - b;
    k
  }

  lemma CongMod(a: int, b: int)
    ensures Cong(a, b) <==> a % P == b % P
  {
    if a % P == b % P {
      CongFrom(a, b, a / P - b / P);
    }
    if Cong(a, b) {
      var k := Quotient(a, b);
    }
  }

  lemma CongRefl(a: int)
    ensures Cong(a, a)
  {
    CongFrom(a, a, 0);
  }

  lemma CongSym(a: int, b: int)
    requires Cong(a, b)
    ensures Cong(b, a)
  {
    CongFrom(b, a, -Quotient(a, b));
  }

  lemma CongTrans(a: int, b: int, c: int)
    requires Cong(a, b) && Cong(b, c)
    ensures Cong(a, c)
  {
    CongFrom(a, c, Quotient(a, b) + Quotient(b, c));
  }

  lemma CongAdd(a: int, b: int, c: int, d: int)
    requires Cong(a, b) && Cong(c, d)
    ensures Cong(a + c, b + d)
  {
    CongFrom(a + c, b + d, Quotient(a, b) + Quotient(c, d));
  }

  lemma CongMul(a: int, b: int, c: int, d: int)
    requires Cong(a, b) && Cong(c, d)
    ensures Cong(a * c, b * d)
  {
    var i, j := Quotient(a, b), Quotient(c, d);
    ProductDifference(a, b, c, d, i, j);
    CongFrom(a * c, b * d, i * c + b * j);
  }

  lemma ProductDifference(a: int, b: int, c: int, d: int, i: int, j: int)
    requires a == b + i * P && c == d + j * P
    ensures a * c - b * d == (i * c + b * j) * P
  {
    assert a * c == b * c + i * c * P;
    assert b * c == b * d + b * j * P;
  }

  /** A factor congruent to one can be dropped. */
  lemma CongDrop(x: int, y: int)
    requires Cong(x, 1)
    ensures Cong(x * y, y)
  {
    CongRefl(y);
    CongMul(x, 1, y, y);
  }

  lemma {:induction false} CongExp(a: int, b: int, n: nat)
    requires Cong(a, b)
    ensures Cong(Exp(a, n), Exp(b, n))
  {
    if n == 0 {
      CongRefl(1);
    } else {
      CongExp(a, b, n - 1);
      CongMul(a, b, Exp(a, n - 1), Exp(b, n - 1));
    }
  }

  lemma CongResidue(a: int)
    ensures Cong(a % P, a)
  {
    CongFrom(a % P, a, -(a / P));
  }

  // ---------------------------------------------------------------- powers

  lemma {:induction false} ExpAdd(b: int, m: nat, n: nat)
    ensures Exp(b, m + n) == Exp(b, m) * Exp(b, n)
  {
    if m > 0 {
      ExpAdd(b, m - 1, n);
      Associate(b, Exp(b, m - 1), Exp(b, n));
    }
  }

  lemma Associate(a: int, b: int, c: int)
    ensures a * (b * c) == (a * b) * c
  {
  }

  lemma Regroup(a: int, b: int, x: int, y: int)
    ensures a * b * (x * y) == (a * x) * (b * y)
  {
  }

  lemma {:induction false} ExpProduct(a: int, b: int, n: nat)
    ensures Exp(a * b, n) == Exp(a, n) * Exp(b, n)
  {
    if n > 0 {
      ExpProduct(a, b, n - 1);
      Regroup(a, b, Exp(a, n - 1), Exp(b, n - 1));
    }
  }

  lemma {:induction false} ExpExp(b: int, m: nat, n: nat)
    ensures m * n >= 0 && Exp(b, m * n) == Exp(Exp(b, m), n)
  {
    if n > 0 {
      ExpExp(b, m, n - 1);
      assert m * n == m + m * (n - 1);
      ExpAdd(b, m, m * (n - 1));
    }
  }

  lemma {:induction false} ExpOne(n: nat)
    ensures Exp(1, n) == 1
  {
    if n > 0 {
      ExpOne(n - 1);
    }
  }

  /** If b^m is one, so is b^(m n). */
  lemma ExpMultipleIsOne(b: int, m: nat, n: nat)
    requires Cong(Exp(b, m), 1)
    ensures m * n >= 0 && Cong(Exp(b, m * n), 1)
  {
    ExpExp(b, m, n);
    CongExp(Exp(b, m), 1, n);
    ExpOne(n);
  }

  lemma ExpHalf(b: int, e: nat)
    ensures Exp(b, e) == if e % 2 == 0 then Exp(b * b, e / 2) else b * Exp(b * b, e / 2)
  {
    var h := e / 2;
    ExpProduct(b, b, h);
    ExpAdd(b, h, h);
    assert e == h + h || e == h + h + 1;
  }

  /** The residues met on the way from a^e to a^n by squaring and by multiplying by a. */
  datatype Ladder = Top | Squared(r: int, up: Ladder) | Times(r: int, up: Ladder)

  /** The ladder climbs from a^e = r to a^n = z. */
  ghost predicate Climbs(a: int, e: nat, r: int, n: nat, z: int, l: Ladder)
    decreases l
  {
    match l
    case Top => e == n && r == z
    case Squared(s, up) => s == r * r % P && Climbs(a, 2 * e, s, n, z, up)
    case Times(s, up) => s == r * a % P && Climbs(a, e + 1, s, n, z, up)
  }

  lemma {:induction false} ClimbsIsPower(a: int, e: nat, r: int, n: nat, z: int, l: Ladder)
    requires Climbs(a, e, r, n, z, l) && Cong(Exp(a, e), r)
    ensures Cong(Exp(a, n), z)
    decreases l
  {
    match l
    case Top =>
    case Squared(s, up) =>
      ExpAdd(a, e, e);
      ReducedProduct(Exp(a, e), r, Exp(a, e), r, s);
      ClimbsIsPower(a, 2 * e, s, n, z, up);
    case Times(s, up) =>
      CongRefl(a);
      ReducedProduct(Exp(a, e), r, a, a, s);
      ClimbsIsPower(a, e + 1, s, n, z, up);
  }

  lemma ReducedProduct(x: int, r: int, y: int, t: int, s: int)
    requires Cong(x, r) && Cong(y, t) && s == r * t % P
    ensures Cong(x * y, s)
  {
    CongMul(x, r, y, t);
    CongResidue(r * t);
    CongSym(s, r * t);
    CongTrans(x * y, r * t, s);
  }

  // ---------------------------------------------------------------- orders

  ghost predicate Order(a: int, m: nat) {
    && m > 0
    && Cong(Exp(a, m), 1)
    && forall d: nat :: Cong(Exp(a, d), 1) ==> d % m == 0
  }

  lemma QuotientAndRemainder(d: nat, m: nat) returns (q: nat, r: nat)
    requires m > 0
    ensures d == m * q + r && r == d % m && m * q >= 0
  {
    q, r := d / m, d % m;
  }

  lemma RemainderIsOne(a: int, m: nat, d: nat)
    requires m > 0 && Cong(Exp(a, m), 1) && Cong(Exp(a, d), 1)
    ensures Cong(Exp(a, d % m), 1)
  {
    var q, r := QuotientAndRemainder(d, m);
    ExpMultipleIsOne(a, m, q);
    var mq := m * q;
    ExpAdd(a, mq, r);
    CongDrop(Exp(a, mq), Exp(a, r));
    CongSym(Exp(a, d), Exp(a, r));
    CongTrans(Exp(a, r), Exp(a, d), 1);
  }

  lemma LeastOrder(a: int, n: nat) returns (m: nat)
    requires n > 0 && Cong(Exp(a, n), 1)
    ensures Order(a, m) && n % m == 0 && m <= n
  {
    m := 1;
    while !Cong(Exp(a, m), 1)
      invariant 1 <= m <= n
      invariant forall j: nat :: 1 <= j < m ==> !Cong(Exp(a, j), 1)
      decreases n - m
    {
      m := m + 1;
    }
    forall d: nat | Cong(Exp(a, d), 1)
      ensures d % m == 0
    {
      RemainderIsOne(a, m, d);
    }
  }

  /** Every proper divisor of n divides c. */
  ghost predicate DividesThrough(n: nat, c: nat) {
    forall m: nat :: 0 < m < n && n % m == 0 ==> c % m == 0
  }

  lemma OrderFromDivisors(a: int, n: nat, c: nat)
    requires n > 0 && DividesThrough(n, c)
    requires Cong(Exp(a, n), 1) && !Cong(Exp(a, c), 1)
    ensures Order(a, n)
  {
    var m := LeastOrder(a, n);
    if c % m == 0 {
      PowerAtMultiple(a, m, c);
    }
  }

  lemma PowerAtMultiple(a: int, m: nat, c: nat)
    requires m > 0 && c % m == 0 && Cong(Exp(a, m), 1)
    ensures Cong(Exp(a, c), 1)
  {
    var k, r := QuotientAndRemainder(c, m);
    ExpMultipleIsOne(a, m, k);
  }

  lemma MultipleIsDivisible(m: int, k: int)
    requires m > 0
    ensures (m * k) % m == 0
  {
    var q, r := (m * k) / m, (m * k) % m;
    assert r == m * (k - q);
    assert k - q >= 1 ==> m * (k - q) >= m;
    assert k - q <= -1 ==> m * (k - q) <= -m;
  }

  lemma CancelOne(x: int, y: int)
    requires Cong(y, 1) && Cong(x * y, 1)
    ensures Cong(x, 1)
  {
    CongDrop(y, x);
    CongSym(y * x, x);
    CongTrans(x, x * y, 1);
  }

  lemma DropFactorAt(a: int, b: int, e: nat)
    requires Cong(Exp(b, e), 1) && Cong(Exp(a * b, e), 1)
    ensures Cong(Exp(a, e), 1)
  {
    ExpProduct(a, b, e);
    CancelOne(Exp(a, e), Exp(b, e));
  }

  /** (a b)^d = 1 leaves a^(d n) = 1 when b^n = 1. */
  lemma {:induction false} DropFactor(a: int, b: int, n: nat, d: nat)
    requires Cong(Exp(b, n), 1) && Cong(Exp(a * b, d), 1)
    ensures n * d >= 0 && Cong(Exp(a, n * d), 1)
  {
    ExpMultipleIsOne(b, n, d);
    ExpMultipleIsOne(a * b, d, n);
    assert d * n == n * d;
    DropFactorAt(a, b, n * d);
  }

  /** If s m + t n = 1 and m divides n d then m divides d. */
  lemma CoprimeDivides(m: nat, n: nat, s: int, t: int, d: nat)
    requires m > 0 && s * m + t * n == 1 && (n * d) % m == 0
    ensures d % m == 0
  {
    var k := (n * d) / m;
    assert n * d == m * k;
    calc {
      d;
      (s * m + t * n) * d;
      s * m * d + t * (n * d);
      s * m * d + t * (m * k);
      m * (s * d + t * k);
    }
    MultipleIsDivisible(m, s * d + t * k);
  }

  lemma CoprimeProductDivides(m: nat, n: nat, s: int, t: int, d: nat)
    requires m > 0 && n > 0 && s * m + t * n == 1 && d % m == 0 && d % n == 0
    ensures m * n > 0 && d % (m * n) == 0
  {
    var u, v := d / m, d / n;
    assert d == m * u && d == n * v;
    calc {
      d;
      (s * m + t * n) * d;
      s * m * d + t * n * d;
      s * m * (n * v) + t * n * (m * u);
      (m * n) * (s * v + t * u);
    }
    MultipleIsDivisible(m * n, s * v + t * u);
  }

  /** Elements of coprime orders m and n (s m + t n = 1) multiply to one of order m n. */
  lemma OrderProduct(a: int, m: nat, b: int, n: nat, s: int, t: int)
    requires Order(a, m) && Order(b, n) && s * m + t * n == 1
    ensures m * n > 0 && Order(a * b, m * n)
  {
    var mn := m * n;
    assert Cong(Exp(a * b, mn), 1) by {
      ExpMultipleIsOne(a, m, n);
      ExpMultipleIsOne(b, n, m);
      assert n * m == mn;
      ExpProduct(a, b, mn);
      CongMul(Exp(a, mn), 1, Exp(b, mn), 1);
    }
    assert mn > 0;
    forall d: nat | Cong(Exp(a * b, d), 1)
      ensures d % mn == 0
    {
      assert d % m == 0 by {
        DropFactor(a, b, n, d);
        CoprimeDivides(m, n, s, t, d);
      }
      assert d % n == 0 by {
        assert b * a == a * b;
        DropFactor(b, a, m, d);
        CoprimeDivides(n, m, t, s, d);
      }
      CoprimeProductDivides(m, n, s, t, d);
    }
  }

  // ---------------------------------------------------------------- the certificate

  /** No number from d up to the square root of q divides q. */
  predicate NoDivisor(q: nat, d: nat)
    requires d > 0
    decreases q - d
  {
    d * d > q || d >= q || (q % d != 0 && NoDivisor(q, d + 1))
  }

  lemma {:induction false} NoDivisorBelow(q: nat, d: nat, m: nat)
    requires 0 < d <= m < q && NoDivisor(q, d) && m * m <= q
    ensures q % m != 0
    decreases q - d
  {
    if d < m {
      assert d * d <= m * m;
      NoDivisorBelow(q, d + 1, m);
    }
  }

  lemma TrialDivision(q: nat)
    requires q > 1 && NoDivisor(q, 2)
    ensures DividesThrough(q, 1)
  {
    forall m: nat | 0 < m < q && q % m == 0
      ensures 1 % m == 0
    {
      if m > 1 {
        var k := q / m;
        assert q == m * k;
        if m * m <= q {
          NoDivisorBelow(q, 2, m);
        } else {
          CofactorIsSmall(q, m, k);
          NoDivisorBelow(q, 2, k);
        }
        assert false;
      }
    }
  }

  lemma CofactorIsSmall(q: nat, m: nat, k: nat)
    requires q == m * k && 1 < m < q < m * m
    ensures 1 < k < q && q % k == 0 && k * k <= q
  {
    assert k >= m ==> m * k >= m * m;
    assert k <= 1 ==> m * k <= m;
    assert k * k <= m * k;
    assert q == k * m;
    MultipleIsDivisible(k, m);
  }

  lemma NotOne(r: int, x: int)
    requires 1 < r < P && Cong(x, r)
    ensures !Cong(x, 1)
  {
    CongMod(x, r);
    CongMod(x, 1);
  }

  lemma ClimbedFromOne(a: int, n: nat, z: int, l: Ladder)
    requires Climbs(a, 1, a, n, z, l)
    ensures Cong(Exp(a, 1), a) && Cong(Exp(a, n), z)
  {
    assert Exp(a, 1) == a * Exp(a, 0) == a;
    CongRefl(a);
    ClimbsIsPower(a, 1, a, n, z, l);
  }

  /** A number other than one whose q-th power is one has order q, when q has no proper divisor. */
  lemma PrimeOrder(a: int, q: nat) returns (h: int)
    requires 1 < a < P && q > 1 && DividesThrough(q, 1) && Cong(Exp(a, q), 1)
    ensures Order(h, q)
  {
    h := a;
    assert Exp(a, 1) == a * Exp(a, 0) == a;
    CongRefl(a);
    NotOne(a, Exp(a, 1));
    OrderFromDivisors(a, q, 1);
  }

  lemma SquareOrder(a: int, q: nat, n: nat, z: int, l: Ladder, l': Ladder) returns (h: int)
    requires (q == 3 && n == 9) || (q == 5 && n == 25)
    requires Climbs(a, 1, a, n, 1, l) && Climbs(a, 1, a, q, z, l') && 1 < z < P
    ensures Order(h, n)
  {
    h := a;
    ClimbedFromOne(a, n, 1, l);
    ClimbedFromOne(a, q, z, l');
    NotOne(z, Exp(a, q));
    ProperDivisors(q, n);
    OrderFromDivisors(a, n, q);
  }

  lemma ProperDivisors(q: nat, n: nat)
    requires (q == 3 && n == 9) || (q == 5 && n == 25)
    ensures DividesThrough(n, q)
  {
  }

  lemma Extend(a: int, m: nat, b: int, n: nat, s: int, t: int, mn: nat) returns (c: int)
    requires Order(a, m) && Order(b, n) && s * m + t * n == 1 && mn == m * n
    ensures Order(c, mn)
  {
    OrderProduct(a, m, b, n, s, t);
    c := a * b;
  }

  lemma NoDivisor1321()
    ensures NoDivisor(1321, 2)
  {
    assert NoDivisor(1321, 26);
    assert NoDivisor(1321, 14);
  }

  ghost function Ladder2(): (l: Ladder)
    ensures Climbs(2305843009213693950, 1, 2305843009213693950, 2, 1, l)
  {
    Squared(1, Top)
  }

  ghost function Ladder9(): (l: Ladder)
    ensures Climbs(1102844585000305877, 1, 1102844585000305877, 9, 1, l)
  {
    Squared(594418010121383343, Squared(569931187132395942, Squared(2252987116782656529, Times(1, Top))))
  }

  ghost function Ladder9Root(): (l: Ladder)
    ensures Climbs(1102844585000305877, 1, 1102844585000305877, 3, 1669582390241348315, l)
  {
    Squared(594418010121383343, Times(1669582390241348315, Top))
  }

  ghost function Ladder25(): (l: Ladder)
    ensures Climbs(777611702656095618, 1, 777611702656095618, 25, 1, l)
  {
    Squared(1554350452820481594, Times(2246822354163092846, Squared(855356772850685687,
      Squared(1002938224617487650, Squared(728311621828442486, Times(1, Top))))))
  }

  ghost function Ladder25Root(): (l: Ladder)
    ensures Climbs(777611702656095618, 1, 777611702656095618, 5, 725554454131936870, l)
  {
    Squared(1554350452820481594, Squared(765166422852948037, Times(725554454131936870, Top)))
  }

  ghost function Ladder7(): (l: Ladder)
    ensures Climbs(1165310750493918737, 1, 1165310750493918737, 7, 1, l)
  {
    Squared(1100189617750211561, Times(1732971556757377027, Squared(402695036048525987, Times(1, Top))))
  }

  ghost function Ladder11(): (l: Ladder)
    ensures Climbs(2266698407988980144, 1, 2266698407988980144, 11, 1, l)
  {
    Squared(618244203389745147, Squared(103702435012065296, Times(1277361870895917617,
      Squared(54008984094220448, Times(1, Top)))))
  }

  ghost function Ladder13(): (l: Ladder)
    ensures Climbs(1032504562576723207, 1, 1032504562576723207, 13, 1, l)
  {
    Squared(2299505434996538127, Times(267627945881433776, Squared(416574793086421796,
      Squared(1564248099320080114, Times(1, Top)))))
  }

  ghost function Ladder31(): (l: Ladder)
    ensures Climbs(484083891529811867, 1, 484083891529811867, 31, 1, l)
  {
    Squared(1239013249614250296, Times(1914371256341531635, Squared(1740096485742420985,
      Times(544203650753389673, Squared(852320633089907737, Times(196289422717000369,
      Squared(1332994050241316791, Times(1, Top))))))))
  }

  ghost function Ladder41(): (l: Ladder)
    ensures Climbs(1562651311446036838, 1, 1562651311446036838, 41, 1, l)
  {
    Squared(210466367062535138, Squared(1707209309637750447, Times(1638367301230047368,
      Squared(2290701109993722167, Squared(615537283535994414, Squared(404799224062684180, Times(1, Top)))))))
  }

  ghost function Ladder61(): (l: Ladder)
    ensures Climbs(2, 1, 2, 61, 1, l)
  {
    Squared(4, Times(8, Squared(64, Times(128, Squared(16384, Times(32768, Squared(1073741824,
      Squared(1152921504606846976, Times(1, Top)))))))))
  }

  ghost function Ladder151(): (l: Ladder)
    ensures Climbs(1433721343585656393, 1, 1433721343585656393, 151, 1, l)
  {
    Squared(2257727313565655239, Squared(2130790790003568859, Squared(1705317079373479549,
      Times(1403136452740447356, Squared(831991816118793464, Squared(1184279676185930337,
      Times(1623901755927109578, Squared(1094750906426191583, Times(1577805642923812653,
      Squared(1314054519026458084, Times(1, Top)))))))))))
  }

  ghost function Ladder331(): (l: Ladder)
    ensures Climbs(185945230422323302, 1, 185945230422323302, 331, 1, l)
  {
    Squared(1933768814660513323, Squared(852828442950601991, Times(2008061840890022557,
      Squared(806359525050186626, Squared(1650216329475522876, Squared(312776793859410603,
      Times(1378147702095305067, Squared(1710044698096428373, Squared(1988272202640096581,
      Times(462631846332275261, Squared(1589415416910911362, Times(1, Top))))))))))))
  }

  ghost function Ladder1321(): (l: Ladder)
    ensures Climbs(30210013857155493, 1, 30210013857155493, 1321, 1, l)
  {
    Squared(1331455853619178166, Squared(285482742762435456, Times(426175243933760865,
      Squared(962529106531120227, Squared(1754264143051597099, Squared(1277951241188822683,
      Times(1674157236534465586, Squared(159826560083864712, Squared(1909889206235928338,
      Times(216879774194651379, Squared(1515482809031535535, Squared(1448948583059605231,
      Squared(2110873941062531801, Times(1, Top))))))))))))))
  }

  /** An element of order p - 1. */
  lemma Generator() returns (g: int)
    ensures Order(g, P - 1)
  {
    TrialDivision(2);
    ClimbedFromOne(2305843009213693950, 2, 1, Ladder2());
    var h2 := PrimeOrder(2305843009213693950, 2);
    g := h2;
    var h9 := SquareOrder(1102844585000305877, 3, 9, 1669582390241348315, Ladder9(), Ladder9Root());
    g := Extend(g, 2, h9, 9, -4, 1, 18);
    var h25 := SquareOrder(777611702656095618, 5, 25, 725554454131936870, Ladder25(), Ladder25Root());
    g := Extend(g, 18, h25, 25, 7, -5, 450);
    TrialDivision(7);
    ClimbedFromOne(1165310750493918737, 7, 1, Ladder7());
    var h7 := PrimeOrder(1165310750493918737, 7);
    g := Extend(g, 450, h7, 7, -3, 193, 3150);
    TrialDivision(11);
    ClimbedFromOne(2266698407988980144, 11, 1, Ladder11());
    var h11 := PrimeOrder(2266698407988980144, 11);
    g := Extend(g, 3150, h11, 11, 3, -859, 34650);
    TrialDivision(13);
    ClimbedFromOne(1032504562576723207, 13, 1, Ladder13());
    var h13 := PrimeOrder(1032504562576723207, 13);
    g := Extend(g, 34650, h13, 13, -5, 13327, 450450);
    TrialDivision(31);
    ClimbedFromOne(484083891529811867, 31, 1, Ladder31());
    var h31 := PrimeOrder(484083891529811867, 31);
    g := Extend(g, 450450, h31, 31, 14, -203429, 13963950);
    TrialDivision(41);
    ClimbedFromOne(1562651311446036838, 41, 1, Ladder41());
    var h41 := PrimeOrder(1562651311446036838, 41);
    g := Extend(g, 13963950, h41, 41, 7, -2384089, 572521950);
    TrialDivision(61);
    ClimbedFromOne(2, 61, 1, Ladder61());
    var h61 := PrimeOrder(2, 61);
    g := Extend(g, 572521950, h61, 61, 19, -178326509, 34923838950);
    TrialDivision(151);
    ClimbedFromOne(1433721343585656393, 151, 1, Ladder151());
    var h151 := PrimeOrder(1433721343585656393, 151);
    g := Extend(g, 34923838950, h151, 151, -61, 14108305801, 5273499681450);
    assert NoDivisor(331, 10);
    TrialDivision(331);
    ClimbedFromOne(185945230422323302, 331, 1, Ladder331());
    var h331 := PrimeOrder(185945230422323302, 331);
    g := Extend(g, 5273499681450, h331, 331, -84, 1338289949371, 1745528394559950);
    NoDivisor1321();
    TrialDivision(1321);
    ClimbedFromOne(30210013857155493, 1321, 1, Ladder1321());
    var h1321 := PrimeOrder(30210013857155493, 1321);
    g := Extend(g, 1745528394559950, h1321, 1321, 323, -426802173688769, 2305843009213693950);
  }

  // ---------------------------------------------------------------- every nonzero residue

  lemma CancelUnit(x: int, y: int, z: int)
    requires Cong(x * y, 1) && Cong(x * z, x)
    ensures Cong(z, 1)
  {
    CongRefl(y);
    CongMul(x * z, x, y, y);
    assert x * z * y == (x * y) * z;
    CongDrop(x * y, z);
    CongSym((x * y) * z, z);
    CongTrans(z, (x * y) * z, x * y);
    CongTrans(z, x * y, 1);
  }

  lemma CancelPower(g: int, n: nat, i: nat, d: nat)
    requires Cong(Exp(g, n), 1) && i <= n && Cong(Exp(g, i + d), Exp(g, i))
    ensures Cong(Exp(g, d), 1)
  {
    ExpAdd(g, i, n - i);
    ExpAdd(g, i, d);
    CancelUnit(Exp(g, i), Exp(g, n - i), Exp(g, d));
  }

  lemma SmallNotDivisible(d: nat, n: nat)
    requires 0 < d < n
    ensures d % n != 0
  {
  }

  /** Powers of g below its order are pairwise incongruent. */
  lemma PowersDiffer(g: int, n: nat, i: nat, j: nat)
    requires Order(g, n) && i < j < n
    ensures !Cong(Exp(g, j), Exp(g, i))
  {
    if Cong(Exp(g, j), Exp(g, i)) {
      CancelPower(g, n, i, j - i);
      SmallNotDivisible(j - i, n);
    }
  }

  lemma PowerNotZero(g: int, n: nat, i: nat)
    requires Order(g, n) && i < n
    ensures Exp(g, i) % P != 0
  {
    if Exp(g, i) % P == 0 {
      CongMod(Exp(g, i), 0);
      ExpAdd(g, i, n - i);
      CongRefl(Exp(g, n - i));
      CongMul(Exp(g, i), 0, Exp(g, n - i), Exp(g, n - i));
      CongMod(Exp(g, n), 0);
      CongMod(Exp(g, n), 1);
    }
  }

  ghost function Powers(g: int, k: nat): set<int> {
    set i | 0 <= i < k :: Exp(g, i) % P
  }

  lemma {:induction false} CountPowers(g: int, n: nat, k: nat)
    requires Order(g, n) && k <= n
    ensures |Powers(g, k)| == k
  {
    if k == 0 {
      assert Powers(g, 0) == {};
    } else {
      CountPowers(g, n, k - 1);
      var x := Exp(g, k - 1) % P;
      assert Powers(g, k) == Powers(g, k - 1) + {x};
      if x in Powers(g, k - 1) {
        var i :| 0 <= i < k - 1 && Exp(g, i) % P == x;
        PowersDiffer(g, n, i, k - 1);
        CongMod(Exp(g, k - 1), Exp(g, i));
      }
    }
  }

  ghost function Residues(k: nat): (r: set<int>)
    ensures forall x :: x in r <==> 1 <= x <= k
  {
    if k == 0 then {} else Residues(k - 1) + {k}
  }

  lemma {:induction false} CountResidues(k: nat)
    ensures |Residues(k)| == k
  {
    if k == 0 {
      assert Residues(0) == {};
    } else {
      CountResidues(k - 1);
    }
  }

  lemma SubsetOfEqualSize(a: set<int>, b: set<int>)
    requires a <= b && |a| == |b|
    ensures a == b
  {
    assert b == a + (b - a);
    assert |b| == |a| + |b - a|;
  }

  lemma EveryResidueIsAPower(g: int, a: int) returns (i: nat)
    requires Order(g, P - 1) && a % P != 0
    ensures Cong(a, Exp(g, i))
  {
    var n: nat := P - 1;
    CountPowers(g, n, n);
    CountResidues(n);
    forall x | x in Powers(g, n)
      ensures x in Residues(n)
    {
      var i :| 0 <= i < n && Exp(g, i) % P == x;
      PowerNotZero(g, n, i);
    }
    SubsetOfEqualSize(Powers(g, n), Residues(n));
    assert a % P in Residues(n);
    i :| 0 <= i < n && Exp(g, i) % P == a % P;
    CongMod(a, Exp(g, i));
  }

  /** The inverse computed by the code: the (p - 2)-nd power, reduced. */
  ghost function Inverse(a: int): int {
    Exp(a, P - 2) % P
  }

  /** Raising to p - 2 inverts every residue other than zero. */
  lemma InverseIsInverse(a: int)
    requires a % P != 0
    ensures Cong(a * Inverse(a), 1)
  {
    var n: nat := P - 2;
    var g := Generator();
    var i := EveryResidueIsAPower(g, a);
    PowerOfPower(g, i, a, n + 1);
    CongResidue(Exp(a, n));
    CongRefl(a);
    CongMul(a, a, Inverse(a), Exp(a, n));
    CongTrans(a * Inverse(a), a * Exp(a, n), 1);
  }

  lemma PowerOfPower(g: int, i: nat, a: int, n: nat)
    requires Cong(a, Exp(g, i)) && Cong(Exp(g, n), 1)
    ensures Cong(Exp(a, n), 1)
  {
    CongExp(a, Exp(g, i), n);
    ExpExp(g, i, n);
    ExpMultipleIsOne(g, n, i);
    assert i * n == n * i;
    CongTrans(Exp(a, n), Exp(g, i * n), 1);
  }

  /** Inverses are unique up to congruence. */
  lemma InverseUnique(a: int, x: int, y: int)
    requires Cong(a * x, 1) && Cong(a * y, 1)
    ensures Cong(x, y)
  {
    CongDrop(a * x, y);
    CongDrop(a * y, x);
    assert a * x * y == a * y * x;
    CongSym(a * y * x, x);
    CongTrans(x, a * y * x, y);
  }
}
