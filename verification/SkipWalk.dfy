/** The heights that skip pointers lead to, and how many steps a walk along them takes (src/chain.cpp). */
module SkipWalk {
  import opened Bits
  import opened Limbs

  // ----- skip heights -----

  function InvertLowestOne(n: nat): nat {
    if n == 0 then 0 else And(n, n - 1)
  }

  function GetSkipHeight(height: int): nat {
    if height < 2 then 0
    else if And(height, 1) == 1 then InvertLowestOne(InvertLowestOne(height - 1)) + 1
    else InvertLowestOne(height)
  }

  lemma {:induction false} AndIdem(n: nat)
    ensures And(n, n) == n
  {
    if n > 0 { AndIdem(n / 2); }
  }

  lemma AndOne(n: nat)
    ensures And(n, 1) == n % 2
  {
    if n > 0 { assert And(n / 2, 0) == 0; }
  }

  /** `n & (n - 1)` takes away from n its lowest one bit: a power of two that divides n. */
  lemma {:induction false} InvertsLowestOne(n: nat) returns (k: nat)
    requires n > 0
    ensures InvertLowestOne(n) == n - Pow2(k) && n % Pow2(k) == 0 && (n / Pow2(k)) % 2 == 1
  {
    if n == 1 {
      k := 0;
    } else if n % 2 == 1 {
      k := 0;
      AndIdem(n / 2);
      assert (n - 1) / 2 == n / 2 && (n - 1) % 2 == 0;
    } else {
      var j := InvertsLowestOne(n / 2);
      k := j + 1;
      assert (n - 1) / 2 == n / 2 - 1 && (n - 1) % 2 == 1;
      assert And(n, n - 1) == 2 * And(n / 2, n / 2 - 1);
      HalfDivides(n, Pow2(j));
    }
  }

  lemma HalfDivides(n: nat, p: nat)
    requires p > 0 && n % 2 == 0 && (n / 2) % p == 0 && (n / 2 / p) % 2 == 1
    ensures n % (2 * p) == 0 && (n / (2 * p)) % 2 == 1
  {
    var q := n / 2 / p;
    assert n / 2 == q * p;
    assert n == q * (2 * p);
    MulDivides(q, 2 * p);
  }

  lemma MulDivides(q: nat, d: nat)
    requires d > 0
    ensures (q * d) % d == 0 && (q * d) / d == q
  {
    var r, k := (q * d) % d, (q * d) / d;
    assert q * d == k * d + r;
    assert (q - k) * d == r;
    if q - k >= 1 { MulMonotone(1, q - k, d); } else if q - k <= -1 { MulMonotone(q - k, -1, d); }
  }

  /** Every skip leads strictly downwards. */
  lemma SkipDescends(height: int)
    requires height >= 1
    ensures GetSkipHeight(height) < height
  {
    if height >= 2 {
      AndOne(height);
      var _ := InvertsLowestOne(height);
      var _ := InvertsLowestOne(height - 1);
      var m := InvertLowestOne(height - 1);
      if m > 0 { var _ := InvertsLowestOne(m); }
    }
  }

  // ----- the walk -----

  /** Where GetAncestor goes next from height h on its way down to t: to the skip height, or one down. */
  function Next(h: nat, t: nat): (n: nat)
    requires t < h
    ensures t <= n < h
  {
    SkipDescends(h);
    var a, b := GetSkipHeight(h), GetSkipHeight(h - 1);
    if a == t || (a > t && !(b < a - 2 && b >= t)) then a else h - 1
  }

  function WalkSteps(h: nat, t: nat): nat
    requires t <= h
    decreases h
  {
    if h == t then 0 else 1 + WalkSteps(Next(h, t), t)
  }

  function Ones(n: nat): nat {
    if n == 0 then 0 else Ones(n / 2) + n % 2
  }

  // ----- clearing the lowest one, in halves -----

  lemma InvertHalves(n: nat)
    ensures InvertLowestOne(2 * n) == 2 * InvertLowestOne(n)
    ensures InvertLowestOne(2 * n + 1) == 2 * n
  {
    AndIdem(n);
    if n > 0 {
      assert (2 * n - 1) / 2 == n - 1;
    }
  }

  lemma {:induction false} InvertOnes(n: nat)
    requires n > 0
    ensures Ones(InvertLowestOne(n)) == Ones(n) - 1 && InvertLowestOne(n) < n
  {
    var m := n / 2;
    InvertHalves(m);
    if n % 2 == 0 {
      InvertOnes(m);
      assert n == 2 * m && (2 * InvertLowestOne(m)) / 2 == InvertLowestOne(m);
    } else {
      assert n == 2 * m + 1;
    }
  }

  /** The lowest one of a number is that of its low part, if that is not zero. */
  lemma {:induction false} InvertLow(q: nat, j: nat, r: nat)
    requires 0 < r < Pow2(j)
    ensures InvertLowestOne(q * Pow2(j) + r) == q * Pow2(j) + InvertLowestOne(r)
  {
    hide InvertLowestOne;
    Twice(q, Pow2(j - 1));
    InvertHalves(q * Pow2(j - 1) + r / 2);
    InvertHalves(r / 2);
    if r % 2 == 0 { InvertLow(q, j - 1, r / 2); }
  }

  lemma Twice(q: nat, d: nat)
    ensures q * (2 * d) == 2 * (q * d)
  {}

  lemma {:induction false} InvertTop(q: nat, j: nat)
    requires q % 2 == 1
    ensures InvertLowestOne(q * Pow2(j)) == (q - 1) * Pow2(j)
  {
    hide InvertLowestOne;
    if j == 0 {
      InvertHalves(q / 2);
    } else {
      InvertTop(q, j - 1);
      Twice(q, Pow2(j - 1));
      Twice(q - 1, Pow2(j - 1));
      InvertHalves(q * Pow2(j - 1));
    }
  }

  lemma {:induction false} OnesBound(n: nat, j: nat)
    requires n < Pow2(j)
    ensures Ones(n) <= j
    ensures n % 2 == 0 && j > 0 ==> Ones(n) <= j - 1
  {
    if j > 0 { OnesBound(n / 2, j - 1); }
  }

  lemma SkipOfEven(h: nat)
    requires h % 2 == 0 && h >= 2
    ensures GetSkipHeight(h) == InvertLowestOne(h)
  {
    AndOne(h);
  }

  lemma SkipOfOdd(h: nat)
    requires h % 2 == 1 && h >= 3
    ensures GetSkipHeight(h) == InvertLowestOne(InvertLowestOne(h - 1)) + 1
  {
    AndOne(h);
  }

  lemma InvertEven(n: nat)
    ensures InvertLowestOne(n) <= n
    ensures n % 2 == 0 ==> InvertLowestOne(n) % 2 == 0
  {
    InvertHalves(n / 2);
    if n > 0 { InvertOnes(n); }
  }

  /** From an odd height the skip is never passed over for that of the block before. */
  lemma OddSkips(h: nat, t: nat)
    requires h % 2 == 1 && h >= 3 && t < h
    ensures Next(h, t) == if GetSkipHeight(h) >= t then GetSkipHeight(h) else h - 1
    ensures GetSkipHeight(h) % 2 == 1
  {
    hide GetSkipHeight, InvertLowestOne;
    SkipOfOdd(h);
    SkipOfEven(h - 1);
    InvertEven(h - 1);
    InvertEven(InvertLowestOne(h - 1));
  }

  // ----- how long the walk can be -----

  /** Steps from an odd height that agrees with the target above bit k. */
  function Tail(k: nat): nat {
    if k <= 2 then k else if k == 3 then 4 else Tail(k - 1) + (k - 1) / 2 + 2
  }

  /** Steps from any height below 2^k. */
  function StepBound(k: nat): nat {
    if k <= 1 then k else Tail(k - 1) + if k - 3 > (k - 1) / 2 + 3 then k - 3 else (k - 1) / 2 + 3
  }

  /** Steps from Base(q, j) + r, q odd, until the height is below Base(q, j). */
  function Cost(r: nat): nat {
    if r % 2 == 1 then (Ones(r - 1) + 1) / 2 + 2
    else if r % 8 == 0 then Ones(r) + 1
    else if Ones(r) <= 1 then 2
    else (Ones(r) - 1) / 2 + 4
  }

  lemma OnesZero(n: nat)
    ensures Ones(n) == 0 <==> n == 0
  {
    if n > 0 { InvertOnes(n); }
  }

  lemma OnesHalves(n: nat)
    ensures Ones(2 * n) == Ones(n) && Ones(2 * n + 1) == Ones(n) + 1
  {
    assert (2 * n) / 2 == n && (2 * n + 1) / 2 == n;
  }

  /** The multiples of 2^j. */
  function Base(q: nat, j: nat): nat { Times(q, Pow2(j)) }

  function Times(q: nat, d: nat): nat { q * d }

  lemma BaseFacts(q: nat, j: nat)
    requires q >= 1 && j >= 1
    ensures Base(q, j) % 2 == 0 && Pow2(j) % 2 == 0 && Pow2(j) >= 2
    ensures Base(q, j) == Base(q - 1, j) + Pow2(j)
  {
    assert q * Pow2(j) == 2 * (q * Pow2(j - 1));
  }

  /** The skip from an odd height clears two ones below bit j, or leaves the upper half of that range. */
  lemma OddAt(q: nat, j: nat, r: nat)
    requires q % 2 == 1 && j >= 1 && r % 2 == 1 && r < Pow2(j)
    ensures Base(q, j) + r >= 3 && (Base(q, j) + r) % 2 == 1
    ensures var skip, y := GetSkipHeight(Base(q, j) + r), InvertLowestOne(InvertLowestOne(r - 1));
            if Ones(r - 1) >= 2 then skip == Base(q, j) + (y + 1) && y + 1 < r && y % 2 == 0 && Ones(y) == Ones(r - 1) - 2
            else skip < Base(q, j) && skip <= Base(q - 1, j) + 1 && (Ones(r - 1) == 1 ==> skip == Base(q - 1, j) + 1)
  {
    hide Pow2, GetSkipHeight, InvertLowestOne, Ones, Base;
    BaseFacts(q, j);
    SkipOfOdd(Base(q, j) + r);
    InvertTopBase(q, j);
    var y := InvertLowestOne(r - 1);
    OnesZero(r - 1);
    OnesZero(y);
    if r > 1 {
      InvertLowBase(q, j, r - 1);
      InvertOnes(r - 1);
      InvertEven(r - 1);
      InvertEven(y);
      if y > 0 {
        InvertLowBase(q, j, y);
        InvertOnes(y);
      }
    } else {
      InvertEven(Base(q - 1, j));
    }
  }

  lemma InvertTopBase(q: nat, j: nat)
    requires q % 2 == 1
    ensures InvertLowestOne(Base(q, j)) == Base(q - 1, j)
  {
    hide InvertLowestOne, Pow2;
    InvertTop(q, j);
  }

  lemma InvertLowBase(q: nat, j: nat, r: nat)
    requires 0 < r < Pow2(j)
    ensures InvertLowestOne(Base(q, j) + r) == Base(q, j) + InvertLowestOne(r)
  {
    hide InvertLowestOne, Pow2;
    InvertLow(q, j, r);
  }

  lemma EvenAt(q: nat, j: nat, r: nat)
    requires q >= 1 && j >= 1 && r % 2 == 0 && 0 < r < Pow2(j)
    ensures Base(q, j) + r >= 2 && (Base(q, j) + r) % 2 == 0
    ensures GetSkipHeight(Base(q, j) + r) == Base(q, j) + InvertLowestOne(r)
  {
    hide Pow2, GetSkipHeight, InvertLowestOne, Base;
    BaseFacts(q, j);
    SkipOfEven(Base(q, j) + r);
    InvertLowBase(q, j, r);
  }

  /** The block before has the longer skip only if 8 does not divide r; then it has no more ones. */
  lemma LowBits(r: nat)
    requires r % 2 == 0 && r >= 2 && InvertLowestOne(InvertLowestOne(r - 2)) + 3 < InvertLowestOne(r)
    ensures r % 8 != 0 && Ones(r - 2) <= Ones(r)
  {
    hide InvertLowestOne, Ones;
    var half := r / 2;
    var quarter := half / 2;
    if half % 2 == 1 {
      TwoLeft(quarter);
    } else if quarter % 2 == 1 {
      FourLeft(quarter / 2);
    } else {
      EightDivides(quarter / 2);
    }
  }

  /** And then it has, unless fewer than two ones are left. */
  lemma LongerBefore(r: nat)
    requires r % 2 == 0 && r >= 2 && r % 8 != 0
    ensures Ones(r - 2) >= 2 ==> InvertLowestOne(InvertLowestOne(r - 2)) + 3 < InvertLowestOne(r)
    ensures Ones(r - 2) < 2 ==> Ones(r) <= 2
    ensures Ones(r - 2) < 2 && Ones(r) == 2 ==> Ones(InvertLowestOne(r)) == 1
  {
    hide InvertLowestOne, Ones;
    InvertOnes(r);
    var half := r / 2;
    var quarter := half / 2;
    if half % 2 == 1 {
      TwoLeft(quarter);
    } else {
      FourLeft(quarter / 2);
    }
  }

  lemma TwoLeft(k: nat)
    ensures Ones(4 * k + 2) == Ones(4 * k) + 1
    ensures Ones(4 * k) >= 2 ==> InvertLowestOne(InvertLowestOne(4 * k)) + 3 < InvertLowestOne(4 * k + 2)
  {
    hide Ones, InvertLowestOne;
    OnesHalves(2 * k);
    OnesHalves(2 * k + 1);
    OnesHalves(k);
    InvertHalves(2 * k + 1);
    InvertHalves(2 * k);
    InvertHalves(k);
    OnesZero(k);
    if k > 0 { InvertOnes(k); }
    var m := InvertLowestOne(k);
    OnesZero(m);
    InvertHalves(2 * m);
    InvertHalves(m);
    if m > 0 { InvertOnes(m); }
  }

  lemma FourLeft(m: nat)
    ensures Ones(8 * m + 2) == Ones(8 * m + 4)
    ensures m > 0 ==> InvertLowestOne(InvertLowestOne(8 * m + 2)) + 3 < InvertLowestOne(8 * m + 4)
    ensures Ones(8 * m + 2) >= 2 ==> m > 0
  {
    hide Ones, InvertLowestOne;
    OnesHalves(4 * m + 2);
    OnesHalves(2 * m + 1);
    OnesHalves(4 * m + 1);
    OnesHalves(2 * m);
    OnesHalves(m);
    OnesZero(m);
    FourLeftSkips(m);
  }

  lemma FourLeftSkips(m: nat)
    ensures InvertLowestOne(8 * m + 4) == 8 * m
    ensures m > 0 ==> InvertLowestOne(InvertLowestOne(8 * m + 2)) <= 8 * m - 8
  {
    hide InvertLowestOne;
    InvertHalves(4 * m + 2);
    InvertHalves(2 * m + 1);
    InvertHalves(m);
    InvertHalves(4 * m + 1);
    InvertHalves(2 * m);
    InvertHalves(4 * m);
    if m > 0 { InvertOnes(m); }
  }

  lemma EightDivides(m: nat)
    requires m > 0
    ensures InvertLowestOne(InvertLowestOne(8 * m - 2)) == 8 * m - 8
    ensures InvertLowestOne(8 * m) <= 8 * m - 8
  {
    hide InvertLowestOne;
    InvertHalves(4 * m);
    InvertHalves(2 * m);
    InvertHalves(m);
    InvertOnes(m);
    var k := m - 1;
    InvertHalves(4 * k + 3);
    InvertHalves(2 * k + 1);
    InvertHalves(4 * k + 2);
    InvertHalves(k);
    assert 8 * m - 2 == 2 * (4 * k + 3);
  }

  /** The bits of a height from bit j on. */
  function Above(h: nat, j: nat): nat { Over(h, Pow2(j)) }

  function Over(h: nat, d: nat): nat
    requires d > 0
  {
    Divided(h, d);
    h / d
  }

  /** Between two neighbouring multiples of 2^j all heights agree above bit j. */
  lemma SameTop(q: nat, j: nat, h: nat)
    requires q > 0 && Base(q - 1, j) <= h < Base(q, j)
    ensures Above(h, j) == q - 1
  {
    assert q * Pow2(j) == (q - 1) * Pow2(j) + Pow2(j);
    Quotient(h, q - 1, Pow2(j), h - (q - 1) * Pow2(j));
  }

  lemma TailStep(j: nat)
    ensures Tail(0) == 0 && Tail(1) == 1 && Tail(2) == 2 && Tail(3) == 4
    ensures j > 3 ==> Tail(j) == Tail(j - 1) + (j - 1) / 2 + 2
    ensures j > 0 ==> Tail(j - 1) <= Tail(j)
  {}

  lemma CostZero()
    ensures Cost(0) == 1 && Ones(0) == 0
  {}

  lemma NoSteps(t: nat)
    ensures WalkSteps(t, t) == 0
  {}

  lemma StepOf(h: nat, t: nat)
    requires t < h
    ensures WalkSteps(h, t) == 1 + WalkSteps(Next(h, t), t)
  {}

  /** From Base(q, j) + r down to a target in the 2^j heights below Base(q, j). */
  lemma {:induction false} Phase(q: nat, j: nat, r: nat, t: nat)
    requires q % 2 == 1 && j >= 1 && r < Pow2(j) && Base(q - 1, j) <= t < Base(q, j)
    ensures WalkSteps(Base(q, j) + r, t) <= Cost(r) + Tail(j)
    decreases j, 1, r, 2
  {
    hide Pow2, GetSkipHeight, InvertLowestOne, Ones, Tail, Base, WalkSteps;
    if r == 0 {
      FromTop(q, j, t);
    } else if r % 2 == 1 {
      FromOdd(q, j, r, t);
    } else {
      FromEven(q, j, r, t);
    }
  }

  lemma FromEven(q: nat, j: nat, r: nat, t: nat)
    requires q % 2 == 1 && j >= 1 && r % 2 == 0 && 0 < r < Pow2(j) && Base(q - 1, j) <= t < Base(q, j)
    ensures WalkSteps(Base(q, j) + r, t) <= Cost(r) + Tail(j)
    decreases j, 1, r, 1
  {
    hide Pow2, GetSkipHeight, InvertLowestOne, Ones, Tail, Base, WalkSteps;
    var h := Base(q, j) + r;
    EvenAt(q, j, r);
    InvertOnes(r);
    InvertEven(r);
    InvertEight(r);
    OnesZero(r);
    if Next(h, t) == GetSkipHeight(h) {
      StepOf(h, t);
      SkipTaken(q, j, r, t);
      CostZero();
      OnesZero(InvertLowestOne(r));
      Phase(q, j, InvertLowestOne(r), t);
    } else {
      PassedOver(q, j, r, t);
    }
  }

  lemma InvertEight(r: nat)
    ensures r % 8 == 0 ==> InvertLowestOne(r) % 8 == 0
  {
    hide InvertLowestOne;
    var m := r / 8;
    InvertHalves(4 * m);
    InvertHalves(2 * m);
    InvertHalves(m);
  }

  /** The skip of an even height is taken only if 8 divides r or few ones are left. */
  lemma SkipTaken(q: nat, j: nat, r: nat, t: nat)
    requires q % 2 == 1 && j >= 1 && r % 2 == 0 && 0 < r < Pow2(j) && t < Base(q, j)
    requires Next(Base(q, j) + r, t) == GetSkipHeight(Base(q, j) + r)
    ensures r % 8 == 0 || Ones(r) <= 2
  {
    hide Pow2, GetSkipHeight, InvertLowestOne, Ones, Base, Next;
    if r % 8 != 0 {
      EvenAt(q, j, r);
      InvertEven(r);
      LongerBefore(r);
      LongerPassed(q, j, r, t);
    }
  }

  lemma LongerPassed(q: nat, j: nat, r: nat, t: nat)
    requires q % 2 == 1 && j >= 1 && r % 2 == 0 && r % 8 != 0 && r < Pow2(j) && t < Base(q, j)
    ensures Ones(r - 2) >= 2 ==> Next(Base(q, j) + r, t) == Base(q, j) + r - 1
  {
    hide Pow2, GetSkipHeight, InvertLowestOne, Ones, Base;
    EvenAt(q, j, r);
    LongerBefore(r);
    OddAt(q, j, r - 1);
  }

  lemma FromOdd(q: nat, j: nat, r: nat, t: nat)
    requires q % 2 == 1 && j >= 1 && r % 2 == 1 && r < Pow2(j) && Base(q - 1, j) <= t < Base(q, j)
    ensures WalkSteps(Base(q, j) + r, t) <= Cost(r) + Tail(j)
    decreases j, 1, r, 0
  {
    hide Pow2, GetSkipHeight, InvertLowestOne, Ones, Tail, Base, WalkSteps, Next;
    var h := Base(q, j) + r;
    OddAt(q, j, r);
    OddSkips(h, t);
    StepOf(h, t);
    var y := InvertLowestOne(InvertLowestOne(r - 1));
    if Ones(r - 1) >= 2 {
      Phase(q, j, y + 1, t);
    } else if GetSkipHeight(h) >= t {
      SameTop(q, j, t);
      SameTop(q, j, GetSkipHeight(h));
      Settled(j, GetSkipHeight(h), t);
    } else {
      OnesZero(r - 1);
      Phase(q, j, r - 1, t);
    }
  }

  lemma FromTop(q: nat, j: nat, t: nat)
    requires q % 2 == 1 && j >= 1 && Base(q - 1, j) <= t < Base(q, j)
    ensures WalkSteps(Base(q, j), t) <= 1 + Tail(j) && Cost(0) == 1
    decreases j, 1, 0, 0
  {
    CostZero();
    hide GetSkipHeight, InvertLowestOne, Tail, Base, Pow2, WalkSteps, Ones, Next, Cost;
    var b := Base(q, j);
    TopNext(q, j, t);
    StepOf(b, t);
    NoSteps(t);
    if Next(b, t) != t {
      SameTop(q, j, t);
      SameTop(q, j, b - 1);
      Settled(j, b - 1, t);
    }
  }

  lemma TopNext(q: nat, j: nat, t: nat)
    requires q % 2 == 1 && j >= 1 && Base(q - 1, j) <= t < Base(q, j)
    ensures Base(q, j) % 2 == 0 && Base(q - 1, j) <= Base(q, j) - 1
    ensures Next(Base(q, j), t) == t || Next(Base(q, j), t) == Base(q, j) - 1
  {
    hide GetSkipHeight, InvertLowestOne, Base, Pow2;
    BaseFacts(q, j);
    SkipOfEven(Base(q, j));
    InvertTopBase(q, j);
  }

  /** The even height whose skip is passed over: one down, and then by the longer skip. */
  lemma PassedOver(q: nat, j: nat, r: nat, t: nat)
    requires q % 2 == 1 && j >= 1 && r % 2 == 0 && 0 < r < Pow2(j) && Base(q - 1, j) <= t < Base(q, j)
    requires Next(Base(q, j) + r, t) != GetSkipHeight(Base(q, j) + r)
    ensures WalkSteps(Base(q, j) + r, t) <= Cost(r) + Tail(j)
    decreases j, 1, r, 0
  {
    hide Pow2, GetSkipHeight, InvertLowestOne, Ones, Tail, Base, WalkSteps;
    var h := Base(q, j) + r;
    EvenAt(q, j, r);
    OnesZero(r);
    var skip := GetSkipHeight(h - 1);
    assert Next(h, t) == h - 1 && skip < GetSkipHeight(h) - 2 && skip >= t;
    OddAt(q, j, r - 1);
    OddSkips(h - 1, t);
    StepOf(h, t);
    StepOf(h - 1, t);
    if Ones(r - 2) >= 2 {
      var y := InvertLowestOne(InvertLowestOne(r - 2));
      LowBits(r);
      Phase(q, j, y + 1, t);
    } else {
      SameTop(q, j, t);
      SameTop(q, j, skip);
      Settled(j, skip, t);
    }
  }

  /** From an odd height. */
  lemma {:induction false} Settled(j: nat, h: nat, t: nat)
    requires t <= h && (h % 2 == 1 || h == t) && Above(h, j) == Above(t, j)
    ensures WalkSteps(h, t) <= Tail(j)
    decreases j, 0, 0, 0
  {
    hide Pow2, Base, Ones, Next, Above, WalkSteps, Tail;
    NoSteps(t);
    TailStep(j);
    if h != t {
      var same, q, r := Descend(j, h, t);
      if same {
        Settled(j - 1, h, t);
      } else if j == 1 {
        StepOf(h, t);
      } else if j == 2 {
        LastTwo(q, r, t);
      } else if j == 3 {
        LastFour(q, r, t);
      } else {
        Phase(q, j - 1, r, t);
        OnesBound(r - 1, j - 1);
      }
    }
  }

  lemma SmallValues()
    ensures Pow2(0) == 1 && Pow2(1) == 2 && Pow2(2) == 4
    ensures Ones(0) == 0 && Ones(2) == 1
  {
    assert Ones(1) == 1;
  }

  /** No walk is longer than the distance. */
  lemma {:induction false} ByDistance(h: nat, t: nat)
    requires t <= h
    ensures WalkSteps(h, t) <= h - t
    decreases h
  {
    hide Next;
    if h != t { ByDistance(Next(h, t), t); }
  }

  /** From a multiple of 2^j: to the multiple below if that is the target, else one down. */
  lemma FromBase(q: nat, j: nat, t: nat)
    requires q % 2 == 1 && j >= 1 && Base(q - 1, j) <= t < Base(q, j)
    ensures WalkSteps(Base(q, j), t) <= if t == Base(q - 1, j) then 1 else Base(q, j) - t
  {
    hide GetSkipHeight, InvertLowestOne, Base, Pow2, WalkSteps;
    BaseFacts(q, j);
    SkipOfEven(Base(q, j));
    InvertTopBase(q, j);
    StepOf(Base(q, j), t);
    NoSteps(t);
    ByDistance(Base(q, j), t);
  }

  /** The last bits, case by case. From 2q + 1 to 2q - 2 or 2q - 1, q odd. */
  lemma LastTwo(q: nat, r: nat, t: nat)
    requires q % 2 == 1 && r % 2 == 1 && r < Pow2(1) && Base(q - 1, 1) <= t < Base(q, 1)
    ensures WalkSteps(Base(q, 1) + r, t) <= 2
  {
    hide GetSkipHeight, InvertLowestOne, Ones, WalkSteps, Pow2, Next, Base;
    SmallValues();
    BaseFacts(q, 1);
    var h := Base(q, 1) + r;
    StepOf(h, t);
    OddAt(q, 1, r);
    OddSkips(h, t);
    FromBase(q, 1, t);
    if GetSkipHeight(h) >= t { ByDistance(GetSkipHeight(h), t); }
  }

  /** From 4q + 1 or 4q + 3 to one of the four heights below 4q, q odd. */
  lemma LastFour(q: nat, r: nat, t: nat)
    requires q % 2 == 1 && r % 2 == 1 && r < Pow2(2) && Base(q - 1, 2) <= t < Base(q, 2)
    ensures WalkSteps(Base(q, 2) + r, t) <= 4
  {
    hide GetSkipHeight, InvertLowestOne, Ones, WalkSteps, Pow2, Next, Base;
    SmallValues();
    BaseFacts(q, 2);
    var h := Base(q, 2) + r;
    StepOf(h, t);
    OddAt(q, 2, r);
    OddSkips(h, t);
    FromBase(q, 2, t);
    if GetSkipHeight(h) >= t {
      ByDistance(GetSkipHeight(h), t);
    } else if r == 3 {
      StepOf(h - 1, t);
      TwoSkips(q, t);
    }
  }

  /** From 4q + 2 to 4q, unless the target is close to the next multiple of 4. */
  lemma TwoSkips(q: nat, t: nat)
    requires q % 2 == 1 && Base(q - 1, 2) + 1 < t < Base(q, 2)
    ensures Next(Base(q, 2) + 2, t) == Base(q, 2)
  {
    hide GetSkipHeight, InvertLowestOne, Ones, Pow2, Base;
    SmallValues();
    EvenAt(q, 2, 2);
    InvertOnes(2);
    OnesZero(InvertLowestOne(2));
    OddAt(q, 2, 1);
  }

  /** Heights that agree above bit j agree above bit j - 1 as well, or that bit tells them apart. */
  lemma Descend(j: nat, h: nat, t: nat) returns (same: bool, q: nat, r: nat)
    requires t < h && Above(h, j) == Above(t, j)
    ensures j > 0
    ensures same ==> Above(h, j - 1) == Above(t, j - 1)
    ensures !same ==> q % 2 == 1 && r < Pow2(j - 1) && h == Base(q, j - 1) + r
    ensures !same ==> Base(q - 1, j - 1) <= t < Base(q, j - 1)
    ensures !same && j > 1 ==> r % 2 == h % 2
    ensures !same && j == 1 ==> h == t + 1
  {
    hide Pow2, Over, Times;
    NotEqualAtZero(j, h, t);
    Pow2Step(j);
    same, q, r := DescendBy(Pow2(j - 1), h, t);
    if !same && j > 1 { EvenBase(q, j - 1, r); }
  }

  lemma EvenBase(q: nat, j: nat, r: nat)
    requires q >= 1 && j >= 1
    ensures (Base(q, j) + r) % 2 == r % 2
  {
    hide Base;
    BaseFacts(q, j);
  }

  lemma DescendBy(d: nat, h: nat, t: nat) returns (same: bool, q: nat, r: nat)
    requires d > 0 && t < h && Over(h, 2 * d) == Over(t, 2 * d)
    ensures same ==> Over(h, d) == Over(t, d)
    ensures !same ==> q % 2 == 1 && r < d && h == Times(q, d) + r && Times(q - 1, d) <= t < Times(q, d)
    ensures !same && d == 1 ==> h == t + 1
  {
    Divided(h, d);
    Divided(t, d);
    DivHalf(h, d);
    DivHalf(t, d);
    q, r := h / d, h % d;
    same := q == t / d;
    if !same { NextQuotient(h, t, d, q, t / d); }
  }

  lemma NotEqualAtZero(j: nat, h: nat, t: nat)
    requires t < h && Above(h, j) == Above(t, j)
    ensures j > 0
  {
    Quotient(h, h, 1, 0);
    Quotient(t, t, 1, 0);
  }

  lemma Pow2Step(j: nat)
    requires j > 0
    ensures Pow2(j) == 2 * Pow2(j - 1) && (j == 1 ==> Pow2(j - 1) == 1)
  {}

  lemma Divided(n: nat, d: nat)
    requires d > 0
    ensures n / d >= 0 && n == (n / d) * d + n % d
  {
    DivideSmaller(n, d);
  }

  /** Different quotients with the same half are neighbours, the larger one odd. */
  lemma NextQuotient(h: nat, t: nat, d: nat, q: nat, p: nat)
    requires d > 0 && t < h && q / 2 == p / 2 && q != p
    requires q * d <= h < q * d + d && p * d <= t < p * d + d
    ensures q == p + 1 && q % 2 == 1 && (q - 1) * d <= t < q * d
  {
    if q < p { MulMonotone(q + 1, p, d); }
    assert (q + 1) * d == q * d + d && (p + 1) * d == p * d + d;
  }

  lemma DivHalf(n: nat, d: nat)
    requires d > 0
    ensures n / (2 * d) == (n / d) / 2
  {
    var q, r := n / d, n % d;
    var m, e := q / 2, q % 2;
    Divided(n, d);
    HalfProduct(q, m, e, d);
    Quotient(n, m, 2 * d, e * d + r);
  }

  lemma HalfProduct(q: nat, m: nat, e: nat, d: nat)
    requires q == 2 * m + e && e <= 1
    ensures q * d == m * (2 * d) + e * d && 0 <= e * d <= d
  {
    assert (2 * m) * d == m * (2 * d);
  }

  /** From any height. */
  lemma {:induction false} AnyWalk(j: nat, h: nat, t: nat)
    requires t <= h && Above(h, j) == Above(t, j)
    ensures WalkSteps(h, t) <= StepBound(j)
  {
    hide Pow2, Base, Ones, Next, Above, WalkSteps, Tail;
    NoSteps(t);
    TailStep(j);
    if j > 0 { TailStep(j - 1); }
    if h != t {
      var same, q, r := Descend(j, h, t);
      if same {
        AnyWalk(j - 1, h, t);
      } else if j > 1 {
        Phase(q, j - 1, r, t);
        OnesBound(if r % 2 == 1 then r - 1 else r, j - 1);
        OnesOfEight(r, j - 1);
      } else {
        StepOf(h, t);
      }
    }
  }

  lemma OnesOfEight(r: nat, j: nat)
    requires r < Pow2(j)
    ensures r % 8 == 0 ==> Ones(r) <= if j > 3 then j - 3 else 0
  {
    OnesZero(r);
    if r % 8 == 0 && r > 0 {
      if j <= 3 { assert Pow2(3) == 8; SmallRange(j); }
      var m := r / 8;
      hide Ones;
      OnesHalves(4 * m);
      OnesHalves(2 * m);
      OnesHalves(m);
      EighthOf(j);
      OnesBound(m, j - 3);
    }
  }

  lemma SmallRange(j: nat)
    requires j <= 3
    ensures Pow2(j) <= 8
  {
    Pow2Monotone(j, 3);
  }

  lemma EighthOf(j: nat)
    requires j >= 3
    ensures Pow2(j) == 8 * Pow2(j - 3)
  {
    Pow2Step(j);
    Pow2Step(j - 1);
    Pow2Step(j - 2);
  }

  /** Below height 2^k every ancestor is at most StepBound(k) steps away, about k^2 / 4. */
  lemma WalkIsShort(k: nat, h: nat, t: nat)
    requires t <= h < Pow2(k)
    ensures WalkSteps(h, t) <= StepBound(k)
  {
    Quotient(h, 0, Pow2(k), h);
    Quotient(t, 0, Pow2(k), t);
    AnyWalk(k, h, t);
  }

  lemma {:induction false} TailIsQuadratic(k: nat)
    ensures 4 * Tail(k) <= k * k + 7 * k
  {
    if k > 3 {
      TailIsQuadratic(k - 1);
      assert (k - 1) * (k - 1) == k * k - 2 * k + 1;
    }
  }

  /** In numbers: 110 steps reach every ancestor below height 2^18, as the source's comment says. */
  lemma StepBoundValues(k: nat)
    ensures StepBound(18) == 110
    ensures 4 * StepBound(k) <= k * k + 9 * k + 4
  {
    assert Tail(8) == 25;
    assert Tail(17) == 95;
    if k > 0 {
      TailIsQuadratic(k - 1);
      assert (k - 1) * (k - 1) == k * k - 2 * k + 1;
    }
  }
}
