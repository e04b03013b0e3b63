/** Rounding up to a power of two by filling all bits below the top one. */
module Powers {
  import opened Bytes
  import opened Probing

  /** Bitwise or. */
  function Or(x: nat, y: nat): (r: nat)
    decreases x + y
  {
    if x == 0 && y == 0 then 0
    else (if x % 2 == 1 || y % 2 == 1 then 1 else 0) + 2 * Or(x / 2, y / 2)
  }

  /** Shifted right by `k`. */
  function Shift(x: nat, k: nat): nat {
    if k == 0 then x else Shift(x / 2, k - 1)
  }

  function Smear(n: nat): nat {
    var a := Or(n, Shift(n, 1));
    var b := Or(a, Shift(a, 2));
    var c := Or(b, Shift(b, 4));
    var d := Or(c, Shift(c, 8));
    var e := Or(d, Shift(d, 16));
    Or(e, Shift(e, 32))
  }

  function NextPowerOfTwo(n: U64): U64 {
    if n == 0 then 1 else (Smear(n - 1) + 1) % TWO64
  }

  // ----- Each step doubles how far the bits reach -----

  /** `m` or-ed with its first `k - 1` shifts. */
  function Fill(m: nat, k: nat): nat
    decreases k
  {
    if k == 0 then 0 else Or(m, Fill(m / 2, k - 1))
  }

  lemma OrHalf(x: nat, y: nat)
    ensures Or(x, y) / 2 == Or(x / 2, y / 2) && Or(x, 0) == Or(0, x)
    ensures Or(x, y) % 2 == if x % 2 == 1 || y % 2 == 1 then 1 else 0
    ensures Or(0, y) == y
  {
    OrZero(y);
    OrZero(x);
  }

  lemma {:induction false} OrZero(y: nat)
    ensures Or(0, y) == y && Or(y, 0) == y
  {
    if y > 0 { OrZero(y / 2); }
  }

  lemma {:induction false} OrAssociates(x: nat, y: nat, z: nat)
    ensures Or(x, Or(y, z)) == Or(Or(x, y), z)
    decreases x + y + z
  {
    OrZero(x);
    OrZero(y);
    OrZero(z);
    if x + y + z > 0 {
      OrAssociates(x / 2, y / 2, z / 2);
      OrHalf(y, z);
      OrHalf(x, y);
      OrHalf(x, Or(y, z));
      OrHalf(Or(x, y), z);
    }
  }

  lemma {:induction false} FillHalf(m: nat, k: nat)
    ensures Fill(m, k) / 2 == Fill(m / 2, k)
    decreases k
  {
    if k > 0 {
      FillHalf(m / 2, k - 1);
      OrHalf(m, Fill(m / 2, k - 1));
    }
  }

  lemma {:induction false} FillShift(m: nat, k: nat, s: nat)
    ensures Shift(Fill(m, k), s) == Fill(Shift(m, s), k)
    decreases s
  {
    if s > 0 {
      FillHalf(m, k);
      FillShift(m / 2, k, s - 1);
    }
  }

  lemma {:induction false} FillJoin(m: nat, j: nat, k: nat)
    ensures Or(Fill(m, j), Fill(Shift(m, j), k)) == Fill(m, j + k)
    decreases j
  {
    if j == 0 {
      OrZero(Fill(m, k));
    } else {
      FillJoin(m / 2, j - 1, k);
      OrAssociates(m, Fill(m / 2, j - 1), Fill(Shift(m, j), k));
    }
  }

  lemma Doubles(m: nat, k: nat)
    ensures Or(Fill(m, k), Shift(Fill(m, k), k)) == Fill(m, 2 * k)
  {
    FillShift(m, k, k);
    FillJoin(m, k, k);
  }

  lemma SmearFills(m: nat)
    ensures Smear(m) == Fill(m, 64)
  {
    hide Or, Shift, Fill;
    assert Fill(m, 1) == m by { FillOne(m); }
    Doubles(m, 1);
    Doubles(m, 2);
    Doubles(m, 4);
    Doubles(m, 8);
    Doubles(m, 16);
    Doubles(m, 32);
  }

  lemma FillOne(m: nat)
    ensures Fill(m, 1) == m
  {
    OrZero(m);
  }

  // ----- Ones up to the top bit -----

  function Ones(m: nat): nat {
    if m == 0 then 0 else 2 * Ones(m / 2) + 1
  }

  lemma {:induction false} OrOnes(m: nat)
    ensures Or(m, Ones(m / 2)) == Ones(m)
  {
    if m > 0 {
      OrOnes(m / 2);
      OrHalf(m, Ones(m / 2));
      assert m / 2 > 0 ==> Ones(m / 2) % 2 == 1 && Ones(m / 2) / 2 == Ones(m / 2 / 2);
      OrZero(m);
    }
  }

  lemma {:induction false} FillOnes(m: nat, k: nat)
    requires Shift(m, k) == 0
    ensures Fill(m, k) == Ones(m)
    decreases k
  {
    if k > 0 {
      FillOnes(m / 2, k - 1);
      OrOnes(m);
    }
  }

  lemma {:induction false} ShortShift(m: nat, k: nat, p: nat)
    requires PowerOfTwo(p) && m < p && Log(p) <= k
    ensures Shift(m, k) == 0
    decreases k
  {
    if k > 0 {
      if p == 1 { ShortShift(m / 2, k - 1, p); } else { ShortShift(m / 2, k - 1, p / 2); }
    }
  }

  function Log(p: nat): nat {
    if p <= 1 then 0 else 1 + Log(p / 2)
  }

  /** One more than the ones is the next power of two above `m`. */
  lemma {:induction false} OnesNext(m: nat)
    ensures PowerOfTwo(Ones(m) + 1) && m <= Ones(m) && if m == 0 then Ones(m) == 0 else Ones(m) < 2 * m
  {
    if m > 0 {
      OnesNext(m / 2);
      DoublePower(Ones(m / 2) + 1);
    }
  }

  lemma {:induction false} OnesBelow(m: nat, p: nat)
    requires PowerOfTwo(p)
    ensures Ones(m) < p <==> m < p
    decreases p
  {
    OnesNext(m);
    if p > 1 && m > 0 { OnesBelow(m / 2, p / 2); }
  }

  const TOP: nat := 0x8000_0000_0000_0000

  lemma TopIsPower()
    ensures PowerOfTwo(TOP) && PowerOfTwo(TWO64) && Log(TWO64) == 64 && !PowerOfTwo(0)
  {
    hide PowerOfTwo, Log, Two;
    TwoIsPower(63);
    TwoIsPower(64);
    TopIs();
  }

  function Two(k: nat): nat {
    if k == 0 then 1 else 2 * Two(k - 1)
  }

  lemma {:induction false} TwoIsPower(k: nat)
    ensures PowerOfTwo(Two(k)) && Log(Two(k)) == k && Two(k) >= 1 && !PowerOfTwo(0)
  {
    if k > 0 {
      TwoIsPower(k - 1);
      DoublePower(Two(k - 1));
      assert 2 * Two(k - 1) / 2 == Two(k - 1);
    }
  }

  lemma TopIs()
    ensures Two(63) == TOP && Two(64) == TWO64
  {
    assert Two(8) == 0x100;
    assert Two(16) == 0x1_0000;
    assert Two(24) == 0x100_0000;
    assert Two(32) == 0x1_0000_0000;
    assert Two(40) == 0x100_0000_0000;
    assert Two(48) == 0x1_0000_0000_0000;
    assert Two(56) == 0x100_0000_0000_0000;
  }

  /** The result is a power of two at least `n` and less than twice as large,
      exactly when 64 bits can hold it; above it wraps to zero. */
  lemma NextPowerIsNext(n: U64)
    ensures var p := NextPowerOfTwo(n);
            PowerOfTwo(p) && n <= p && (n > 0 ==> p < 2 * n) <==> n <= TOP
    ensures n > TOP ==> NextPowerOfTwo(n) == 0
  {
    hide Smear, Ones, PowerOfTwo, Log;
    TopIsPower();
    PowerOne();
    if n > 0 {
      var m := n - 1;
      SmearIsOnes(m);
      OnesNext(m);
      OnesBelow(m, TOP);
      OnesBelow(m, TWO64);
      if n > TOP { PowerGap(Ones(m) + 1); }
    }
  }

  lemma PowerOne()
    ensures PowerOfTwo(1)
  {
  }

  lemma SmearIsOnes(m: nat)
    requires m < TWO64
    ensures Smear(m) == Ones(m)
  {
    hide Smear, Ones, PowerOfTwo, Log, Fill, Shift;
    SmearFills(m);
    TopIsPower();
    ShortShift(m, 64, TWO64);
    FillOnes(m, 64);
  }

  lemma PowerGap(p: nat)
    requires PowerOfTwo(p) && TOP < p <= TWO64
    ensures p == TWO64
  {
    TopIsPower();
    NoneBetween(TOP, p);
  }

  lemma {:induction false} NoneBetween(q: nat, p: nat)
    requires PowerOfTwo(q) && PowerOfTwo(p) && q < p
    ensures 2 * q <= p
    decreases q
  {
    if q > 1 { NoneBetween(q / 2, p / 2); }
  }
}
