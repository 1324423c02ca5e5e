/** Bit masks as arithmetic. */
module Masks {
  import opened Numbers

  /** `a & b`, bit by bit. */
  function BitAnd(a: nat, b: nat): nat {
    if a == 0 || b == 0 then 0
    else (if a % 2 == 1 && b % 2 == 1 then 1 else 0) + 2 * BitAnd(a / 2, b / 2)
  }

  /** `a & ~b`, bit by bit. */
  function BitClear(a: nat, b: nat): nat {
    if a == 0 then 0 else (if a % 2 == 1 && b % 2 == 0 then 1 else 0) + 2 * BitClear(a / 2, b / 2)
  }

  /** Every bit is either kept or cleared. */
  lemma {:induction false} ClearIsRest(a: nat, b: nat)
    ensures BitAnd(a, b) + BitClear(a, b) == a
  {
    if a != 0 {
      ClearIsRest(a / 2, b / 2);
    }
  }

  /** A mask of k low bits keeps the remainder. */
  lemma {:induction false} LowMask(v: nat, k: nat)
    ensures BitAnd(v, Pow(2, k) - 1) == v % Pow(2, k)
  {
    if k > 0 {
      var m := Pow(2, k - 1);
      LowMask(v / 2, k - 1);
      ModStep(v, 2, m);
      assert (2 * m - 1) / 2 == m - 1 && (2 * m - 1) % 2 == 1;
    }
  }

  /** `v << k` */
  function ShiftLeft(v: nat, k: nat): nat {
    if k == 0 then v else 2 * ShiftLeft(v, k - 1)
  }

  /** `v >> k` */
  function ShiftRight(v: nat, k: nat): nat {
    if k == 0 then v else ShiftRight(v / 2, k - 1)
  }

  lemma EvenMask(v: nat, y: nat)
    ensures BitAnd(v, 2 * y) == 2 * BitAnd(v / 2, y)
  {
    assert 2 * y / 2 == y && 2 * y % 2 == 0;
  }

  /** A mask that starts at bit k works on the number without its k low bits. */
  lemma {:induction false} ShiftedMask(v: nat, mask: nat, k: nat)
    ensures BitAnd(v, ShiftLeft(mask, k)) == ShiftLeft(BitAnd(ShiftRight(v, k), mask), k)
  {
    hide BitAnd;
    if k > 0 {
      ShiftedMask(v / 2, mask, k - 1);
      EvenMask(v, ShiftLeft(mask, k - 1));
    }
  }

  lemma {:induction false} ShiftsAdd(v: nat, j: nat, k: nat)
    ensures ShiftLeft(v, j + k) == ShiftLeft(ShiftLeft(v, k), j)
    ensures ShiftRight(v, j + k) == ShiftRight(ShiftRight(v, j), k)
  {
    if j > 0 {
      ShiftsAdd(v, j - 1, k);
      ShiftsAdd(v / 2, j - 1, k);
    }
  }

  lemma ShiftTwo(v: nat)
    ensures ShiftLeft(v, 2) == 4 * v && ShiftRight(v, 2) == v / 4
  {
    assert ShiftLeft(v, 1) == 2 * v && ShiftRight(v / 2, 1) == v / 2 / 2;
  }

  lemma ShiftFour(v: nat)
    ensures ShiftLeft(v, 4) == 16 * v && ShiftRight(v, 4) == v / 16
  {
    hide ShiftLeft, ShiftRight;
    ShiftsAdd(v, 2, 2);
    ShiftTwo(v);
    ShiftTwo(4 * v);
    ShiftTwo(v / 4);
  }

  lemma ShiftSix(v: nat)
    ensures ShiftLeft(v, 6) == 64 * v && ShiftRight(v, 6) == v / 64
  {
    hide ShiftLeft, ShiftRight;
    ShiftsAdd(v, 4, 2);
    ShiftTwo(v);
    ShiftFour(4 * v);
    ShiftFour(v);
    ShiftTwo(v / 16);
  }

  lemma ShiftTwelve(v: nat)
    ensures ShiftLeft(v, 12) == 4096 * v && ShiftRight(v, 12) == v / 4096
  {
    hide ShiftLeft, ShiftRight;
    ShiftsAdd(v, 6, 6);
    ShiftSix(v);
    ShiftSix(64 * v);
    ShiftSix(v / 64);
  }

  lemma PowersOfTwo()
    ensures Pow(2, 2) == 4 && Pow(2, 4) == 16 && Pow(2, 6) == 64 && Pow(2, 9) == 512 && Pow(2, 12) == 4096
  {
    assert Pow(2, 3) == 8;
    assert Pow(2, 5) == 32;
    assert Pow(2, 7) == 128;
    assert Pow(2, 8) == 256;
    assert Pow(2, 10) == 1024;
    assert Pow(2, 11) == 2048;
  }
}
