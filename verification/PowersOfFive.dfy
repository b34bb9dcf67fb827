// Multiplication by a power of five, with a table of 625^(2^i) that is shared by all calls
// and grows on demand.
module PowersOfFive {
  import opened Arith
  import opened Bignum

  // 625^(2^i)
  function Square5(i: nat): (v: nat)
    ensures v > 0
  {
    PowPositive(625, Pow(2, i));
    Pow(625, Pow(2, i))
  }

  lemma Square5Next(i: nat)
    ensures Square5(i + 1) == Square5(i) * Square5(i)
  {
    PowAdd(625, Pow(2, i), Pow(2, i));
  }

  class Powers {
    var p5s: seq<Bigint>

    ghost function Repr(): set<object>
      reads this
    {
      (set b: object | b in p5s) + (set b: Bigint | b in p5s :: b.x)
    }

    // Node i of the list holds 625^(2^i).
    ghost predicate Valid()
      reads this, Repr()
    {
      forall i :: 0 <= i < |p5s| ==>
        p5s[i].Valid() && p5s[i].wds > 0 && p5s[i].Value() == Square5(i)
    }

    constructor ()
      ensures Valid() && p5s == []
    {
      p5s := [];
    }

    // The list only grows, and its nodes stay as they are.
    twostate predicate Extends()
      reads this
    {
      old(p5s) <= p5s && forall i :: |old(p5s)| <= i < |p5s| ==> fresh(p5s[i]) && fresh(p5s[i].x)
    }

    // i2b(625)
    method Start()
      requires Valid() && p5s == []
      modifies this
      ensures Valid() && |p5s| == 1 && Extends()
    {
      var b := new Bigint(1);
      b.x[0] := 625;
      b.wds := 1;
      assert b.x[..1] == [] + [625];
      ValSnoc([], 625);
      FirstSquare();
      p5s := [b];
    }

    // The square of the last node goes behind it.
    method Grow()
      requires Valid() && p5s != []
      modifies this
      ensures Valid() && |p5s| == |old(p5s)| + 1 && Extends()
    {
      var p5 := p5s[|p5s| - 1];
      var p51 := Mult(p5, p5);
      Square5Next(|p5s| - 1);
      ZeroIsShort(p51);
      p5s := p5s + [p51];
    }

    method MultiplyIf(odd: bool, b: Bigint, i: nat) returns (r: Bigint)
      requires Valid() && i < |p5s| && b.Valid() && b.Value() > 0
      ensures r.Valid() && r.Value() == if odd then b.Value() * Square5(i) else b.Value()
      ensures if odd then fresh(r) && fresh(r.x) else r == b
    {
      r := b;
      if odd {
        ZeroIsShort(r);
        r := Mult(r, p5s[i]);
      }
    }

    // The loop of pow5mult: the bits of n choose the squares to multiply by.
    method MultiplySquares(b: Bigint, n0: nat) returns (r: Bigint)
      requires Valid() && p5s != [] && n0 > 0
      requires b.Valid() && b.Value() > 0 && {b, b.x} !! Repr()
      modifies this
      ensures Valid() && Extends()
      ensures Owned(b, r) && r.Valid() && {r, r.x} !! Repr()
      ensures r.Value() == b.Value() * Pow(625, n0)
    {
      hide Scaled, Square5, Pow;
      r := b;
      var i, n := 0, n0;
      ScaledStart(b.Value(), n);
      ghost var v := b.Value();
      while true
        invariant n > 0 && i < |p5s| && b.Value() == v
        invariant Valid() && Extends() && Owned(b, r) && r.Valid() && {r, r.x} !! Repr()
        invariant r.Value() > 0 && Scaled(r.Value(), i, n) == Scaled(v, 0, n0)
        decreases n
      {
        ScaledStep(r.Value(), i, n);
        r := MultiplyIf(n % 2 == 1, r, i);
        n := n / 2;
        if n == 0 {
          break;
        }
        if i + 1 == |p5s| {
          Grow();
        }
        i := i + 1;
      }
    }

    // b * 5^k
    method Pow5Mult(b: Bigint, k: nat) returns (r: Bigint)
      requires Valid() && b.Valid() && b.Value() > 0 && {b, b.x} !! Repr()
      modifies this, b, b.x
      ensures Valid() && Extends()
      ensures Owned(b, r) && r.Valid() && {r, r.x} !! Repr()
      ensures r.Value() == old(b.Value()) * Pow(5, k)
    {
      r := b;
      SplitExponent(b.Value(), k);
      if k % 4 != 0 {
        var p05 := [5, 25, 125];
        r := MultAdd(b, p05[k % 4 - 1], 0);
      }
      if k / 4 == 0 {
        return;
      }
      if p5s == [] {
        Start();
      }
      r := MultiplySquares(r, k / 4);
    }
  }

  lemma ZeroIsShort(b: Bigint)
    requires b.Valid() && b.Value() > 0
    ensures b.wds > 0
  {
  }

  lemma SmallPowers5()
    ensures Pow(5, 0) == 1 && Pow(5, 1) == 5 && Pow(5, 2) == 25 && Pow(5, 3) == 125 && Pow(5, 4) == 625
  {
  }

  lemma {:induction false} FourthPowers(n: nat)
    ensures Pow(625, n) == Pow(5, 4 * n)
  {
    SmallPowers5();
    if n > 0 {
      FourthPowers(n - 1);
      PowAdd(5, 4, 4 * (n - 1));
    }
  }

  lemma FirstSquare()
    ensures Square5(0) == 625
  {
    assert Pow(2, 0) == 1 && Pow(625, 1) == 625;
  }

  lemma SplitExponent(v: int, k: nat)
    requires v > 0
    ensures k % 4 == 0 ==> v * Pow(625, k / 4) == v * Pow(5, k)
    ensures k % 4 != 0 ==> var m := [5, 25, 125][k % 4 - 1]; v * m > 0 && (v * m) * Pow(625, k / 4) == v * Pow(5, k)
    ensures k / 4 == 0 && k % 4 == 0 ==> v * Pow(5, k) == v
    ensures k / 4 == 0 && k % 4 != 0 ==> v * Pow(5, k) == v * [5, 25, 125][k % 4 - 1]
  {
    SmallPowers5();
    FourthPowers(k / 4);
    PowAdd(5, k % 4, 4 * (k / 4));
    MulAssoc(v, Pow(5, k % 4), Pow(625, k / 4));
  }

  // What is left to multiply: v * (625^(2^i))^n.
  function Scaled(v: int, i: nat, n: nat): int {
    v * Pow(Square5(i), n)
  }

  lemma ScaledStart(v: int, n: nat)
    ensures Scaled(v, 0, n) == v * Pow(625, n)
  {
    FirstSquare();
  }

  // One bit of the exponent.
  lemma ScaledStep(v: nat, i: nat, n: nat)
    requires v > 0 && n > 0
    ensures var w := if n % 2 == 1 then v * Square5(i) else v;
            w > 0 && Scaled(w, i + 1, n / 2) == Scaled(v, i, n) && (n / 2 == 0 ==> w == Scaled(v, i, n))
  {
    var x, m := Square5(i), n / 2;
    Square5Next(i);
    assert Pow(x, 0) == 1 && Pow(x, 1) == x && Pow(x, 2) == x * x;
    PowSquared(x, m);
    PowAdd(x, n % 2, 2 * m);
    MulAssoc(v, Pow(x, n % 2), Pow(x, 2 * m));
    MulMonotone(v, 1, x);
  }
}
