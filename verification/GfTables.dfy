/**
 The two lookup tables of src/gf256.c, filled once at start-up.
 */
module GfTables {
  import opened Gf256

  class Tables {
    const mulTable: array2<bv8>
    const invTable: array<bv8>

    ghost predicate ProductsFilled(rows: nat)
      requires mulTable.Length0 == 256 && mulTable.Length1 == 256
      reads mulTable
    {
      forall a: bv8, b: bv8 :: a as int < rows ==> mulTable[a as int, b as int] == Gf256.Mul(a, b)
    }

    ghost predicate Valid()
      reads mulTable, invTable
    {
      && mulTable.Length0 == 256 && mulTable.Length1 == 256 && invTable.Length == 256
      && ProductsFilled(256) && IsInverseTable(invTable[..], 256)
    }

    constructor ()
      ensures Valid() && fresh(mulTable) && fresh(invTable)
    {
      mulTable := new bv8[256, 256];
      invTable := new bv8[256];
      new;
      FillProducts();
      FillInverses();
    }

    method FillProducts()
      requires mulTable.Length0 == 256 && mulTable.Length1 == 256
      modifies mulTable
      ensures ProductsFilled(256)
    {
      var x: bv8 := 0;  // the row index as a byte
      for a := 0 to 256
        invariant ProductsFilled(a)
        invariant a < 256 ==> x as int == a
      {
        var y: bv8 := 0;
        for b := 0 to 256
          invariant ProductsFilled(a)
          invariant forall v: bv8 :: v as int < b ==> mulTable[a, v as int] == Gf256.Mul(x, v)
          invariant b < 256 ==> y as int == b
        {
          var p := ShiftAndXor(x, y);
          mulTable[a, b] := p;
          forall v: bv8 | v as int < b + 1
            ensures mulTable[a, v as int] == Gf256.Mul(x, v)
          {
            if v as int == b {
              SameByte(v, y);
            }
          }
          NextByteAsInt(y);
          y := y + 1;
        }
        forall u: bv8, v: bv8 | u as int < a + 1
          ensures mulTable[u as int, v as int] == Gf256.Mul(u, v)
        {
          if u as int == a {
            SameByte(u, x);
          }
        }
        NextByteAsInt(x);
        x := x + 1;
      }
    }

    method FillInverses()
      requires mulTable.Length0 == 256 && mulTable.Length1 == 256 && invTable.Length == 256
      requires ProductsFilled(256)
      modifies invTable
      ensures IsInverseTable(invTable[..], 256)
    {
      invTable[0] := 0;
      ExtendInverses(invTable[..], 0, 0);
      var x: bv8 := 1;
      for a := 1 to 256
        invariant IsInverseTable(invTable[..], a)
        invariant a < 256 ==> x as int == a
      {
        var y := SearchRow(a, x);
        ghost var before := invTable[..];
        invTable[a] := y;
        assert invTable[..] == before[a := y];
        ExtendInverses(invTable[..], a, x);
        NextByteAsInt(x);
        x := x + 1;
      }
    }

    // The first entry 1 of row a.
    method SearchRow(a: nat, x: bv8) returns (y: bv8)
      requires mulTable.Length0 == 256 && mulTable.Length1 == 256
      requires ProductsFilled(256)
      requires 1 <= a < 256 && x as int == a
      ensures y == Inv(x)
    {
      y := 1;
      var b := 1;
      while b < 256
        invariant 1 <= b <= 256
        invariant b < 256 ==> y as int == b
        invariant forall v: bv8 :: 1 <= v as int < b ==> Gf256.Mul(x, v) != 1
      {
        if mulTable[a, b] == 1 {
          break;
        }
        forall v: bv8 | 1 <= v as int < b + 1
          ensures Gf256.Mul(x, v) != 1
        {
          if v as int == b {
            SameByte(v, y);
          }
        }
        NextByteAsInt(y);
        b := b + 1;
        y := y + 1;
      }
      SearchEnds(x, y, b);
    }

    method Mul(a: bv8, b: bv8) returns (r: bv8)
      requires Valid()
      ensures r == Gf256.Mul(a, b)
    {
      r := mulTable[a as int, b as int];
    }

    method Inverse(a: bv8) returns (r: bv8)
      requires Valid()
      ensures r == Inv(a)
      ensures a != 0 ==> Gf256.Mul(a, r) == 1
    {
      r := invTable[a as int];
      if a != 0 {
        InvIsInverse(a);
      }
    }

    method Div(a: bv8, b: bv8) returns (r: bv8)
      requires Valid() && b != 0
      ensures Gf256.Mul(r, b) == a
    {
      var inv := Inverse(b);
      r := Mul(a, inv);
      QuotientTimesDivisor(a, b, inv);
    }
  }

  lemma QuotientTimesDivisor(a: bv8, b: bv8, inv: bv8)
    requires Gf256.Mul(b, inv) == 1
    ensures Gf256.Mul(Gf256.Mul(a, inv), b) == a
  {
    MulAssoc(a, inv, b);
    MulComm(inv, b);
    MulByOneRight(a);
  }

  // The first n entries are the inverses of the bytes below n.
  ghost predicate IsInverseTable(s: seq<bv8>, n: nat)
    requires |s| == 256
  {
    forall a: bv8 :: a as int < n ==> s[a as int] == Inv(a)
  }

  lemma ExtendInverses(s: seq<bv8>, n: nat, x: bv8)
    requires |s| == 256 && n < 256 && x as int == n
    requires IsInverseTable(s, n) && s[n] == Inv(x)
    ensures IsInverseTable(s, n + 1)
  {
    forall a: bv8 | a as int < n + 1
      ensures s[a as int] == Inv(a)
    {
      if a as int == n {
        SameByte(a, x);
      }
    }
  }

  lemma NextByteAsInt(x: bv8)
    ensures x as int < 255 ==> (x + 1) as int == x as int + 1
  {
  }

  // The inner loop: eight steps of shift and exclusive or.
  method ShiftAndXor(a: bv8, b: bv8) returns (p: bv8)
    ensures p == Gf256.Mul(a, b)
  {
    p := 0;
    var aa, bb := a, b;
    ghost var mask: bv8 := 0xff;
    NothingLeft(Gf256.Mul(a, b), a);
    for i := 0 to 8
      invariant IsMask(mask, 8 - i) && bb <= mask
      invariant Combined(p, Gf256.Mul(aa, bb)) == Gf256.Mul(a, b)
    {
      StepKeepsProduct(p, aa, bb, Gf256.Mul(Double(aa), bb >> 1));
      DoubleByBranch(aa);
      MaskStep(bb, mask, 8 - i);
      p := if bb & 1 == 1 then p ^ aa else p;
      var hi := aa & 0x80;
      aa := aa << 1;
      aa := if hi != 0 then aa ^ 0x1d else aa;
      bb := bb >> 1;
      mask := mask >> 1;
    }
    NothingLeft(p, aa);
  }

  ghost function Combined(p: bv8, rest: bv8): bv8
  {
    p ^ rest
  }

  lemma StepKeepsProduct(p: bv8, aa: bv8, bb: bv8, r: bv8)
    requires r == Gf256.Mul(Double(aa), bb >> 1)
    ensures Combined(if bb & 1 == 1 then p ^ aa else p, r) == Combined(p, Gf256.Mul(aa, bb))
  {
    MulStep(aa, bb);
    MoveTerm(p, aa, bb, r);
  }

  lemma MoveTerm(p: bv8, a: bv8, b: bv8, r: bv8)
    ensures Combined(if b & 1 == 1 then p ^ a else p, r) == Combined(p, Step(a, b, r))
  {
  }

  lemma DoubleByBranch(a: bv8)
    ensures (if a & 0x80 != 0 then (a << 1) ^ 0x1d else a << 1) == Double(a)
  {
  }

  lemma NothingLeft(p: bv8, aa: bv8)
    ensures Combined(p, Gf256.Mul(aa, 0)) == p
    ensures Combined(0, p) == p
  {
  }

  lemma MaskStep(b: bv8, m: bv8, n: nat)
    requires n > 0 && IsMask(m, n) && b <= m
    ensures IsMask(m >> 1, n - 1) && b >> 1 <= m >> 1
  {
  }

  lemma InverseIsUnique(a: bv8, b: bv8, c: bv8)
    requires Gf256.Mul(a, b) == 1 && Gf256.Mul(a, c) == 1
    ensures b == c
  {
    MulAssoc(c, a, b);
    MulComm(c, a);
    MulByOne(b);
    MulByOneRight(c);
  }

  // The search for the inverse of a non-zero byte ends below 256, at the inverse.
  lemma SearchEnds(a: bv8, y: bv8, b: int)
    requires a != 0 && 1 <= b <= 256 && (b < 256 ==> y as int == b)
    requires forall v: bv8 :: 1 <= v as int < b ==> Gf256.Mul(a, v) != 1
    requires b < 256 ==> Gf256.Mul(a, y) == 1
    ensures b < 256 && y == Inv(a)
  {
    var c := Inv(a);
    InvIsInverse(a);
    MulComm(a, 0);
    assert c != 0;
    assert 1 <= c as int;
    if b < 256 {
      InverseIsUnique(a, y, c);
    }
  }
}
