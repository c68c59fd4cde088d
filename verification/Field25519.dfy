/** Arithmetic mod 2^255 - 19 on ten limbs of alternately 26 and 25 bits
    (sdk/tools/zz9k-crypto-soft.c), for section 5 of RFC 7748. */
module Field25519 {
  import opened Ring

  const P25519: nat := 0x7FFF_FFFF_FFFF_FFFF_FFFF_FFFF_FFFF_FFFF_FFFF_FFFF_FFFF_FFFF_FFFF_FFFF_FFFF_FFED

  /** The number that ten limbs stand for. */
  function Val(l: seq<int>): int
    requires |l| == 10
  {
    l[0]
      + 0x400_0000 * l[1]
      + 0x8_0000_0000_0000 * l[2]
      + 0x2000_0000_0000_0000_0000 * l[3]
      + 0x40_0000_0000_0000_0000_0000_0000 * l[4]
      + 0x1_0000_0000_0000_0000_0000_0000_0000_0000 * l[5]
      + 0x200_0000_0000_0000_0000_0000_0000_0000_0000_0000 * l[6]
      + 0x8_0000_0000_0000_0000_0000_0000_0000_0000_0000_0000_0000 * l[7]
      + 0x1000_0000_0000_0000_0000_0000_0000_0000_0000_0000_0000_0000_0000 * l[8]
      + 0x40_0000_0000_0000_0000_0000_0000_0000_0000_0000_0000_0000_0000_0000_0000 * l[9]
  }

  /** The weight of limb `i`: 2 to the 0, 26, 51, 77, 102, 128, 153, 179, 204, 230. */
  function Weight(i: nat): (w: nat)
    requires i < 10
  {
    match i
    case 0 => 1
    case 1 => 0x400_0000
    case 2 => 0x8_0000_0000_0000
    case 3 => 0x2000_0000_0000_0000_0000
    case 4 => 0x40_0000_0000_0000_0000_0000_0000
    case 5 => 0x1_0000_0000_0000_0000_0000_0000_0000_0000
    case 6 => 0x200_0000_0000_0000_0000_0000_0000_0000_0000_0000
    case 7 => 0x8_0000_0000_0000_0000_0000_0000_0000_0000_0000_0000_0000
    case 8 => 0x1000_0000_0000_0000_0000_0000_0000_0000_0000_0000_0000_0000_0000
    case _ => 0x40_0000_0000_0000_0000_0000_0000_0000_0000_0000_0000_0000_0000_0000_0000
  }

  /** Multiplying by 2^51 moves every limb up two positions; those that leave wrap times 19. */
  function Up2(q: seq<int>): (c: seq<int>)
    requires |q| == 10
    ensures |c| == 10
  {
    [19 * q[8], 19 * q[9], q[0], q[1], q[2], q[3], q[4], q[5], q[6], q[7]]
  }

  /** Multiplying by 2^26 moves every limb up one position, with a doubling where a limb leaves a
      25-bit position, because the weights of two such positions add up to one bit too many. */
  function Up1(q: seq<int>): (c: seq<int>)
    requires |q| == 10
    ensures |c| == 10
  {
    [38 * q[9], q[0], 2 * q[1], q[2], 2 * q[3], q[4], 2 * q[5], q[6], 2 * q[7], q[8]]
  }

  lemma Up2Value(q: seq<int>)
    requires |q| == 10
    ensures 0x8_0000_0000_0000 * Val(q) == Val(Up2(q)) + (q[8] + 0x400_0000 * q[9]) * P25519
  {
  }

  lemma Up1Value(q: seq<int>)
    requires |q| == 10
    ensures 0x400_0000 * Val(q) == Val(Up1(q)) + 2 * q[9] * P25519
  {
  }

  /** Where the products of limb `i` of one factor with the limbs of the other go. */
  function RowLimbs(i: nat, q: seq<int>): (c: seq<int>)
    requires i < 10 && |q| == 10
    ensures |c| == 10
  {
    if i == 0 then q else if i == 1 then Up1(q) else Up2(RowLimbs(i - 2, q))
  }

  lemma {:induction false} RowValue(i: nat, q: seq<int>)
    requires i < 10 && |q| == 10
    ensures Cong(Val(RowLimbs(i, q)), Weight(i) * Val(q), P25519)
  {
    if i == 0 {
    } else if i == 1 {
      Up1Value(q);
      CongByMultiple(Weight(1) * Val(q), Val(Up1(q)), 2 * q[9], P25519);
    } else {
      var c := RowLimbs(i - 2, q);
      RowValue(i - 2, q);
      Up2Value(c);
      CongByMultiple(Weight(2) * Val(c), Val(Up2(c)), c[8] + 0x400_0000 * c[9], P25519);
      CongMul(Weight(2), Weight(2), Val(c), Weight(i - 2) * Val(q), P25519);
      assert Weight(2) * Weight(i - 2) == Weight(i);
      assert Weight(2) * (Weight(i - 2) * Val(q)) == Weight(i) * Val(q);
    }
  }

  /** The multiples of the first factor's limbs in column `k`, and those of the second's. */
  function Left(f: seq<int>, k: nat, i: nat): int
    requires |f| == 10 && i < 10
  {
    if i % 2 == 1 && k % 2 == 0 then 2 * f[i] else f[i]
  }

  function Right(g: seq<int>, k: nat, i: nat): int
    requires |g| == 10 && k < 10 && i < 10
  {
    if k >= i then g[k - i] else 19 * g[k - i + 10]
  }

  function Scaled(x: int, g: seq<int>): (q: seq<int>)
    requires |g| == 10
    ensures |q| == 10 && forall j :: 0 <= j < 10 ==> q[j] == x * g[j]
  {
    seq(10, j requires 0 <= j < 10 => x * g[j])
  }

  /** Position by position, a row is one term of each column. */
  lemma {:induction false} RowAt(i: nat, q: seq<int>, k: nat)
    requires i < 10 && |q| == 10 && k < 10
    ensures RowLimbs(i, q)[k]
      == (if i % 2 == 1 && k % 2 == 0 then 2 else 1) * (if k >= i then q[k - i] else 19 * q[k - i + 10])
  {
    if i >= 2 {
      RowAt(i - 2, q, if k >= 2 then k - 2 else k + 8);
    }
  }

  lemma RowTerm(i: nat, f: seq<int>, g: seq<int>, k: nat)
    requires |f| == 10 && |g| == 10 && i < 10 && k < 10
    ensures RowLimbs(i, Scaled(f[i], g))[k] == Left(f, k, i) * Right(g, k, i)
  {
    RowAt(i, Scaled(f[i], g), k);
    SmallFactors(f[i], if k >= i then g[k - i] else g[k - i + 10]);
  }

  lemma SmallFactors(x: int, y: int)
    ensures x * (19 * y) == 19 * (x * y) && (2 * x) * y == 2 * (x * y) && (2 * x) * (19 * y) == 2 * (19 * (x * y))
  {
  }

  /** The first `n` terms of column `k`. */
  function Column(f: seq<int>, g: seq<int>, k: nat, n: nat): int
    requires |f| == 10 && |g| == 10 && k < 10 && n <= 10
  {
    if n == 0 then 0 else Column(f, g, k, n - 1) + Left(f, k, n - 1) * Right(g, k, n - 1)
  }

  function Columns(f: seq<int>, g: seq<int>, n: nat): (c: seq<int>)
    requires |f| == 10 && |g| == 10 && n <= 10
    ensures |c| == 10
  {
    seq(10, k requires 0 <= k < 10 => Column(f, g, k, n))
  }

  function ValTo(f: seq<int>, n: nat): int
    requires |f| == 10 && n <= 10
  {
    if n == 0 then 0 else ValTo(f, n - 1) + Weight(n - 1) * f[n - 1]
  }

  lemma ValToIsVal(f: seq<int>)
    requires |f| == 10
    ensures ValTo(f, 10) == Val(f)
  {
    assert ValTo(f, 1) == ValTo(f, 0) + Weight(0) * f[0];
    assert ValTo(f, 2) == ValTo(f, 1) + Weight(1) * f[1];
    assert ValTo(f, 4) == ValTo(f, 2) + Weight(2) * f[2] + Weight(3) * f[3];
    assert ValTo(f, 6) == ValTo(f, 4) + Weight(4) * f[4] + Weight(5) * f[5];
    assert ValTo(f, 8) == ValTo(f, 6) + Weight(6) * f[6] + Weight(7) * f[7];
    assert ValTo(f, 10) == ValTo(f, 8) + Weight(8) * f[8] + Weight(9) * f[9];
  }

  lemma ValOfSum(a: seq<int>, b: seq<int>, c: seq<int>)
    requires |a| == |b| == |c| == 10 && forall k :: 0 <= k < 10 ==> c[k] == a[k] + b[k]
    ensures Val(c) == Val(a) + Val(b)
  {
  }

  lemma ValOfScaled(x: int, g: seq<int>)
    requires |g| == 10
    ensures Val(Scaled(x, g)) == x * Val(g)
  {
    var q := Scaled(x, g);
    ScaledTo(x, g, 10);
    ValToIsVal(q);
    ValToIsVal(g);
  }

  lemma {:induction false} ScaledTo(x: int, g: seq<int>, n: nat)
    requires |g| == 10 && n <= 10
    ensures ValTo(Scaled(x, g), n) == x * ValTo(g, n)
  {
    if n > 0 {
      ScaledTo(x, g, n - 1);
      ScaledTerm(x, ValTo(g, n - 1), Weight(n - 1), g[n - 1]);
    }
  }

  lemma ScaledTerm(x: int, v: int, w: int, y: int)
    ensures x * v + w * (x * y) == x * (v + w * y)
  {
    assert w * (x * y) == x * (w * y);
  }

  /** The columns stand for the product, mod the prime, row by row of the first factor. */
  lemma {:induction false} ColumnsAreProduct(f: seq<int>, g: seq<int>, n: nat)
    requires |f| == 10 && |g| == 10 && n <= 10
    ensures Cong(Val(Columns(f, g, n)), ValTo(f, n) * Val(g), P25519)
  {
    if n > 0 {
      ColumnsAreProduct(f, g, n - 1);
      AddRow(f, g, n - 1);
    }
  }

  lemma AddRow(f: seq<int>, g: seq<int>, i: nat)
    requires |f| == 10 && |g| == 10 && i < 10
    requires Cong(Val(Columns(f, g, i)), ValTo(f, i) * Val(g), P25519)
    ensures Cong(Val(Columns(f, g, i + 1)), ValTo(f, i + 1) * Val(g), P25519)
  {
    var q := Scaled(f[i], g);
    ColumnsGrow(f, g, i);
    RowValue(i, q);
    ValOfScaled(f[i], g);
    AddRowValues(Val(Columns(f, g, i + 1)), Val(Columns(f, g, i)), Val(RowLimbs(i, q)), Val(q),
                 ValTo(f, i + 1), ValTo(f, i), Weight(i), f[i], Val(g), P25519);
  }

  lemma AddRowValues(c': int, c: int, row: int, q: int, v': int, v: int, w: int, x: int, g: int, m: nat)
    requires c' == c + row && v' == v + w * x && q == x * g
    requires Cong(c, v * g, m) && Cong(row, w * q, m)
    ensures Cong(c', v' * g, m)
  {
    CongAdd(c, v * g, row, w * q, m);
    DistributeRow(v, w, x, g);
  }

  lemma ColumnsGrow(f: seq<int>, g: seq<int>, i: nat)
    requires |f| == 10 && |g| == 10 && i < 10
    ensures Val(Columns(f, g, i + 1)) == Val(Columns(f, g, i)) + Val(RowLimbs(i, Scaled(f[i], g)))
  {
    var row := RowLimbs(i, Scaled(f[i], g));
    forall k | 0 <= k < 10 ensures Columns(f, g, i + 1)[k] == Columns(f, g, i)[k] + row[k] {
      RowTerm(i, f, g, k);
    }
    ValOfSum(Columns(f, g, i), row, Columns(f, g, i + 1));
  }

  lemma DistributeRow(v: int, w: int, x: int, g: int)
    ensures v * g + w * (x * g) == (v + w * x) * g
  {
    assert w * (x * g) == (w * x) * g;
  }
}
