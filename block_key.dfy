/** World point to block key: each axis is snapped to the lower corner of its
    cubic cell of edge `blockSize`, the cells being offset by 3 units, cast to
    `int` and printed; the three numbers are joined by '_'. */
module BlockKey {
  import opened Geometry
  import opened Decimal
  import Text
  import Arith

  /** The fixed offset of the cell grid, on both the writing and the reading side. */
  const Bias: real := 3.0

  const Separator: char := '_'

  /** The C++ `(int)` conversion of a floating value: truncation toward zero. */
  function Trunc(x: real): (n: int)
    ensures x >= 0.0 ==> n as real <= x < n as real + 1.0
    ensures x < 0.0 ==> n as real - 1.0 < x <= n as real
  {
    if x >= 0.0 then x.Floor else -((-x).Floor)
  }

  /** `floor((v - 3) / blockSize) * blockSize + 3`: the corner of the cell
      holding `v`, before the cast. */
  function Anchor(v: real, blockSize: real): real
    requires blockSize > 0.0
  {
    ((v - Bias) / blockSize).Floor as real * blockSize + Bias
  }

  /** One key component: the cast of the cell corner (FileCategorize.cpp
      `convert`, one axis). */
  function Component(v: real, blockSize: real): int
    requires blockSize > 0.0
  {
    Trunc(Anchor(v, blockSize))
  }

  /** `convert`: the key string "x_y_z" of the block holding `p`. */
  function Convert(p: Vec3, blockSize: real): string
    requires blockSize > 0.0
  {
    IntToString(Component(p.x, blockSize)) + [Separator]
      + IntToString(Component(p.y, blockSize)) + [Separator]
      + IntToString(Component(p.z, blockSize))
  }

  /** The three numbers of the key of `p`, in axis order. */
  function Components(p: Vec3, blockSize: real): seq<int>
    requires blockSize > 0.0
  {
    [Component(p.x, blockSize), Component(p.y, blockSize), Component(p.z, blockSize)]
  }

  lemma FloorBetween(q: real, k: int)
    requires k as real <= q < k as real + 1.0
    ensures q.Floor == k
  {
  }

  /** The cell corner is at or below `v`, less than one block below. */
  lemma AnchorContains(v: real, blockSize: real)
    requires blockSize > 0.0
    ensures Anchor(v, blockSize) <= v < Anchor(v, blockSize) + blockSize
  {
    var q := (v - Bias) / blockSize;
    var k := q.Floor;
    assert q * blockSize == v - Bias;
    MulLeq(k as real, q, blockSize);
    MulLt(q, k as real + 1.0, blockSize);
    var hi := (k as real + 1.0) * blockSize;
    assert q * blockSize < hi;
    assert hi == k as real * blockSize + blockSize;
    assert Anchor(v, blockSize) == k as real * blockSize + Bias;
  }

  lemma MulLeq(a: real, b: real, c: real)
    requires a <= b && c > 0.0
    ensures a * c <= b * c
  {
  }

  lemma MulLt(a: real, b: real, c: real)
    requires a < b && c > 0.0
    ensures a * c < b * c
  {
  }

  /** All values in one half-open cell `[3 + k*bs, 3 + (k+1)*bs)` get the same
      component, that of the cell's corner. */
  lemma CellConstant(v: real, blockSize: real, k: int)
    requires blockSize > 0.0
    requires Bias + k as real * blockSize <= v < Bias + (k as real + 1.0) * blockSize
    ensures Anchor(v, blockSize) == k as real * blockSize + Bias
    ensures Component(v, blockSize) == Trunc(k as real * blockSize + Bias)
  {
    var q := (v - Bias) / blockSize;
    assert q * blockSize == v - Bias;
    if q < k as real {
      MulLt(q, k as real, blockSize);
    }
    if q >= k as real + 1.0 {
      MulLeq(k as real + 1.0, q, blockSize);
    }
    FloorBetween(q, k);
  }

  lemma TruncMonotone(a: real, b: real)
    requires a <= b
    ensures Trunc(a) <= Trunc(b)
  {
  }

  /** The component never decreases as the coordinate grows. */
  lemma ComponentMonotone(v: real, w: real, blockSize: real)
    requires blockSize > 0.0
    requires v <= w
    ensures Component(v, blockSize) <= Component(w, blockSize)
  {
    var qv, qw := (v - Bias) / blockSize, (w - Bias) / blockSize;
    assert qv * blockSize == v - Bias && qw * blockSize == w - Bias;
    if qv > qw {
      MulLt(qw, qv, blockSize);
    }
    assert qv.Floor <= qw.Floor;
    MulLeq(qv.Floor as real, qw.Floor as real, blockSize);
    TruncMonotone(Anchor(v, blockSize), Anchor(w, blockSize));
  }

  /** The cast moves the corner by less than one unit. */
  lemma ComponentNearAnchor(v: real, blockSize: real)
    requires blockSize > 0.0
    ensures Anchor(v, blockSize) - 1.0 < Component(v, blockSize) as real < Anchor(v, blockSize) + 1.0
  {
  }

  /** With a whole-number block size the cast is exact: the component `c`
      satisfies `c <= v < c + blockSize` and `c - 3` is a multiple of the
      block size, so `v` lies in the block anchored at `c`. */
  lemma IntegerBlockAnchored(v: real, n: nat)
    requires n > 0
    ensures var c := Component(v, n as real);
      && c as real <= v < c as real + n as real
      && (c - 3) % n == 0
  {
    var bs := n as real;
    var k := ((v - Bias) / bs).Floor;
    assert Anchor(v, bs) == (k * n + 3) as real;
    assert Trunc((k * n + 3) as real) == k * n + 3;
    AnchorContains(v, bs);
    assert (k * n + 3 - 3) % n == 0 by {
      assert k * n + 3 - 3 == k * n;
      Arith.MulMod(k, n);
    }
  }

  /** The key is three `to_string` integers joined by exactly two '_', and
      splitting it on '_' gives back those three numbers' texts. */
  lemma KeyFormat(p: Vec3, blockSize: real)
    requires blockSize > 0.0
    ensures var ts := Text.Tokens(Convert(p, blockSize), Separator);
      && |ts| == 3
      && (forall i :: 0 <= i < 3 ==> IsDecimalInt(ts[i]) && ts[i] == IntToString(Components(p, blockSize)[i]))
    ensures Text.Count(Convert(p, blockSize), Separator) == 2
    ensures '/' !in Convert(p, blockSize)
  {
    var x, y, z := Component(p.x, blockSize), Component(p.y, blockSize), Component(p.z, blockSize);
    KeyText(x, y, z);
    var key := IntToString(x) + [Separator] + IntToString(y) + [Separator] + IntToString(z);
    assert Convert(p, blockSize) == key;
    var ts := Text.Tokens(key, Separator);
    var cs := Components(p, blockSize);
    assert cs == [x, y, z];
    forall i | 0 <= i < 3 ensures IsDecimalInt(ts[i]) && ts[i] == IntToString(cs[i]) {
      if i == 0 {
        assert ts[i] == IntToString(x);
      } else if i == 1 {
        assert ts[i] == IntToString(y);
      } else {
        assert ts[i] == IntToString(z);
      }
    }
  }

  /** The text of a key with components `x`, `y`, `z`. */
  lemma KeyText(x: int, y: int, z: int)
    ensures var key := IntToString(x) + [Separator] + IntToString(y) + [Separator] + IntToString(z);
      var ts := Text.Tokens(key, Separator);
      && ts == [IntToString(x), IntToString(y), IntToString(z)]
      && IsDecimalInt(ts[0]) && IsDecimalInt(ts[1]) && IsDecimalInt(ts[2])
      && Text.Count(key, Separator) == 2
      && '/' !in key
  {
    var a, b, c := IntToString(x), IntToString(y), IntToString(z);
    var key := a + [Separator] + b + [Separator] + c;
    NoSeparator(x);
    NoSeparator(y);
    NoSeparator(z);
    Text.ThreeTokens(a, b, c, Separator);
    IntToStringIsDecimal(x);
    IntToStringIsDecimal(y);
    IntToStringIsDecimal(z);
    Text.TokensSpec(key, Separator);
    NoSlashInKey(a, b, c);
  }

  lemma NoSlashInKey(a: string, b: string, c: string)
    requires '/' !in a && '/' !in b && '/' !in c
    ensures '/' !in a + [Separator] + b + [Separator] + c
  {
    var k := a + [Separator] + b + [Separator] + c;
    forall i | 0 <= i < |k| ensures k[i] != '/' {
      if i < |a| {
        assert k[i] == a[i];
      } else if i == |a| {
      } else if i < |a| + 1 + |b| {
        assert k[i] == b[i - |a| - 1];
      } else if i == |a| + 1 + |b| {
      } else {
        assert k[i] == c[i - |a| - |b| - 2];
      }
    }
  }

  /** A printed integer holds neither a '_' nor a '/'. */
  lemma NoSeparator(n: int)
    ensures Separator !in IntToString(n) && '/' !in IntToString(n)
  {
    var s := IntToString(n);
    IntToStringIsDecimal(n);
    forall i | 0 <= i < |s| ensures s[i] != Separator && s[i] != '/' {
      if i > 0 || s[0] != '-' {
        if n < 0 {
          assert s[i] == s[1..][i - 1];
        }
      }
    }
  }
}
