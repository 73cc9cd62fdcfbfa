/** Types shared by every component. */
module Base {
  /** A byte of a file or buffer. */
  type byte = x: int | 0 <= x < 256

  datatype Option<+T> = None | Some(value: T)

  datatype Result<+T, +E> = Ok(value: T) | Err(error: E)

  function Min(a: int, b: int): int { if a < b then a else b }

  function Max(a: int, b: int): int { if a < b then b else a }

  /** One if the condition holds. */
  function Um(c: bool): nat { if c then 1 else 0 }

  /** n zero bytes. */
  function Zeros(n: nat): (d: seq<byte>)
    ensures |d| == n && forall i :: 0 <= i < n ==> d[i] == 0
  {
    seq(n, _ => 0)
  }

  /** How many values w bytes can take. */
  function Pow256(w: nat): (m: nat)
    ensures 0 < m
  {
    if w == 0 then 1 else 256 * Pow256(w - 1)
  }

  /** Sum of a sequence of lengths. */
  function Sum(s: seq<nat>): nat {
    if s == [] then 0 else s[0] + Sum(s[1..])
  }

  lemma {:induction false} SumConcat(a: seq<nat>, b: seq<nat>)
    ensures Sum(a + b) == Sum(a) + Sum(b)
  {
    if a == [] {
      assert a + b == b;
    } else {
      assert (a + b)[1..] == a[1..] + b;
      SumConcat(a[1..], b);
    }
  }

  /** The offset of chunk k. */
  function Offset(lens: seq<nat>, k: nat): nat
    requires k <= |lens|
  {
    Sum(lens[..k])
  }

  lemma OffsetZero(lens: seq<nat>)
    ensures Offset(lens, 0) == 0
  {
  }

  lemma OffsetStep(lens: seq<nat>, k: nat)
    requires k < |lens|
    ensures Offset(lens, k + 1) == Offset(lens, k) + lens[k]
  {
    assert lens[..k + 1] == lens[..k] + [lens[k]];
    SumConcat(lens[..k], [lens[k]]);
  }

  lemma OffsetTail(lens: seq<nat>, k: nat)
    requires 0 < k <= |lens|
    ensures Offset(lens, k) == lens[0] + Offset(lens[1..], k - 1)
  {
    assert lens[..k][1..] == lens[1..][..k - 1];
  }

  /** Concatenation of a list of pieces. */
  function Concat<T>(pieces: seq<seq<T>>): seq<T> {
    if pieces == [] then [] else pieces[0] + Concat(pieces[1..])
  }

  lemma {:induction false} ConcatAppend<T>(a: seq<seq<T>>, b: seq<seq<T>>)
    ensures Concat(a + b) == Concat(a) + Concat(b)
  {
    if a == [] {
      assert a + b == b;
    } else {
      assert (a + b)[1..] == a[1..] + b;
      ConcatAppend(a[1..], b);
    }
  }

  lemma ConcatSnoc<T>(a: seq<seq<T>>, x: seq<T>)
    ensures Concat(a + [x]) == Concat(a) + x
  {
    ConcatAppend(a, [x]);
    assert Concat([x]) == x + [];
  }

  lemma MulMono(x: int, y: int, a: nat)
    requires x <= y
    ensures x * a <= y * a
  {
  }

  /** Division by the only quotient that fits. */
  lemma DivIs(x: int, a: int, q: int)
    requires 0 < a && q * a <= x < (q + 1) * a
    ensures x / a == q && x % a == x - q * a
  {
    var d := x / a;
    assert x == d * a + x % a;
    assert (d + 1) * a == d * a + a && (q + 1) * a == q * a + a;
    if d < q {
      MulMono(d + 1, q, a);
    } else if q < d {
      MulMono(q + 1, d, a);
    }
  }

  /** Dividing twice is dividing by the product. */
  lemma DivDiv(x: nat, a: nat, b: nat)
    requires 0 < a && 0 < b
    ensures 0 < a * b && x / (a * b) == x / a / b
  {
    var h := x / a;
    var q := h / b;
    assert x == h * a + x % a && h == q * b + h % b;
    DivDivCabe(x, a, b, h, q);
    DivIs(x, a * b, q);
  }

  lemma DivDivCabe(x: nat, a: nat, b: nat, h: nat, q: nat)
    requires 0 < a && 0 < b && h * a <= x < (h + 1) * a && q * b <= h < (q + 1) * b
    ensures 0 < a * b && q * (a * b) <= x < (q + 1) * (a * b)
  {
    MulMono(q * b, h, a);
    MulMono(h + 1, (q + 1) * b, a);
    MulReorder(q, b, a);
    MulReorder(q + 1, b, a);
    MulMono(1, a, b);
  }

  lemma MulReorder(x: int, y: int, z: int)
    ensures x * y * z == x * (z * y)
  {
  }

  lemma MulLess(x: int, y: int, a: nat)
    requires x * a < y * a
    ensures x < y
  {
    if y <= x { MulMono(y, x, a); }
  }

  lemma DivLe(x: int, y: int, a: int)
    requires 0 < a && x <= y
    ensures x / a <= y / a
    ensures x + a <= y ==> x / a < y / a
  {
    var p, q := x / a, y / a;
    assert x == p * a + x % a && y == q * a + y % a;
    assert (q + 1) * a == q * a + a;
    if q < p { MulMono(q + 1, p, a); }
    if q == p { MulMono(q, p, a); }
  }

  /** s stands at position p of d. */
  ghost predicate At<T>(d: seq<T>, p: nat, s: seq<T>) { p + |s| <= |d| && d[p..p + |s|] == s }

  lemma AtSplit<T>(d: seq<T>, p: nat, a: seq<T>, b: seq<T>)
    requires At(d, p, a + b)
    ensures At(d, p, a) && At(d, p + |a|, b)
  {
    assert d[p..p + |a|] == d[p..p + |a + b|][..|a|];
    assert d[p + |a|..p + |a + b|] == d[p..p + |a + b|][|a|..];
  }

  lemma AtByte<T>(d: seq<T>, p: nat, s: seq<T>, i: nat)
    requires At(d, p, s) && i < |s|
    ensures d[p + i] == s[i]
  {
    assert d[p..p + |s|][i] == s[i];
  }
}
