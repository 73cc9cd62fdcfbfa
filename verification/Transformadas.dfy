/** The numeric transforms of bench/openzl_bench.py: delta modulo 2^(8w) and byte-plane
    split, with a tail of len % w bytes left alone.  Each inverse, a loop, is specified as
    the solution of the forward transform. */
module Transformadas {
  import opened Base

  // ---------------------------------------------------------------- little-endian words

  function LerLE(b: seq<byte>): nat {
    if b == [] then 0 else b[0] as int + 256 * LerLE(b[1..])
  }

  function EscreverLE(v: nat, w: nat): (b: seq<byte>)
    ensures |b| == w
  {
    if w == 0 then [] else [v % 256] + EscreverLE(v / 256, w - 1)
  }

  lemma {:induction false} EscreverLer(b: seq<byte>)
    ensures LerLE(b) < Pow256(|b|) && EscreverLE(LerLE(b), |b|) == b
  {
    if b != [] {
      EscreverLer(b[1..]);
      assert LerLE(b) % 256 == b[0] && LerLE(b) / 256 == LerLE(b[1..]);
    }
  }

  lemma {:induction false} LerEscrever(v: nat, w: nat)
    requires v < Pow256(w)
    ensures LerLE(EscreverLE(v, w)) == v
  {
    if w > 0 {
      LerEscrever(v / 256, w - 1);
      assert EscreverLE(v, w)[1..] == EscreverLE(v / 256, w - 1);
    }
  }

  /** Byte k is worth 256^k: the low byte comes first. */
  lemma {:induction false} ByteDaPalavra(b: seq<byte>, k: nat)
    requires k < |b|
    ensures LerLE(b) / Pow256(k) % 256 == b[k]
    decreases k
  {
    assert LerLE(b) % 256 == b[0] && LerLE(b) / 256 == LerLE(b[1..]);
    if k == 0 {
      assert LerLE(b) / 1 == LerLE(b);
    } else {
      ByteDaPalavra(b[1..], k - 1);
      DivDiv(LerLE(b), 256, Pow256(k - 1));
    }
  }

  /** array.frombytes: the words of a string of whole words. */
  function Palavras(dados: seq<byte>, w: nat): seq<nat>
    requires 0 < w
  {
    if |dados| < w then [] else [LerLE(dados[..w])] + Palavras(dados[w..], w)
  }

  /** array.tobytes */
  function Bytes(a: seq<nat>, w: nat): seq<byte> {
    if a == [] then [] else EscreverLE(a[0], w) + Bytes(a[1..], w)
  }

  /** All words are below m. */
  ghost predicate Cabem(a: seq<nat>, m: nat) { forall i :: 0 <= i < |a| ==> a[i] < m }

  lemma PalavrasCons(x: seq<byte>, resto: seq<byte>, w: nat)
    requires 0 < w == |x|
    ensures Palavras(x + resto, w) == [LerLE(x)] + Palavras(resto, w)
  {
    assert (x + resto)[..w] == x && (x + resto)[w..] == resto;
  }

  lemma {:induction false} PalavrasDeBytes(a: seq<nat>, w: nat, cauda: seq<byte>)
    requires 0 < w && |cauda| < w && Cabem(a, Pow256(w))
    ensures Palavras(Bytes(a, w) + cauda, w) == a
  {
    if a == [] {
      assert Bytes(a, w) + cauda == cauda;
    } else {
      var x := EscreverLE(a[0], w);
      LerEscrever(a[0], w);
      PalavrasDeBytes(a[1..], w, cauda);
      PalavrasCons(x, Bytes(a[1..], w) + cauda, w);
      assert Bytes(a, w) + cauda == x + (Bytes(a[1..], w) + cauda);
    }
  }

  lemma {:induction false} BytesTamanho(a: seq<nat>, w: nat)
    ensures |Bytes(a, w)| == |a| * w
  {
    if a != [] {
      BytesTamanho(a[1..], w);
      assert |a| * w == (|a| - 1) * w + w;
    }
  }

  /** Where the whole words end: w times len // w. */
  function Corte(len: nat, w: nat): (c: nat)
    requires 0 < w
    ensures c <= len < c + w
  {
    assert len == len / w * w + len % w;
    len / w * w
  }

  lemma CorteStep(len: nat, w: nat)
    requires 0 < w <= len
    ensures len / w == (len - w) / w + 1 && Corte(len, w) == Corte(len - w, w) + w
  {
    var m := (len - w) / w;
    assert len - w == m * w + (len - w) % w && (m + 1) * w == m * w + w && (m + 2) * w == m * w + 2 * w;
    DivIs(len, w, m + 1);
  }

  lemma CorteCurto(len: nat, w: nat)
    requires len < w
    ensures len / w == 0 && Corte(len, w) == 0
  {
    DivIs(len, w, 0);
  }

  /** Cutting a string into words and a short tail loses nothing. */
  lemma {:induction false} BytesDePalavras(dados: seq<byte>, w: nat)
    requires 0 < w
    ensures |Palavras(dados, w)| == |dados| / w && Cabem(Palavras(dados, w), Pow256(w))
    ensures Bytes(Palavras(dados, w), w) == dados[..Corte(|dados|, w)]
    decreases |dados|
  {
    hide Corte, EscreverLE, LerLE, Pow256;
    if |dados| < w {
      CorteCurto(|dados|, w);
    } else {
      var p := Palavras(dados[w..], w);
      EscreverLer(dados[..w]);
      BytesDePalavras(dados[w..], w);
      CorteStep(|dados|, w);
      PrefixoEmDois(dados, w, Corte(|dados| - w, w));
      assert ([LerLE(dados[..w])] + p)[1..] == p;
    }
  }

  lemma PrefixoEmDois(d: seq<byte>, x: nat, y: nat)
    requires x + y <= |d|
    ensures d[..x + y] == d[..x] + d[x..][..y]
  {
  }

  // ---------------------------------------------------------------- delta

  /** (a[i] - a[i - 1]) & mascara, the first word unchanged. */
  function Diferencas(a: seq<nat>, m: nat): (d: seq<nat>)
    requires 0 < m
    ensures |d| == |a|
  {
    seq(|a|, i requires 0 <= i < |a| => if i == 0 then a[0] else Menos(a[i], a[i - 1], m))
  }

  /** (acc + x) & mascara */
  function Mais(acc: nat, x: nat, m: nat): nat
    requires 0 < m
  {
    (acc + x) % m
  }

  /** x - y modulo m. */
  function Menos(x: nat, y: nat, m: nat): nat
    requires 0 < m
  {
    (x - y) % m
  }

  function TDelta(dados: seq<byte>, w: nat): seq<byte>
    requires 0 < w
  {
    Bytes(Diferencas(Palavras(dados, w), Pow256(w)), w) + dados[Corte(|dados|, w)..]
  }

  lemma DiferencasCabem(a: seq<nat>, m: nat)
    requires 0 < m && Cabem(a, m)
    ensures Cabem(Diferencas(a, m), m)
  {
  }

  /** The delta of given words and a given tail. */
  lemma DeltaDePalavras(a: seq<nat>, cauda: seq<byte>, w: nat)
    requires 0 < w && |cauda| < w && Cabem(a, Pow256(w))
    ensures TDelta(Bytes(a, w) + cauda, w) == Bytes(Diferencas(a, Pow256(w)), w) + cauda
  {
    var r := Bytes(a, w) + cauda;
    BytesTamanho(a, w);
    assert (|a| + 1) * w == |a| * w + w;
    DivIs(|r|, w, |a|);
    PalavrasDeBytes(a, w, cauda);
    assert r[Corte(|r|, w)..] == cauda;
  }

  lemma NaString(i: nat, w: nat, n: nat)
    requires 0 < w && i < n / w
    ensures 0 <= i * w && i * w + w <= n / w * w <= n
  {
    MulMono(i + 1, n / w, w);
    assert (i + 1) * w == i * w + w && n == n / w * w + n % w;
  }

  lemma {:induction false} PalavraEm(dados: seq<byte>, w: nat, i: nat)
    requires 0 < w && i < |dados| / w
    ensures 0 <= i * w && i * w + w <= |dados| && i < |Palavras(dados, w)|
    ensures Palavras(dados, w)[i] == LerLE(dados[i * w..i * w + w])
    decreases i
  {
    NaString(i, w, |dados|);
    if |dados| < w {
      DivIs(|dados|, w, 0);
    } else if i > 0 {
      CorteStep(|dados|, w);
      PalavraEm(dados[w..], w, i - 1);
      assert i * w == (i - 1) * w + w;
      assert dados[w..][(i - 1) * w..(i - 1) * w + w] == dados[i * w..i * w + w];
    }
  }

  /** What the delta is: the first word as it was, every other word less the word before it,
      modulo 2^(8w), and the tail unchanged. */
  lemma DeltaDaString(x: seq<byte>, w: nat, i: nat)
    requires 0 < w && i < |x| / w
    ensures |TDelta(x, w)| == |x| && 0 <= i * w && i * w + w <= |x|
    ensures i > 0 ==> 0 <= (i - 1) * w && (i - 1) * w + w <= |x|
    ensures LerLE(TDelta(x, w)[i * w..i * w + w]) ==
      if i == 0 then LerLE(x[0..w])
      else (LerLE(x[i * w..i * w + w]) - LerLE(x[(i - 1) * w..(i - 1) * w + w])) % Pow256(w)
  {
    hide Corte, Palavras, Bytes, LerLE, Pow256, TDelta;
    var a, cauda := Decompor(x, w);
    var d := Diferencas(a, Pow256(w));
    DiferencasCabem(a, Pow256(w));
    DeltaTamanho(x, w);
    DeltaDePalavras(a, cauda, w);
    PalavrasDeBytes(d, w, cauda);
    PalavraEm(x, w, i);
    PalavraEm(TDelta(x, w), w, i);
    if i > 0 { PalavraEm(x, w, i - 1); }
    assert 0 * w == 0;
  }

  lemma DeltaTamanho(x: seq<byte>, w: nat)
    requires 0 < w
    ensures |TDelta(x, w)| == |x|
    ensures 0 <= |x| / w * w <= |x| && TDelta(x, w)[|x| / w * w..] == x[|x| / w * w..]
  {
    hide Palavras, Bytes, Pow256;
    var d := Diferencas(Palavras(x, w), Pow256(w));
    BytesDePalavras(x, w);
    BytesTamanho(d, w);
    assert Corte(|x|, w) == |x| / w * w;
    assert TDelta(x, w) == Bytes(d, w) + x[Corte(|x|, w)..];
  }

  /** Every string is words and a tail. */
  lemma Decompor(dados: seq<byte>, w: nat) returns (a: seq<nat>, cauda: seq<byte>)
    requires 0 < w
    ensures a == Palavras(dados, w) && cauda == dados[Corte(|dados|, w)..]
    ensures |cauda| < w && Cabem(a, Pow256(w)) && dados == Bytes(a, w) + cauda
  {
    a, cauda := Palavras(dados, w), dados[Corte(|dados|, w)..];
    BytesDePalavras(dados, w);
    assert dados == dados[..Corte(|dados|, w)] + cauda;
  }

  lemma {:induction false} DiferencasInjetivas(a: seq<nat>, b: seq<nat>, m: nat, i: nat)
    requires 0 < m && Cabem(a, m) && Cabem(b, m) && Diferencas(a, m) == Diferencas(b, m) && i < |a|
    ensures |a| == |b| && a[i] == b[i]
  {
    var d := Diferencas(a, m);
    assert |d| == |a| && |d| == |b|;
    if i == 0 {
      assert d[0] == a[0] && d[0] == b[0];
    } else {
      DiferencasInjetivas(a, b, m, i - 1);
      assert d[i] == Menos(a[i], a[i - 1], m) && d[i] == Menos(b[i], b[i - 1], m);
      MesmaDiferenca(a[i], b[i], a[i - 1], m);
    }
  }

  lemma MesmaDiferenca(x: nat, y: nat, p: nat, m: nat)
    requires x < m && y < m && Menos(x, p, m) == Menos(y, p, m)
    ensures x == y
  {
    var i, j := (x - p) / m, (y - p) / m;
    assert x - p == i * m + (x - p) % m && y - p == j * m + (y - p) % m;
    MenosDeUmModulo(x, y, i, j, m);
  }

  lemma MenosDeUmModulo(x: nat, y: nat, i: int, j: int, m: nat)
    requires x < m && y < m && x - y == i * m - j * m
    ensures x == y
  {
    assert (j + 1) * m == j * m + m && (i + 1) * m == i * m + m;
    if i < j { MulMono(i + 1, j, m); }
    if j < i { MulMono(j + 1, i, m); }
  }

  /** Strings of words and tail are equal part by part. */
  lemma MesmasPartes(a: seq<nat>, x: seq<byte>, b: seq<nat>, y: seq<byte>, w: nat)
    requires 0 < w && |x| < w && |y| < w && Cabem(a, Pow256(w)) && Cabem(b, Pow256(w))
    requires Bytes(a, w) + x == Bytes(b, w) + y
    ensures a == b && x == y
  {
    PalavrasDeBytes(a, w, x);
    PalavrasDeBytes(b, w, y);
    assert x == (Bytes(a, w) + x)[|Bytes(a, w)|..] && y == (Bytes(b, w) + y)[|Bytes(b, w)|..];
  }

  /** Different inputs have different deltas. */
  lemma DeltaInjetiva(x: seq<byte>, y: seq<byte>, w: nat)
    requires 0 < w && TDelta(x, w) == TDelta(y, w)
    ensures x == y
  {
    var a, ca := Decompor(x, w);
    var b, cb := Decompor(y, w);
    DeltaDePalavras(a, ca, w);
    DeltaDePalavras(b, cb, w);
    DiferencasCabem(a, Pow256(w));
    DiferencasCabem(b, Pow256(w));
    MesmasPartes(Diferencas(a, Pow256(w)), ca, Diferencas(b, Pow256(w)), cb, w);
    forall i | 0 <= i < |a| ensures |a| == |b| && a[i] == b[i] { DiferencasInjetivas(a, b, Pow256(w), i); }
    assert |Diferencas(a, Pow256(w))| == |a| && |Diferencas(b, Pow256(w))| == |b|;
    assert a == b;
  }

  lemma SomaModulo(acc: nat, x: nat, m: nat)
    requires x < m && acc < m
    ensures Mais(acc, x, m) == if acc + x < m then acc + x else acc + x - m
  {
    DivIs(acc + x, m, if acc + x < m then 0 else 1);
  }

  lemma DiferencaModulo(y: nat, acc: nat, m: nat)
    requires y < m && acc < m
    ensures Menos(y, acc, m) == if acc <= y then y - acc else y - acc + m
  {
    DivIs(y - acc, m, if acc <= y then 0 else -1);
  }

  lemma SomaDesfazDiferenca(acc: nat, x: nat, m: nat)
    requires x < m && acc < m
    ensures Menos(Mais(acc, x, m), acc, m) == x && Mais(acc, x, m) < m && Mais(0, x, m) == x
  {
    hide Mais, Menos;
    SomaModulo(0, x, m);
    SomaModulo(acc, x, m);
    DiferencaModulo(Mais(acc, x, m), acc, m);
  }

  lemma MaisUmaSoma(a: seq<nat>, acc: nat, x: nat, m: nat)
    requires 0 < m && Cabem(a, m) && acc == (if a == [] then 0 else a[|a| - 1]) && x < m
    ensures var y := Mais(acc, x, m);
      Cabem(a + [y], m) && Diferencas(a + [y], m) == Diferencas(a, m) + [x]
  {
    hide Mais, Menos;
    SomaDesfazDiferenca(acc, x, m);
  }

  /** The loop: running sums of the words. */
  method Somar(d: seq<nat>, m: nat) returns (saida: seq<nat>)
    requires 0 < m && Cabem(d, m)
    ensures Cabem(saida, m) && Diferencas(saida, m) == d
  {
    hide Mais, Diferencas;
    var acc := 0;
    saida := [];
    DiferencasVazia(m);
    for k := 0 to |d|
      invariant Cabem(saida, m) && acc == (if saida == [] then 0 else saida[|saida| - 1])
      invariant Diferencas(saida, m) == d[..k]
    {
      MaisUmaSoma(saida, acc, d[k], m);
      acc := Mais(acc, d[k], m);
      saida := saida + [acc];
    }
  }

  lemma DiferencasVazia(m: nat)
    requires 0 < m
    ensures Diferencas([], m) == []
  {
  }

  /** The inverse of the delta: running sums of the words, the tail unchanged.  It returns
      the one input whose delta is `dados`. */
  method TDeltaInv(dados: seq<byte>, w: nat) returns (r: seq<byte>)
    requires 0 < w
    ensures TDelta(r, w) == dados
  {
    hide Palavras, Bytes, Corte, Diferencas, TDelta, Pow256;
    ghost var a, cauda := Decompor(dados, w);
    var saida := Somar(Palavras(dados, w), Pow256(w));
    DeltaDePalavras(saida, cauda, w);
    r := Bytes(saida, w) + dados[Corte(|dados|, w)..];
  }

  // ---------------------------------------------------------------- byte-plane split

  /** dados[p : n * w : w] */
  function Plano(dados: seq<byte>, w: nat, n: nat, p: nat): (s: seq<byte>)
    requires p < w && n * w <= |dados|
    ensures |s| == n
  {
    seq(n, k requires 0 <= k < n => NoPlano(w, n, p, k); dados[p + k * w])
  }

  lemma NoPlano(w: nat, n: nat, p: nat, k: nat)
    requires p < w && k < n
    ensures 0 <= p + k * w < n * w
  {
    MulMono(k + 1, n, w);
    assert (k + 1) * w == k * w + w;
  }

  /** The first m planes, one after the other. */
  function Planos(dados: seq<byte>, w: nat, n: nat, m: nat): (s: seq<byte>)
    requires m <= w && n * w <= |dados|
    ensures |s| == m * n
  {
    if m == 0 then [] else
      assert m * n == (m - 1) * n + n;
      Planos(dados, w, n, m - 1) + Plano(dados, w, n, m - 1)
  }

  function TSplit(dados: seq<byte>, w: nat): seq<byte>
    requires 0 < w
  {
    var n := |dados| / w;
    assert |dados| == n * w + |dados| % w;
    Planos(dados, w, n, w) + dados[n * w..]
  }

  /** Byte k of plane p is byte p of word k. */
  lemma {:induction false} BytePlano(dados: seq<byte>, w: nat, n: nat, m: nat, p: nat, k: nat)
    requires p < m <= w && k < n && n * w <= |dados|
    ensures 0 <= p * n + k < m * n && 0 <= p + k * w < |dados|
    ensures Planos(dados, w, n, m)[p * n + k] == dados[p + k * w]
    decreases m
  {
    NoPlano(w, n, p, k);
    NoPlano(n, m, k, p);
    if p < m - 1 {
      BytePlano(dados, w, n, m - 1, p, k);
    }
  }

  /** Different inputs have different splits. */
  lemma SplitInjetiva(x: seq<byte>, y: seq<byte>, w: nat)
    requires 0 < w && TSplit(x, w) == TSplit(y, w)
    ensures x == y
  {
    var n := |x| / w;
    SplitTamanho(x, w);
    SplitTamanho(y, w);
    forall i | 0 <= i < |x| ensures x[i] == y[i] {
      if i < n * w {
        ByteSplit(x, w, i);
        ByteSplit(y, w, i);
      } else {
        assert x[n * w..][i - n * w] == y[n * w..][i - n * w];
      }
    }
  }

  /** What the split is: byte p of word k stands at place k of plane p, and the tail is
      unchanged. */
  lemma SplitDaString(x: seq<byte>, w: nat, p: nat, k: nat)
    requires p < w && k < |x| / w
    ensures |TSplit(x, w)| == |x| && TSplit(x, w)[|x| / w * w..] == x[|x| / w * w..]
    ensures 0 <= p * (|x| / w) + k < |x| && 0 <= k * w + p < |x|
    ensures TSplit(x, w)[p * (|x| / w) + k] == x[k * w + p]
  {
    SplitTamanho(x, w);
    BytePlano(x, w, |x| / w, w, p, k);
  }

  lemma SplitTamanho(x: seq<byte>, w: nat)
    requires 0 < w
    ensures |TSplit(x, w)| == |x|
    ensures |x| / w * w <= |x| && TSplit(x, w)[|x| / w * w..] == x[|x| / w * w..]
  {
    assert |x| / w * w == w * (|x| / w);
  }

  /** Where byte i of the words stands in the split: byte i / w of plane i % w. */
  function NoSplit(i: nat, w: nat, n: nat): nat
    requires 0 < w
  {
    i % w * n + i / w
  }

  lemma NoSplitCabe(i: nat, w: nat, n: nat)
    requires 0 < w && i < n * w
    ensures i == i % w + i / w * w && i / w < n
    ensures i % w * n <= NoSplit(i, w, n) < (i % w + 1) * n <= n * w
  {
    assert i == i / w * w + i % w;
    if i / w >= n { MulMono(n, i / w, w); }
    assert (i % w + 1) * n == i % w * n + n;
    MulMono(i % w + 1, w, n);
    assert w * n == n * w;
  }

  lemma ByteSplit(x: seq<byte>, w: nat, i: nat)
    requires 0 < w && i < |x| / w * w
    ensures i < |x| && NoSplit(i, w, |x| / w) < |TSplit(x, w)|
    ensures TSplit(x, w)[NoSplit(i, w, |x| / w)] == x[i]
  {
    var n := |x| / w;
    SplitTamanho(x, w);
    NoSplitCabe(i, w, n);
    BytePlano(x, w, n, w, i % w, i / w);
  }

  /** saida[p : n * w : w] = plano */
  function Atribuir(saida: seq<byte>, w: nat, n: nat, p: nat, plano: seq<byte>): (s: seq<byte>)
    requires 0 < w && p < w && |plano| == n
    ensures |s| == |saida|
  {
    seq(|saida|, x requires 0 <= x < |saida| =>
      if x % w == p && x / w < n then plano[x / w] else saida[x])
  }

  lemma AtribuirEm(saida: seq<byte>, w: nat, n: nat, p: nat, plano: seq<byte>, x: nat)
    requires 0 < w && p < w && |plano| == n && x < |saida|
    ensures Atribuir(saida, w, n, p, plano)[x] == if x % w == p && x / w < n then plano[x / w] else saida[x]
  {
  }

  /** Byte x of the words is the byte that the split keeps for it. */
  predicate NoLugar(saida: seq<byte>, dados: seq<byte>, w: nat, n: nat, x: nat)
    requires 0 < w
  {
    x < |saida| && NoSplit(x, w, n) < |dados| && saida[x] == dados[NoSplit(x, w, n)]
  }

  /** The first p planes have been dealt out. */
  ghost predicate Repartido(saida: seq<byte>, dados: seq<byte>, w: nat, n: nat, p: nat)
    requires 0 < w
  {
    |saida| == |dados| && n * w <= |dados| &&
    forall x :: 0 <= x < n * w && x % w < p ==> NoLugar(saida, dados, w, n, x)
  }

  lemma RepartirByte(saida: seq<byte>, dados: seq<byte>, w: nat, n: nat, p: nat, lo: nat, x: nat)
    requires 0 < w && p < w && Repartido(saida, dados, w, n, p) && lo == p * n && lo + n <= |dados|
    requires x < n * w && x % w < p + 1
    ensures NoLugar(Atribuir(saida, w, n, p, dados[lo..lo + n]), dados, w, n, x)
  {
    hide Atribuir, NoSplit;
    AtribuirEm(saida, w, n, p, dados[lo..lo + n], x);
    NoSplitCabe(x, w, n);
    if x % w == p {
      NoSplitDe(x, w, n, p);
    } else {
      assert NoLugar(saida, dados, w, n, x);
    }
  }

  lemma PlanoCabe(w: nat, n: nat, p: nat)
    requires p < w
    ensures 0 <= p * n && (p + 1) * n == p * n + n <= n * w
  {
    MulMono(p + 1, w, n);
    assert w * n == n * w;
  }

  lemma RepartirPlano(saida: seq<byte>, dados: seq<byte>, w: nat, n: nat, p: nat)
    requires 0 < w && p < w && Repartido(saida, dados, w, n, p)
    ensures 0 <= p * n <= (p + 1) * n <= |dados| && (p + 1) * n - p * n == n
    ensures Repartido(Atribuir(saida, w, n, p, dados[p * n..(p + 1) * n]), dados, w, n, p + 1)
  {
    hide Atribuir, NoLugar;
    PlanoCabe(w, n, p);
    var s := Atribuir(saida, w, n, p, dados[p * n..p * n + n]);
    forall x | 0 <= x < n * w && x % w < p + 1 ensures NoLugar(s, dados, w, n, x) {
      RepartirByte(saida, dados, w, n, p, p * n, x);
    }
  }

  lemma NoSplitDe(x: nat, w: nat, n: nat, p: nat)
    requires 0 < w && p == x % w
    ensures NoSplit(x, w, n) == p * n + x / w
  {
  }

  /** A string dealt out completely, with the tail in place, is what was split. */
  lemma RepartidoEhInverso(r: seq<byte>, dados: seq<byte>, w: nat)
    requires 0 < w && Repartido(r, dados, w, |dados| / w, w)
    requires |dados| / w * w <= |dados| && r[|dados| / w * w..] == dados[|dados| / w * w..]
    ensures TSplit(r, w) == dados
  {
    var n := |dados| / w;
    SplitTamanho(r, w);
    forall j | 0 <= j < n * w ensures TSplit(r, w)[j] == dados[j] {
      var x := Origem(j, w, n);
      ByteSplit(r, w, x);
      assert NoLugar(r, dados, w, n, x);
    }
    var t := TSplit(r, w);
    assert t == t[..n * w] + t[n * w..] && dados == dados[..n * w] + dados[n * w..];
  }

  /** The byte that the split puts at position j. */
  lemma Origem(j: nat, w: nat, n: nat) returns (x: nat)
    requires 0 < w && j < n * w
    ensures x < n * w && NoSplit(x, w, n) == j
  {
    var p, k := j / n, j % n;
    assert j == p * n + k;
    assert w * n == n * w;
    if p >= w { MulMono(w, p, n); }
    NoPlano(w, n, p, k);
    x := p + k * w;
    PlanoEPalavra(p, k, w);
  }

  lemma PlanoEPalavra(p: nat, k: nat, w: nat)
    requires p < w
    ensures (p + k * w) / w == k && (p + k * w) % w == p
  {
    assert (k + 1) * w == k * w + w;
    DivIs(p + k * w, w, k);
  }

  lemma RepartidoComCauda(saida: seq<byte>, dados: seq<byte>, w: nat, n: nat, m: nat)
    requires 0 < w && Repartido(saida, dados, w, n, w) && m == n * w
    ensures m <= |dados| && Repartido(saida[..m] + dados[m..], dados, w, n, w)
    ensures (saida[..m] + dados[m..])[m..] == dados[m..]
  {
    hide NoSplit;
    var s := saida[..m] + dados[m..];
    forall x | 0 <= x < m && x % w < w ensures NoLugar(s, dados, w, n, x) {
      assert NoLugar(saida, dados, w, n, x);
    }
  }

  /** The inverse of the split: deals the planes out again, one strided assignment each.
      It returns the one input whose split is `dados`. */
  method TSplitInv(dados: seq<byte>, w: nat) returns (r: seq<byte>)
    requires 0 < w
    ensures TSplit(r, w) == dados
  {
    var n := |dados| / w;
    assert |dados| == n * w + |dados| % w;
    var saida: seq<byte> := seq(|dados|, _ => 0);
    var p := 0;
    while p < w
      invariant 0 <= p <= w && Repartido(saida, dados, w, n, p)
    {
      RepartirPlano(saida, dados, w, n, p);
      saida := Atribuir(saida, w, n, p, dados[p * n..(p + 1) * n]);
      p := p + 1;
    }
    var m := n * w;
    r := saida[..m] + dados[m..];
    RepartidoComCauda(saida, dados, w, n, m);
    RepartidoEhInverso(r, dados, w);
  }
}
