/** How bench/capacidade_local.py spreads the input over the compressed files and the
    files over the readers: M preparing workers each compress one region of the input
    into one file, then n readers each cycle over every n-th file. */
module Distribuicao {
  import opened Base
  import opened Gravacao
  import opened Leitura

  // ---------------------------------------------------------------- regions

  function Faixa(a: nat, b: nat): (s: seq<nat>)
    requires a <= b
    ensures |s| == b - a
  {
    seq(b - a, k => a + k)
  }

  /** regiao(i, n), counted in blocks. */
  function Inicio(i: nat, m: nat, nblocos: nat): nat
    requires 0 < m
  {
    i * nblocos / m
  }

  lemma InicioMonotone(i: nat, m: nat, nblocos: nat)
    requires 0 < m
    ensures Inicio(i, m, nblocos) <= Inicio(i + 1, m, nblocos)
    ensures m <= nblocos ==> Inicio(i, m, nblocos) < Inicio(i + 1, m, nblocos)
  {
    assert (i + 1) * nblocos == i * nblocos + nblocos;
    DivLe(i * nblocos, (i + 1) * nblocos, m);
  }

  /** The blocks that preparing worker i of m compresses.  Its loop tests for the end of
      the region after the first block, so an empty region still yields one block. */
  function Blocos(i: nat, m: nat, nblocos: nat): (s: seq<nat>)
    requires 0 < m
    ensures 0 < |s|
  {
    var ini, fim := Inicio(i, m, nblocos), Inicio(i + 1, m, nblocos);
    Faixa(ini, Max(ini + 1, fim))
  }

  lemma InicioEh(i: nat, m: nat, nblocos: nat)
    requires 0 < m
    ensures var b := Inicio(i, m, nblocos); b * m <= i * nblocos < (b + 1) * m
  {
    var b := Inicio(i, m, nblocos);
    assert i * nblocos == b * m + i * nblocos % m;
    assert (b + 1) * m == b * m + m;
  }

  /** Which blocks these are.  The first is the j-th of m equal parts of the input, rounded
      down, the others follow it, and they end where region j + 1 begins, or after the first
      if that is not further on. */
  lemma BlocosDaRegiao(j: nat, m: nat, nblocos: nat) returns (b: nat, e: nat)
    requires 0 < m
    ensures b * m <= j * nblocos < (b + 1) * m && e * m <= (j + 1) * nblocos < (e + 1) * m
    ensures |Blocos(j, m, nblocos)| == if e <= b then 1 else e - b
    ensures forall k :: 0 <= k < |Blocos(j, m, nblocos)| ==> Blocos(j, m, nblocos)[k] == b + k
  {
    hide Inicio;
    b, e := Inicio(j, m, nblocos), Inicio(j + 1, m, nblocos);
    InicioEh(j, m, nblocos);
    InicioEh(j + 1, m, nblocos);
  }

  /** A region is the whole part of nblocos / m long, or one more. */
  lemma TamanhoDaRegiao(j: nat, m: nat, nblocos: nat)
    requires 0 < m <= nblocos
    ensures nblocos / m <= |Blocos(j, m, nblocos)| <= nblocos / m + 1
  {
    hide Inicio;
    var a, b, q := Inicio(j, m, nblocos), Inicio(j + 1, m, nblocos), nblocos / m;
    InicioEh(j, m, nblocos);
    InicioEh(j + 1, m, nblocos);
    assert nblocos == q * m + nblocos % m && (j + 1) * nblocos == j * nblocos + nblocos;
    SomaDeQuocientes(a, q, b, j * nblocos, nblocos, m);
    InicioMonotone(j, m, nblocos);
  }

  lemma SomaDeQuocientes(a: nat, q: nat, b: nat, x: nat, y: nat, m: nat)
    requires a * m <= x < (a + 1) * m && q * m <= y < q * m + m && b * m <= x + y < (b + 1) * m
    ensures a + q <= b <= a + q + 1
  {
    assert (a + q) * m == a * m + q * m && (a + q + 2) * m == a * m + q * m + 2 * m && (a + 1) * m == a * m + m;
    MulLess(a + q, b + 1, m);
    MulLess(b, a + q + 2, m);
  }

  /** No two regions differ by more than one block. */
  lemma RegioesIguais(i: nat, j: nat, m: nat, nblocos: nat)
    requires 0 < m <= nblocos
    ensures |Blocos(i, m, nblocos)| <= |Blocos(j, m, nblocos)| + 1
  {
    hide Blocos;
    TamanhoDaRegiao(i, m, nblocos);
    TamanhoDaRegiao(j, m, nblocos);
  }

  /** Where m divides the number of blocks every file holds its equal part. */
  lemma RegioesExatas(j: nat, m: nat, q: nat)
    requires 0 < m && 0 < q
    ensures j * q < (j + 1) * q && Blocos(j, m, q * m) == Faixa(j * q, (j + 1) * q)
  {
    assert (j + 1) * q == j * q + q;
    InicioExato(j, m, q);
    InicioExato(j + 1, m, q);
  }

  lemma InicioExato(j: nat, m: nat, q: nat)
    requires 0 < m
    ensures Inicio(j, m, q * m) == j * q
  {
    assert j * (q * m) == j * q * m;
    assert (j * q + 1) * m == j * q * m + m;
    DivIs(j * (q * m), m, j * q);
  }

  /** The blocks of the given files, one file after the other. */
  function Juntar(js: seq<nat>, m: nat, nblocos: nat): seq<nat>
    requires 0 < m
  {
    if js == [] then [] else Blocos(js[0], m, nblocos) + Juntar(js[1..], m, nblocos)
  }

  lemma {:induction false} JuntarSnoc(js: seq<nat>, j: nat, m: nat, nblocos: nat)
    requires 0 < m
    ensures Juntar(js + [j], m, nblocos) == Juntar(js, m, nblocos) + Blocos(j, m, nblocos)
  {
    if js == [] {
      assert Juntar([j], m, nblocos) == Blocos(j, m, nblocos) + Juntar([], m, nblocos);
    } else {
      assert (js + [j])[1..] == js[1..] + [j];
      JuntarSnoc(js[1..], j, m, nblocos);
    }
  }

  /** With enough blocks region i starts where the regions before it end. */
  lemma MaisUmaRegiao(i: nat, m: nat, nblocos: nat)
    requires 0 < m <= nblocos
    ensures Inicio(i, m, nblocos) <= Inicio(i + 1, m, nblocos)
    ensures Juntar(Faixa(0, i + 1), m, nblocos) ==
      Juntar(Faixa(0, i), m, nblocos) + Faixa(Inicio(i, m, nblocos), Inicio(i + 1, m, nblocos))
  {
    hide Inicio, Juntar;
    InicioMonotone(i, m, nblocos);
    assert Faixa(0, i + 1) == Faixa(0, i) + [i];
    JuntarSnoc(Faixa(0, i), i, m, nblocos);
  }

  lemma NenhumaRegiao(m: nat, nblocos: nat)
    requires 0 < m
    ensures Inicio(0, m, nblocos) == 0 && Juntar(Faixa(0, 0), m, nblocos) == Faixa(0, 0)
  {
    DivIs(0, m, 0);
    assert Faixa(0, 0) == [];
  }

  lemma {:induction false} RegioesConsecutivas(i: nat, m: nat, nblocos: nat)
    requires 0 < m <= nblocos
    ensures Juntar(Faixa(0, i), m, nblocos) == Faixa(0, Inicio(i, m, nblocos))
  {
    hide Inicio, Juntar;
    if i == 0 {
      NenhumaRegiao(m, nblocos);
    } else {
      RegioesConsecutivas(i - 1, m, nblocos);
      MaisUmaRegiao(i - 1, m, nblocos);
    }
  }

  lemma {:induction false} PeloMenosUmPorArquivo(js: seq<nat>, m: nat, nblocos: nat)
    requires 0 < m
    ensures |js| <= |Juntar(js, m, nblocos)|
  {
    if js != [] { PeloMenosUmPorArquivo(js[1..], m, nblocos); }
  }

  lemma UltimoInicio(m: nat, nblocos: nat)
    requires 0 < m
    ensures Inicio(m, m, nblocos) == nblocos
  {
    assert nblocos * m == m * nblocos && (nblocos + 1) * m == m * nblocos + m;
    DivIs(m * nblocos, m, nblocos);
  }

  /** The m files hold every block of the input exactly once, in order, if and only if
      there are at least as many blocks as files. */
  lemma {:induction false} RegioesParticionam(m: nat, nblocos: nat)
    requires 0 < m
    ensures Juntar(Faixa(0, m), m, nblocos) == Faixa(0, nblocos) <==> m <= nblocos
  {
    if m <= nblocos {
      RegioesConsecutivas(m, m, nblocos);
      UltimoInicio(m, nblocos);
    } else {
      PeloMenosUmPorArquivo(Faixa(0, m), m, nblocos);
    }
  }

  // ---------------------------------------------------------------- readers

  /** range(i, m, n): the files of reader i of n. */
  function Passo(i: nat, m: nat, n: nat): seq<nat>
    requires 0 < n
    decreases m - i
  {
    if i >= m then [] else [i] + Passo(i + n, m, n)
  }

  /** Its files are i, i + n, i + 2 * n and so on, all that exist. */
  lemma {:induction false} PassoExato(i: nat, m: nat, n: nat, k: nat)
    requires 0 < n
    ensures k < |Passo(i, m, n)| <==> i + k * n < m
    ensures k < |Passo(i, m, n)| ==> Passo(i, m, n)[k] == i + k * n
    decreases k
  {
    if k > 0 {
      assert k * n == (k - 1) * n + n;
      if i < m {
        PassoExato(i + n, m, n, k - 1);
        assert Passo(i, m, n) == [i] + Passo(i + n, m, n);
      } else {
        MulMono(0, k, n);
      }
    }
  }

  lemma RestoAntes(d: nat, n: nat)
    requires 0 < n <= d
    ensures (d - n) % n == d % n
  {
    var q := d / n;
    assert d == q * n + d % n;
    assert (q - 1) * n == q * n - n;
    DivIs(d - n, n, q - 1);
  }

  lemma {:induction false} PassoSnoc(i: nat, m: nat, n: nat)
    requires 0 < n
    ensures Passo(i, m + 1, n) == Passo(i, m, n) + if i <= m && (m - i) % n == 0 then [m] else []
    decreases m - i
  {
    if i == m {
      DivIs(0, n, 0);
    } else if i < m {
      PassoSnoc(i + n, m, n);
      var d := m - i;
      if n <= d { RestoAntes(d, n); } else { DivIs(d, n, 0); }
    }
  }

  lemma RestoUnico(i: nat, m: nat, n: nat)
    requires i < n
    ensures (i <= m && (m - i) % n == 0) <==> i == m % n
  {
    var q := m / n;
    assert m == q * n + m % n && (q + 1) * n == q * n + n;
    if i == m % n {
      DivIs(m - i, n, q);
    } else if i <= m {
      var d := (m - i) / n;
      assert m - i == d * n + (m - i) % n && (d + 1) * n == d * n + n;
      if (m - i) % n == 0 { DivIs(m, n, d); }
    }
  }

  /** How many times x occurs. */
  function Conta(s: seq<nat>, x: nat): nat {
    if s == [] then 0 else (if s[0] == x then 1 else 0) + Conta(s[1..], x)
  }

  lemma {:induction false} ContaConcat(a: seq<nat>, b: seq<nat>, x: nat)
    ensures Conta(a + b, x) == Conta(a, x) + Conta(b, x)
  {
    if a == [] {
      assert a + b == b;
    } else {
      assert (a + b)[1..] == a[1..] + b;
      ContaConcat(a[1..], b, x);
    }
  }

  lemma {:induction false} ContaFaixa(n: nat, x: nat)
    ensures Conta(Faixa(0, n), x) == if x < n then 1 else 0
  {
    if n > 0 {
      assert Faixa(0, n) == Faixa(0, n - 1) + [n - 1];
      ContaFaixa(n - 1, x);
      ContaConcat(Faixa(0, n - 1), [n - 1], x);
    }
  }

  /** One more file goes to reader f % n and to no other. */
  lemma UmLeitor(i: nat, n: nat, f: nat)
    requires i < n
    ensures Passo(i, f + 1, n) == if i == f % n then Passo(i, f, n) + [f] else Passo(i, f, n)
  {
    PassoSnoc(i, f, n);
    RestoUnico(i, f, n);
  }

  /** How often block x is read when the first k of n readers each make one cycle over
      their share of the first f files. */
  function Leituras(k: nat, n: nat, f: nat, m: nat, nblocos: nat, x: nat): nat
    requires 0 < n && 0 < m
  {
    if k == 0 then 0 else
      Leituras(k - 1, n, f, m, nblocos, x) + Conta(Juntar(Passo(k - 1, f, n), m, nblocos), x)
  }

  /** r is f % n. */
  lemma {:induction false} MaisUmArquivo(k: nat, n: nat, f: nat, r: nat, m: nat, nblocos: nat, x: nat)
    requires k <= n && 0 < n && 0 < m && r == f % n
    ensures Leituras(k, n, f + 1, m, nblocos, x) ==
      Leituras(k, n, f, m, nblocos, x) + if r < k then Conta(Blocos(f, m, nblocos), x) else 0
    decreases k
  {
    hide Blocos, Juntar, Passo;
    if k > 0 {
      MaisUmArquivo(k - 1, n, f, r, m, nblocos, x);
      UmLeitor(k - 1, n, f);
      JuntarSnoc(Passo(k - 1, f, n), f, m, nblocos);
      ContaConcat(Juntar(Passo(k - 1, f, n), m, nblocos), Blocos(f, m, nblocos), x);
    }
  }

  lemma {:induction false} NenhumArquivo(k: nat, n: nat, m: nat, nblocos: nat, x: nat)
    requires 0 < n && 0 < m
    ensures Leituras(k, n, 0, m, nblocos, x) == 0
  {
    if k > 0 { NenhumArquivo(k - 1, n, m, nblocos, x); }
  }

  /** The strided file lists partition the files: the readers together read each block as
      often as the files hold it. */
  lemma {:induction false} PassosParticionam(n: nat, f: nat, m: nat, nblocos: nat, x: nat)
    requires 0 < n && 0 < m
    ensures Leituras(n, n, f, m, nblocos, x) == Conta(Juntar(Faixa(0, f), m, nblocos), x)
  {
    if f == 0 {
      NenhumArquivo(n, n, m, nblocos, x);
      assert Faixa(0, 0) == [];
    } else {
      PassosParticionam(n, f - 1, m, nblocos, x);
      MaisUmArquivo(n, n, f - 1, (f - 1) % n, m, nblocos, x);
      assert Faixa(0, f) == Faixa(0, f - 1) + [f - 1];
      JuntarSnoc(Faixa(0, f - 1), f - 1, m, nblocos);
      ContaConcat(Juntar(Faixa(0, f - 1), m, nblocos), Blocos(f - 1, m, nblocos), x);
    }
  }

  /** With fewer blocks than files the first two regions start at block 0, which is
      compressed once for each of them (or read past the end of an empty input). */
  lemma BlocoZeroRepetido(m: nat, nblocos: nat)
    requires 0 < m && nblocos < m
    ensures Conta(Juntar(Faixa(0, m), m, nblocos), 0) > if nblocos == 0 then 0 else 1
  {
    DivIs(0, m, 0);
    DivIs(nblocos, m, 0);
    assert Faixa(0, m)[0] == 0 && Faixa(0, m)[1..] == Faixa(1, m);
    ContaConcat(Blocos(0, m, nblocos), Juntar(Faixa(1, m), m, nblocos), 0);
    if nblocos > 0 {
      assert Faixa(1, m)[0] == 1;
      ContaConcat(Blocos(1, m, nblocos), Juntar(Faixa(1, m)[1..], m, nblocos), 0);
    }
  }

  /** One cycle of all n readers over the m files yields every block of the input exactly
      once, whatever n is, if and only if there are at least as many blocks as files. */
  lemma CadaBlocoUmaVez(n: nat, m: nat, nblocos: nat)
    requires 0 < n && 0 < m
    ensures (forall x: nat :: Leituras(n, n, m, m, nblocos, x) == if x < nblocos then 1 else 0)
      <==> m <= nblocos
  {
    forall x: nat
      ensures Leituras(n, n, m, m, nblocos, x) == Conta(Juntar(Faixa(0, m), m, nblocos), x)
      ensures Conta(Faixa(0, nblocos), x) == if x < nblocos then 1 else 0
    {
      PassosParticionam(n, m, m, nblocos, x);
      ContaFaixa(nblocos, x);
    }
    if m <= nblocos {
      RegioesParticionam(m, nblocos);
    } else {
      BlocoZeroRepetido(m, nblocos);
      assert Leituras(n, n, m, m, nblocos, 0) > if 0 < nblocos then 1 else 0;
    }
  }

  // ---------------------------------------------------------------- the workers

  /** The input file as blocks, and the compressor pair treated as an inverse pair. */
  datatype Codec = Codec(bloco: nat, comp: seq<byte> -> seq<byte>, decomp: seq<byte> -> seq<byte>)
  {
    ghost predicate Inverte(entrada: seq<seq<byte>>) {
      && 0 < bloco < TWO32
      && forall i :: 0 <= i < |entrada| ==>
        |comp(entrada[i])| < TWO32 && decomp(comp(entrada[i])) == entrada[i]
    }
  }

  /** The frames of the given blocks. */
  function QuadrosDe(entrada: seq<seq<byte>>, idx: seq<nat>, c: Codec): (qs: seq<Quadro>)
    requires forall k :: 0 <= k < |idx| ==> idx[k] < |entrada|
    ensures |qs| == |idx|
  {
    seq(|idx|, k requires 0 <= k < |idx| => Quadro(c.bloco, c.comp(entrada[idx[k]])))
  }

  /** The frames of blocks ini..fim of the input. */
  function QuadrosDaFaixa(entrada: seq<seq<byte>>, ini: nat, fim: nat, c: Codec): (qs: seq<Quadro>)
    requires ini <= fim <= |entrada|
  {
    QuadrosDe(entrada, Faixa(ini, fim), c)
  }

  lemma NenhumQuadro(entrada: seq<seq<byte>>, ini: nat, c: Codec)
    requires ini <= |entrada|
    ensures AllValid(QuadrosDaFaixa(entrada, ini, ini, c)) && Fluxo(QuadrosDaFaixa(entrada, ini, ini, c)) == []
  {
  }

  lemma MaisUmQuadro(entrada: seq<seq<byte>>, ini: nat, pos: nat, c: Codec)
    requires ini <= pos < |entrada| && c.Inverte(entrada)
    ensures var qs, q := QuadrosDaFaixa(entrada, ini, pos, c), Quadro(c.bloco, c.comp(entrada[pos]));
      && q.Valid() && AllValid(qs)
      && QuadrosDaFaixa(entrada, ini, pos + 1, c) == qs + [q]
      && Fluxo(qs + [q]) == Fluxo(qs) + q.Codificar()
  {
    FluxoSnoc(QuadrosDaFaixa(entrada, ini, pos, c), Quadro(c.bloco, c.comp(entrada[pos])));
  }

  /** One frame: the header and the payload are written separately. */
  method EscreverQuadro(e: Escritor, q: Quadro)
    requires e.Valid() && q.Valid()
    modifies e, e.buf
    ensures e.Valid() && e.Aceito() == old(e.Aceito()) + q.Codificar()
  {
    ghost var antes := e.Aceito();
    e.Escrever(LE32(q.olen) + LE32(|q.dados|));
    e.Escrever(q.dados);
    assert antes + (LE32(q.olen) + LE32(|q.dados|)) + q.dados == antes + q.Codificar();
  }

  /** The loop of worker mode "preparar": frames the blocks ini..fim, at least one. */
  method ComprimirRegiao(entrada: seq<seq<byte>>, ini: nat, fim: nat, c: Codec, e: Escritor)
    requires ini < |entrada| && ini <= fim <= |entrada| && c.Inverte(entrada)
    requires e.Valid() && e.Aceito() == []
    modifies e, e.buf
    ensures e.Valid() && AllValid(QuadrosDaFaixa(entrada, ini, Max(ini + 1, fim), c))
    ensures e.Aceito() == Fluxo(QuadrosDaFaixa(entrada, ini, Max(ini + 1, fim), c))
  {
    hide Fluxo, QuadrosDaFaixa;
    var pos := ini;
    NenhumQuadro(entrada, ini, c);
    while true
      invariant ini <= pos < Max(ini + 1, fim) && e.Valid() && AllValid(QuadrosDaFaixa(entrada, ini, pos, c))
      invariant e.Aceito() == Fluxo(QuadrosDaFaixa(entrada, ini, pos, c))
      decreases fim - pos
    {
      MaisUmQuadro(entrada, ini, pos, c);
      EscreverQuadro(e, Quadro(c.bloco, c.comp(entrada[pos])));
      pos := pos + 1;
      if pos >= fim {
        break;
      }
    }
  }

  /** Worker mode "preparar": the file is the frames of the region and z bytes of zero
      padding, as long as the cap is not reached. */
  method Preparar(entrada: seq<seq<byte>>, ini: nat, fim: nat, c: Codec, e: Escritor) returns (ghost z: nat)
    requires ini < |entrada| && ini <= fim <= |entrada| && c.Inverte(entrada)
    requires e.Valid() && e.Aceito() == []
    modifies e, e.buf
    ensures e.Valid() && z < e.bloco
    ensures var qs := QuadrosDaFaixa(entrada, ini, Max(ini + 1, fim), c);
      AllValid(qs) && Concat(e.blocos) == Fluxo(qs) + Zeros(z)
    ensures e.escritos == |Concat(e.blocos)| && (e.escritos <= e.cap ==> e.arquivo == Concat(e.blocos))
  {
    ComprimirRegiao(entrada, ini, fim, c, e);
    ghost var aceito := e.Aceito();
    e.Fechar(true);
    e.Contabilidade();
    assert e.Aceito() == Concat(e.blocos);
    z :| z < e.bloco && Concat(e.blocos) == aceito + Zeros(z);
  }

  /** Worker mode "decomp" until its deadline, reached after n frames. */
  method LerFrames(l: Leitor, c: Codec, n: nat) returns (saida: seq<seq<byte>>)
    requires l.Valid() && 0 < l.Total()
    modifies l
    ensures l.Valid() && l.entregues == old(l.entregues) + n && |saida| == n
    ensures forall k :: 0 <= k < n ==>
      saida[k] == c.decomp(Concat(l.arqs)[(old(l.entregues) + k) % l.Total()].dados)
  {
    hide Concat;
    saida := [];
    while |saida| < n
      invariant l.Valid() && l.entregues == old(l.entregues) + |saida| && |saida| <= n
      invariant forall k :: 0 <= k < |saida| ==>
        saida[k] == c.decomp(Concat(l.arqs)[(old(l.entregues) + k) % l.Total()].dados)
    {
      var fr := l.Proximo();
      saida := saida + [c.decomp(fr)];
    }
  }
}
