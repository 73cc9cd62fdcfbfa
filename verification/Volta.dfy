/** Writer and reader of bench/capacidade_local.py together: the input is compressed into m
    files through m writers, and n readers each read their share of the files for one cycle. */
module Volta {
  import opened Base
  import opened Gravacao
  import opened Leitura
  import opened Distribuicao

  // ---------------------------------------------------------------- the frames of the files

  lemma InicioNaEntrada(j: nat, m: nat, nblocos: nat)
    requires j < m && 0 < nblocos
    ensures Inicio(j, m, nblocos) < nblocos
  {
    var q := Inicio(j, m, nblocos);
    assert j * nblocos == q * m + j * nblocos % m;
    MulMono(j + 1, m, nblocos);
    assert (j + 1) * nblocos == j * nblocos + nblocos;
    if nblocos <= q { MulMono(nblocos, q, m); }
  }

  lemma FimNaEntrada(j: nat, m: nat, nblocos: nat)
    requires j < m
    ensures Inicio(j + 1, m, nblocos) <= nblocos
  {
    MulMono(j + 1, m, nblocos);
    DivLe((j + 1) * nblocos, m * nblocos, m);
    UltimoInicio(m, nblocos);
  }

  /** Every file holds blocks of the input only, an empty region one that starts there. */
  lemma BlocosNaEntrada(j: nat, m: nat, nblocos: nat)
    requires j < m && 0 < nblocos
    ensures Inicio(j, m, nblocos) < nblocos && Inicio(j, m, nblocos) <= Inicio(j + 1, m, nblocos) <= nblocos
    ensures forall k :: 0 <= k < |Blocos(j, m, nblocos)| ==> Blocos(j, m, nblocos)[k] < nblocos
  {
    hide Inicio;
    InicioMonotone(j, m, nblocos);
    InicioNaEntrada(j, m, nblocos);
    FimNaEntrada(j, m, nblocos);
  }

  lemma {:induction false} JuntarNaEntrada(js: seq<nat>, m: nat, nblocos: nat)
    requires 0 < m && 0 < nblocos && forall i :: 0 <= i < |js| ==> js[i] < m
    ensures forall k :: 0 <= k < |Juntar(js, m, nblocos)| ==> Juntar(js, m, nblocos)[k] < nblocos
  {
    if js != [] {
      BlocosNaEntrada(js[0], m, nblocos);
      JuntarNaEntrada(js[1..], m, nblocos);
    }
  }

  /** The frames of file j. */
  function ArquivoDe(entrada: seq<seq<byte>>, j: nat, m: nat, c: Codec): seq<Quadro>
    requires j < m && entrada != []
  {
    BlocosNaEntrada(j, m, |entrada|);
    QuadrosDe(entrada, Blocos(j, m, |entrada|), c)
  }

  /** The frames of the given files. */
  function ArquivosDe(entrada: seq<seq<byte>>, js: seq<nat>, m: nat, c: Codec): (a: seq<seq<Quadro>>)
    requires entrada != [] && forall k :: 0 <= k < |js| ==> js[k] < m
    ensures |a| == |js| && forall k :: 0 <= k < |js| ==> a[k] == ArquivoDe(entrada, js[k], m, c)
  {
    if js == [] then [] else [ArquivoDe(entrada, js[0], m, c)] + ArquivosDe(entrada, js[1..], m, c)
  }

  /** The input blocks with the given numbers. */
  function Escolhidos<T>(entrada: seq<T>, idx: seq<nat>): (s: seq<T>)
    requires forall k :: 0 <= k < |idx| ==> idx[k] < |entrada|
    ensures |s| == |idx| && forall k :: 0 <= k < |s| ==> s[k] == entrada[idx[k]]
  {
    seq(|idx|, k requires 0 <= k < |idx| => entrada[idx[k]])
  }

  /** Frame k of the files, decompressed, is block k of their regions, file after file. */
  lemma {:induction false} VoltaDevolveOsBlocos(entrada: seq<seq<byte>>, js: seq<nat>, m: nat, c: Codec, k: nat)
    requires entrada != [] && c.Inverte(entrada) && 0 < m && forall i :: 0 <= i < |js| ==> js[i] < m
    requires k < |Concat(ArquivosDe(entrada, js, m, c))|
    ensures k < |Juntar(js, m, |entrada|)| && Juntar(js, m, |entrada|)[k] < |entrada|
    ensures Concat(ArquivosDe(entrada, js, m, c))[k].olen == c.bloco
    ensures c.decomp(Concat(ArquivosDe(entrada, js, m, c))[k].dados) == entrada[Juntar(js, m, |entrada|)[k]]
  {
    hide Blocos;
    var bs, resto := Blocos(js[0], m, |entrada|), Juntar(js[1..], m, |entrada|);
    BlocosNaEntrada(js[0], m, |entrada|);
    assert Juntar(js, m, |entrada|) == bs + resto;
    if k >= |bs| {
      VoltaDevolveOsBlocos(entrada, js[1..], m, c, k - |bs|);
    }
  }

  lemma {:induction false} MesmaQuantidade(entrada: seq<seq<byte>>, js: seq<nat>, m: nat, c: Codec)
    requires entrada != [] && 0 < m && forall i :: 0 <= i < |js| ==> js[i] < m
    ensures |Juntar(js, m, |entrada|)| == |Concat(ArquivosDe(entrada, js, m, c))|
  {
    hide Blocos;
    if js != [] {
      BlocosNaEntrada(js[0], m, |entrada|);
      MesmaQuantidade(entrada, js[1..], m, c);
    }
  }

  // ---------------------------------------------------------------- preparing

  /** A file on disk: the frames of region j and zero padding. */
  ghost predicate Preparado(entrada: seq<seq<byte>>, j: nat, m: nat, c: Codec, fd: seq<byte>, pad: nat)
    requires entrada != []
  {
    j < m && AllValid(ArquivoDe(entrada, j, m, c)) && fd == Fluxo(ArquivoDe(entrada, j, m, c)) + Zeros(pad)
  }

  /** The compressed region, padded, stays below the cap (2^50 bytes in the source). */
  ghost predicate CabeNoCap(entrada: seq<seq<byte>>, j: nat, m: nat, c: Codec, bloco: nat, cap: nat)
    requires entrada != []
  {
    j < m && (AllValid(ArquivoDe(entrada, j, m, c)) ==> |Fluxo(ArquivoDe(entrada, j, m, c))| + bloco <= cap)
  }

  lemma DentroDoCap(entrada: seq<seq<byte>>, j: nat, m: nat, c: Codec, bloco: nat, cap: nat, conteudo: seq<byte>, z: nat)
    requires entrada != [] && CabeNoCap(entrada, j, m, c, bloco, cap) && z < bloco
    requires AllValid(ArquivoDe(entrada, j, m, c)) && conteudo == Fluxo(ArquivoDe(entrada, j, m, c)) + Zeros(z)
    ensures |conteudo| <= cap && Preparado(entrada, j, m, c, conteudo, z)
  {
    hide ArquivoDe, Fluxo;
  }

  /** One preparing worker with its own writer. */
  method PrepararArquivo(entrada: seq<seq<byte>>, j: nat, m: nat, c: Codec, bloco: nat, cap: nat) returns (fd: seq<byte>)
    requires entrada != [] && c.Inverte(entrada) && 0 < bloco && CabeNoCap(entrada, j, m, c, bloco, cap)
    ensures exists pad: nat :: Preparado(entrada, j, m, c, fd, pad)
  {
    hide Inicio;
    var ini, fim := Inicio(j, m, |entrada|), Inicio(j + 1, m, |entrada|);
    BlocosNaEntrada(j, m, |entrada|);
    var e := new Escritor(bloco, cap);
    ghost var pad := Preparar(entrada, ini, fim, c, e);
    DentroDoCap(entrada, j, m, c, bloco, cap, Concat(e.blocos), pad);
    fd := e.arquivo;
  }

  /** The files `js` are on disk. */
  ghost predicate Preparados(entrada: seq<seq<byte>>, js: seq<nat>, m: nat, c: Codec, fds: seq<seq<byte>>, pads: seq<nat>)
    requires entrada != []
  {
    |js| == |fds| == |pads| && forall i :: 0 <= i < |js| ==> Preparado(entrada, js[i], m, c, fds[i], pads[i])
  }

  /** All m preparing workers. */
  method PrepararTodos(entrada: seq<seq<byte>>, m: nat, c: Codec, bloco: nat, cap: nat)
    returns (fds: seq<seq<byte>>, ghost pads: seq<nat>)
    requires entrada != [] && c.Inverte(entrada) && 0 < bloco
    requires forall j :: 0 <= j < m ==> CabeNoCap(entrada, j, m, c, bloco, cap)
    ensures Preparados(entrada, Faixa(0, m), m, c, fds, pads)
  {
    hide Preparado, CabeNoCap;
    fds, pads := [], [];
    for j := 0 to m
      invariant |fds| == |pads| == j && forall i :: 0 <= i < j ==> Preparado(entrada, i, m, c, fds[i], pads[i])
    {
      var fd := PrepararArquivo(entrada, j, m, c, bloco, cap);
      ghost var pad: nat :| Preparado(entrada, j, m, c, fd, pad);
      fds, pads := fds + [fd], pads + [pad];
    }
  }

  // ---------------------------------------------------------------- reading

  lemma QuadrosDeTodos(entrada: seq<seq<byte>>, js: seq<nat>, m: nat, c: Codec, fds: seq<seq<byte>>, pads: seq<nat>)
    requires entrada != [] && js != [] && Preparados(entrada, js, m, c, fds, pads)
    ensures 0 < m && (forall i :: 0 <= i < |js| ==> js[i] < m) && 0 < |Juntar(js, m, |entrada|)|
    ensures var arqs := ArquivosDe(entrada, js, m, c);
      && |Concat(arqs)| == |Juntar(js, m, |entrada|)|
      && forall i :: 0 <= i < |fds| ==> AllValid(arqs[i]) && fds[i] == Fluxo(arqs[i]) + Zeros(pads[i])
  {
    hide ArquivoDe, Fluxo, Juntar, Concat;
    assert forall i :: 0 <= i < |js| ==> Preparado(entrada, js[i], m, c, fds[i], pads[i]);
    assert js[0] < m;
    MesmaQuantidade(entrada, js, m, c);
    PeloMenosUmPorArquivo(js, m, |entrada|);
  }

  lemma VoltaInteira(entrada: seq<seq<byte>>, js: seq<nat>, m: nat, c: Codec, saida: seq<seq<byte>>)
    requires entrada != [] && c.Inverte(entrada) && 0 < m && forall i :: 0 <= i < |js| ==> js[i] < m
    requires 0 < |saida| == |Juntar(js, m, |entrada|)| == |Concat(ArquivosDe(entrada, js, m, c))|
    requires forall k :: 0 <= k < |saida| ==>
      saida[k] == c.decomp(Concat(ArquivosDe(entrada, js, m, c))[k % |saida|].dados)
    ensures forall k :: 0 <= k < |saida| ==> Juntar(js, m, |entrada|)[k] < |entrada|
    ensures saida == Escolhidos(entrada, Juntar(js, m, |entrada|))
  {
    hide Juntar, Concat, ArquivosDe;
    forall k | 0 <= k < |saida|
      ensures Juntar(js, m, |entrada|)[k] < |entrada| && saida[k] == entrada[Juntar(js, m, |entrada|)[k]]
    {
      DivIs(k, |saida|, 0);
      VoltaDevolveOsBlocos(entrada, js, m, c, k);
    }
  }

  /** One cycle of a reader over the files `js`: the blocks of their regions, file after file. */
  method LerVolta(entrada: seq<seq<byte>>, js: seq<nat>, m: nat, c: Codec, bloco: nat, fds: seq<seq<byte>>, ghost pads: seq<nat>)
    returns (saida: seq<seq<byte>>)
    requires entrada != [] && c.Inverte(entrada) && 0 < bloco && js != [] && Preparados(entrada, js, m, c, fds, pads)
    ensures 0 < m && forall k :: 0 <= k < |Juntar(js, m, |entrada|)| ==> Juntar(js, m, |entrada|)[k] < |entrada|
    ensures saida == Escolhidos(entrada, Juntar(js, m, |entrada|))
  {
    hide Preparado, Juntar, ArquivoDe, Fluxo;
    QuadrosDeTodos(entrada, js, m, c, fds, pads);
    ghost var arqs := ArquivosDe(entrada, js, m, c);
    var l := new Leitor(bloco, fds, arqs, pads);
    saida := LerFrames(l, c, |Juntar(js, m, |entrada|)|);
    VoltaInteira(entrada, js, m, c, saida);
  }

  /** One reader over all files gives the input back, block for block, if and only if there
      are at least as many blocks as files; otherwise it reads some block more than once. */
  method CicloUmLeitor(entrada: seq<seq<byte>>, m: nat, c: Codec, bloco: nat, cap: nat) returns (saida: seq<seq<byte>>)
    requires entrada != [] && 0 < m && c.Inverte(entrada) && 0 < bloco
    requires forall j :: 0 <= j < m ==> CabeNoCap(entrada, j, m, c, bloco, cap)
    ensures forall k :: 0 <= k < |Juntar(Faixa(0, m), m, |entrada|)| ==> Juntar(Faixa(0, m), m, |entrada|)[k] < |entrada|
    ensures saida == Escolhidos(entrada, Juntar(Faixa(0, m), m, |entrada|))
    ensures saida == entrada <==> m <= |entrada|
  {
    hide Juntar, Preparados;
    var fds;
    ghost var pads;
    fds, pads := PrepararTodos(entrada, m, c, bloco, cap);
    saida := LerVolta(entrada, Faixa(0, m), m, c, bloco, fds, pads);
    RegioesParticionam(m, |entrada|);
    PeloMenosUmPorArquivo(Faixa(0, m), m, |entrada|);
  }

  // ---------------------------------------------------------------- counting blocks

  /** How many of the numbers in idx below n name a block equal to v. */
  function Peso<T(==)>(idx: seq<nat>, entrada: seq<T>, v: T, n: nat): nat
    requires n <= |entrada|
  {
    if n == 0 then 0 else Peso(idx, entrada, v, n - 1) + if entrada[n - 1] == v then Conta(idx, n - 1) else 0
  }

  lemma {:induction false} PesoMais<T>(idx: seq<nat>, entrada: seq<T>, v: T, n: nat)
    requires n <= |entrada| && idx != []
    ensures Peso(idx, entrada, v, n) == Peso(idx[1..], entrada, v, n) + if idx[0] < n && entrada[idx[0]] == v then 1 else 0
  {
    if n > 0 { PesoMais(idx, entrada, v, n - 1); }
  }

  lemma {:induction false} PesoVazio<T>(entrada: seq<T>, v: T, n: nat)
    requires n <= |entrada|
    ensures Peso([], entrada, v, n) == 0
  {
    if n > 0 { PesoVazio(entrada, v, n - 1); }
  }

  lemma {:induction false} PesoIgual<T>(a: seq<nat>, b: seq<nat>, entrada: seq<T>, v: T, n: nat)
    requires n <= |entrada| && forall x :: 0 <= x < n ==> Conta(a, x) == Conta(b, x)
    ensures Peso(a, entrada, v, n) == Peso(b, entrada, v, n)
  {
    if n > 0 { PesoIgual(a, b, entrada, v, n - 1); }
  }

  /** A value occurs among the blocks chosen as often as its blocks' numbers were. */
  lemma {:induction false} ContaEscolhidos<T>(entrada: seq<T>, idx: seq<nat>, v: T)
    requires forall k :: 0 <= k < |idx| ==> idx[k] < |entrada|
    ensures multiset(Escolhidos(entrada, idx))[v] == Peso(idx, entrada, v, |entrada|)
  {
    if idx == [] {
      PesoVazio(entrada, v, |entrada|);
    } else {
      PesoMais(idx, entrada, v, |entrada|);
      ContaEscolhidos(entrada, idx[1..], v);
      assert Escolhidos(entrada, idx) == [entrada[idx[0]]] + Escolhidos(entrada, idx[1..]);
    }
  }

  /** Numbers that occur equally often choose the same blocks equally often. */
  lemma MesmosEscolhidos<T>(entrada: seq<T>, a: seq<nat>, b: seq<nat>)
    requires forall k :: 0 <= k < |a| ==> a[k] < |entrada|
    requires forall k :: 0 <= k < |b| ==> b[k] < |entrada|
    requires forall x :: 0 <= x < |entrada| ==> Conta(a, x) == Conta(b, x)
    ensures multiset(Escolhidos(entrada, a)) == multiset(Escolhidos(entrada, b))
  {
    forall v ensures multiset(Escolhidos(entrada, a))[v] == multiset(Escolhidos(entrada, b))[v] {
      ContaEscolhidos(entrada, a, v);
      ContaEscolhidos(entrada, b, v);
      PesoIgual(a, b, entrada, v, |entrada|);
    }
  }

  // ---------------------------------------------------------------- all readers

  /** The block numbers that the first k of n readers read, reader after reader. */
  function Lidos(k: nat, n: nat, m: nat, nblocos: nat): seq<nat>
    requires 0 < n && 0 < m
  {
    if k == 0 then [] else Lidos(k - 1, n, m, nblocos) + Juntar(Passo(k - 1, m, n), m, nblocos)
  }

  lemma {:induction false} LidosConta(k: nat, n: nat, m: nat, nblocos: nat, x: nat)
    requires 0 < n && 0 < m
    ensures Conta(Lidos(k, n, m, nblocos), x) == Leituras(k, n, m, m, nblocos, x)
  {
    if k > 0 {
      LidosConta(k - 1, n, m, nblocos, x);
      ContaConcat(Lidos(k - 1, n, m, nblocos), Juntar(Passo(k - 1, m, n), m, nblocos), x);
    }
  }

  lemma {:induction false} PassoNosArquivos(i: nat, m: nat, n: nat)
    requires 0 < n
    ensures forall k :: 0 <= k < |Passo(i, m, n)| ==> Passo(i, m, n)[k] < m
    ensures i < m ==> Passo(i, m, n) != []
    decreases m - i
  {
    if i < m { PassoNosArquivos(i + n, m, n); }
  }

  lemma {:induction false} LidosNaEntrada(k: nat, n: nat, m: nat, nblocos: nat)
    requires 0 < n && 0 < m && 0 < nblocos
    ensures forall i :: 0 <= i < |Lidos(k, n, m, nblocos)| ==> Lidos(k, n, m, nblocos)[i] < nblocos
  {
    if k > 0 {
      LidosNaEntrada(k - 1, n, m, nblocos);
      PassoNosArquivos(k - 1, m, n);
      JuntarNaEntrada(Passo(k - 1, m, n), m, nblocos);
    }
  }

  /** The readers together read, over all files, what one reader of all files would. */
  lemma LidosComoUm(n: nat, m: nat, entrada: seq<seq<byte>>)
    requires 0 < n && 0 < m && entrada != []
    ensures forall i :: 0 <= i < |Lidos(n, n, m, |entrada|)| ==> Lidos(n, n, m, |entrada|)[i] < |entrada|
    ensures forall i :: 0 <= i < |Juntar(Faixa(0, m), m, |entrada|)| ==> Juntar(Faixa(0, m), m, |entrada|)[i] < |entrada|
    ensures multiset(Escolhidos(entrada, Lidos(n, n, m, |entrada|))) ==
            multiset(Escolhidos(entrada, Juntar(Faixa(0, m), m, |entrada|)))
  {
    hide Juntar, Lidos, Conta;
    LidosNaEntrada(n, n, m, |entrada|);
    JuntarNaEntrada(Faixa(0, m), m, |entrada|);
    forall x | 0 <= x < |entrada|
      ensures Conta(Lidos(n, n, m, |entrada|), x) == Conta(Juntar(Faixa(0, m), m, |entrada|), x)
    {
      LidosConta(n, n, m, |entrada|, x);
      PassosParticionam(n, m, m, |entrada|, x);
    }
    MesmosEscolhidos(entrada, Lidos(n, n, m, |entrada|), Juntar(Faixa(0, m), m, |entrada|));
  }

  /** Every block comes out exactly once if and only if there are enough blocks. */
  lemma TodosUmaVez(n: nat, m: nat, entrada: seq<seq<byte>>)
    requires 0 < n && 0 < m && entrada != []
    ensures forall i :: 0 <= i < |Lidos(n, n, m, |entrada|)| ==> Lidos(n, n, m, |entrada|)[i] < |entrada|
    ensures multiset(Escolhidos(entrada, Lidos(n, n, m, |entrada|))) == multiset(entrada) <==> m <= |entrada|
  {
    hide Juntar, Lidos, Escolhidos;
    LidosComoUm(n, m, entrada);
    var todos := Juntar(Faixa(0, m), m, |entrada|);
    if m <= |entrada| {
      RegioesParticionam(m, |entrada|);
      assert Escolhidos(entrada, todos) == entrada;
    } else {
      PeloMenosUmPorArquivo(Faixa(0, m), m, |entrada|);
      assert |multiset(Escolhidos(entrada, todos))| == |todos| > |multiset(entrada)|;
    }
  }

  lemma {:induction false} EscolhidosConcat<T>(entrada: seq<T>, a: seq<nat>, b: seq<nat>)
    requires forall k :: 0 <= k < |a| ==> a[k] < |entrada|
    requires forall k :: 0 <= k < |b| ==> b[k] < |entrada|
    ensures Escolhidos(entrada, a + b) == Escolhidos(entrada, a) + Escolhidos(entrada, b)
  {
  }

  /** The files of reader i are on disk. */
  lemma ParteDe(entrada: seq<seq<byte>>, i: nat, n: nat, m: nat, c: Codec, fds: seq<seq<byte>>, pads: seq<nat>)
    requires entrada != [] && i < n <= m && Preparados(entrada, Faixa(0, m), m, c, fds, pads)
    ensures Passo(i, m, n) != [] && forall k :: 0 <= k < |Passo(i, m, n)| ==> Passo(i, m, n)[k] < m == |fds| == |pads|
    ensures Preparados(entrada, Passo(i, m, n), m, c, Escolhidos(fds, Passo(i, m, n)), Escolhidos(pads, Passo(i, m, n)))
  {
    hide Preparado, Passo;
    PassoNosArquivos(i, m, n);
    assert forall j :: 0 <= j < m ==> Faixa(0, m)[j] == j;
  }

  /** m writers, then n readers, each for one cycle over every n-th file.  What each reader
      returns is known block for block; and all readers together return exactly the blocks of
      the input, each as often as it occurs there, if and only if there are at least as many
      blocks as files. */
  method CicloDeTodos(entrada: seq<seq<byte>>, n: nat, m: nat, c: Codec, bloco: nat, cap: nat) returns (saidas: seq<seq<seq<byte>>>)
    requires entrada != [] && 0 < n <= m && c.Inverte(entrada) && 0 < bloco
    requires forall j :: 0 <= j < m ==> CabeNoCap(entrada, j, m, c, bloco, cap)
    ensures |saidas| == n
    ensures forall i :: 0 <= i < n ==> DoLeitor(entrada, i, n, m, saidas[i])
    ensures multiset(Concat(saidas)) == multiset(entrada) <==> m <= |entrada|
  {
    hide CabeNoCap, Preparados, Passo, Juntar;
    var fds;
    ghost var pads;
    fds, pads := PrepararTodos(entrada, m, c, bloco, cap);
    saidas := [];
    for i := 0 to n
      invariant |saidas| == i && forall h :: 0 <= h < i ==> DoLeitor(entrada, h, n, m, saidas[h])
    {
      ParteDe(entrada, i, n, m, c, fds, pads);
      var js := Passo(i, m, n);
      var saida := LerVolta(entrada, js, m, c, bloco, Escolhidos(fds, js), Escolhidos(pads, js));
      saidas := saidas + [saida];
    }
    SaidasSaoLidos(entrada, n, n, m, saidas);
    TodosUmaVez(n, m, entrada);
  }

  /** The output of reader i: the blocks of its regions, file after file. */
  ghost predicate DoLeitor(entrada: seq<seq<byte>>, i: nat, n: nat, m: nat, saida: seq<seq<byte>>)
    requires 0 < n && 0 < m
  {
    && (forall k :: 0 <= k < |Juntar(Passo(i, m, n), m, |entrada|)| ==> Juntar(Passo(i, m, n), m, |entrada|)[k] < |entrada|)
    && saida == Escolhidos(entrada, Juntar(Passo(i, m, n), m, |entrada|))
  }

  lemma {:induction false} SaidasSaoLidos(entrada: seq<seq<byte>>, k: nat, n: nat, m: nat, saidas: seq<seq<seq<byte>>>)
    requires entrada != [] && 0 < n && 0 < m && |saidas| == k
    requires forall i :: 0 <= i < k ==> DoLeitor(entrada, i, n, m, saidas[i])
    ensures forall i :: 0 <= i < |Lidos(k, n, m, |entrada|)| ==> Lidos(k, n, m, |entrada|)[i] < |entrada|
    ensures Concat(saidas) == Escolhidos(entrada, Lidos(k, n, m, |entrada|))
  {
    hide Juntar, Passo;
    if k > 0 {
      var antes := saidas[..k - 1];
      SaidasSaoLidos(entrada, k - 1, n, m, antes);
      assert saidas == antes + [saidas[k - 1]] && DoLeitor(entrada, k - 1, n, m, saidas[k - 1]);
      ConcatSnoc(antes, saidas[k - 1]);
      EscolhidosConcat(entrada, Lidos(k - 1, n, m, |entrada|), Juntar(Passo(k - 1, m, n), m, |entrada|));
    } else {
      assert saidas == [];
    }
  }
}
