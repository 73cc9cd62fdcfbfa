/** The chunk store of bench/dedup.py: two versions of a file set are chunked, every chunk
    is looked up by hash, first occurrences enter a table, each file gets a recipe, and the
    second version is rebuilt from the recipes.  The hash is taken as injective on the
    chunks at hand. */
module Dedup {
  import opened Base
  import Cdc

  /** A digest, read as a number. */
  type Digest = nat

  /** A file and its chunks, as any chunker delivers them: offsets and lengths that cover
      the data without gap or overlap, and the digest of each chunk. */
  datatype Arquivo = Arquivo(dados: seq<byte>, offs: seq<nat>, tams: seq<nat>, hs: seq<Digest>)
  {
    /** Where the first k chunks end. */
    function Ate(k: nat): nat { if k < |offs| then offs[k] else |dados| }

    /** Chunk k lies inside the data and ends where the next one starts. */
    predicate Encaixa(k: nat)
      requires k < |tams| == |offs|
    {
      offs[k] + tams[k] == Ate(k + 1) && offs[k] + tams[k] <= |dados|
    }

    predicate Valid() {
      && |offs| == |tams| == |hs| && Ate(0) == 0
      && forall k :: 0 <= k < |tams| ==> Encaixa(k)
    }

    function Pedaco(k: nat): (b: seq<byte>)
      requires Valid() && k < |tams|
      ensures |b| == tams[k]
      {
      assert Encaixa(k);
      dados[offs[k]..offs[k] + tams[k]]
    }
  }

  /** One chunk as it is met: its version, file, offset, bytes and digest. */
  datatype Oc = Oc(ver: nat, obj: nat, off: nat, dados: seq<byte>, h: Digest)

  /** The dictionary, the table of unique chunks (parallel arrays), the recipes of both
      versions one after the other, and the two running totals. */
  datatype Indice = Indice(dic: map<Digest, nat>, uVer: seq<nat>, uObj: seq<nat>, uOff: seq<nat>,
                           uTam: seq<nat>, rec: seq<nat>, vsV1: nat, dupTotal: nat)

  const Vazio := Indice(map[], [], [], [], [], [], 0, 0)

  // ---------------------------------------------------------------- one chunk, and a list of chunks

  /** Every dictionary entry points into the table. */
  ghost predicate Coerente(ix: Indice) { forall d :: d in ix.dic ==> ix.dic[d] < |ix.uVer| }

  /** A chunk with an unknown hash enters the table and the dictionary. */
  function Novo(ix: Indice, c: Oc): Indice {
    var u := |ix.uVer|;
    Indice(ix.dic[c.h := u], ix.uVer + [c.ver], ix.uObj + [c.obj], ix.uOff + [c.off],
           ix.uTam + [|c.dados|], ix.rec + [u], ix.vsV1, ix.dupTotal)
  }

  /** A chunk with a known hash adds to the totals of the second version. */
  function Conhecida(ix: Indice, c: Oc, u: nat): Indice
    requires u < |ix.uVer|
  {
    var s := if c.ver == 1 then |c.dados| else 0;
    ix.(rec := ix.rec + [u], dupTotal := ix.dupTotal + s, vsV1 := ix.vsV1 + if ix.uVer[u] == 0 then s else 0)
  }

  function Registrado(ix: Indice, c: Oc): (r: Indice)
    requires Coerente(ix)
    ensures Coerente(r) && |r.rec| == |ix.rec| + 1
  {
    if c.h in ix.dic then Conhecida(ix, c, ix.dic[c.h]) else Novo(ix, c)
  }

  /** The index after the given chunks. */
  function Varredura(ix: Indice, l: seq<Oc>): (r: Indice)
    requires Coerente(ix)
    ensures Coerente(r) && |r.rec| == |ix.rec| + |l|
    decreases |l|
  {
    if l == [] then ix else Registrado(Varredura(ix, l[..|l| - 1]), l[|l| - 1])
  }

  lemma VarreduraNada(ix: Indice)
    requires Coerente(ix)
    ensures Varredura(ix, []) == ix
  {
  }

  lemma {:induction false} VarreduraConcat(ix: Indice, a: seq<Oc>, b: seq<Oc>)
    requires Coerente(ix)
    ensures Varredura(ix, a + b) == Varredura(Varredura(ix, a), b)
    decreases |b|
  {
    if b == [] {
      assert a + b == a;
    } else {
      var n := |b| - 1;
      assert (a + b)[..|a + b| - 1] == a + b[..n] && (a + b)[|a + b| - 1] == b[n];
      VarreduraConcat(ix, a, b[..n]);
    }
  }

  lemma VarreduraMaisUm(ix: Indice, l: seq<Oc>, c: Oc)
    requires Coerente(ix)
    ensures Varredura(ix, l + [c]) == Registrado(Varredura(ix, l), c)
  {
    assert (l + [c])[..|l + [c]| - 1] == l;
  }

  // ---------------------------------------------------------------- what the scan should find

  /** The content of chunk k was met before. */
  predicate Repetida(l: seq<Oc>, k: nat)
    requires k < |l|
  {
    exists j :: 0 <= j < k && l[j].dados == l[k].dados
  }

  /** The content of chunk k occurs in the first version. */
  predicate EmV1(l: seq<Oc>, k: nat)
    requires k < |l|
  {
    exists j :: 0 <= j < |l| && l[j].ver == 0 && l[j].dados == l[k].dados
  }

  /** The positions of first occurrences, in order. */
  function Primeiras(l: seq<Oc>, n: nat): (p: seq<nat>)
    requires n <= |l|
    ensures forall u :: 0 <= u < |p| ==> p[u] < n
  {
    if n == 0 then [] else Primeiras(l, n - 1) + if Repetida(l, n - 1) then [] else [n - 1]
  }

  /** Bytes of version-1 chunks among the first n: all, repeated, and occurring in v1. */
  function Logico(l: seq<Oc>, n: nat): nat
    requires n <= |l|
  {
    if n == 0 then 0 else Logico(l, n - 1) + if l[n - 1].ver == 1 then |l[n - 1].dados| else 0
  }
  function Duplicados(l: seq<Oc>, n: nat): nat
    requires n <= |l|
  {
    if n == 0 then 0 else
      Duplicados(l, n - 1) + if l[n - 1].ver == 1 && Repetida(l, n - 1) then |l[n - 1].dados| else 0
  }
  function JaEmV1(l: seq<Oc>, n: nat): nat
    requires n <= |l|
  {
    if n == 0 then 0 else
      JaEmV1(l, n - 1) + if l[n - 1].ver == 1 && EmV1(l, n - 1) then |l[n - 1].dados| else 0
  }

  /** Bytes of the unique chunks first met in version 1. */
  function Novos(ix: Indice, u: nat): nat
    requires u <= |ix.uVer| && u <= |ix.uTam|
  {
    if u == 0 then 0 else Novos(ix, u - 1) + if ix.uVer[u - 1] == 1 then ix.uTam[u - 1] else 0
  }

  /** Equal digests for equal contents, and only for them. */
  ghost predicate SemColisao(l: seq<Oc>) {
    forall i, j :: 0 <= i < |l| && 0 <= j < |l| ==> (l[i].h == l[j].h <==> l[i].dados == l[j].dados)
  }

  /** All of version 0 comes before all of version 1. */
  ghost predicate VersoesEmOrdem(l: seq<Oc>) {
    forall i, j :: 0 <= i <= j < |l| ==> l[i].ver <= l[j].ver <= 1
  }

  // ---------------------------------------------------------------- the index after n chunks

  /** Each recipe entry names the first occurrence of its chunk's content. */
  ghost predicate Receitas(l: seq<Oc>, n: nat, rec: seq<nat>)
    requires n <= |l|
  {
    var p := Primeiras(l, n);
    && |rec| == n
    && forall k {:trigger rec[k]} :: 0 <= k < n ==>
      rec[k] < |p| && p[rec[k]] <= k && l[p[rec[k]]].dados == l[k].dados && !Repetida(l, p[rec[k]])
  }

  /** The table describes the first occurrences. */
  ghost predicate Tabela(l: seq<Oc>, n: nat, ix: Indice)
    requires n <= |l|
  {
    var p := Primeiras(l, n);
    && |ix.uVer| == |ix.uObj| == |ix.uOff| == |ix.uTam| == |p|
    && forall u :: 0 <= u < |p| ==>
      ix.uVer[u] == l[p[u]].ver && ix.uObj[u] == l[p[u]].obj && ix.uOff[u] == l[p[u]].off && ix.uTam[u] == |l[p[u]].dados|
  }

  predicate Leva(dic: map<Digest, nat>, h: Digest, u: nat) { h in dic && dic[h] == u }

  /** The dictionary maps exactly the hashes met to the recipe entries of their chunks. */
  ghost predicate Dicionario(l: seq<Oc>, n: nat, rec: seq<nat>, dic: map<Digest, nat>)
    requires n <= |l| && |rec| == n
  {
    && (forall k {:trigger rec[k]} :: 0 <= k < n ==> Leva(dic, l[k].h, rec[k]))
    && (forall d :: d in dic ==> exists k :: 0 <= k < n && d == l[k].h)
  }

  ghost predicate Totais(l: seq<Oc>, n: nat, ix: Indice)
    requires n <= |l| && Tabela(l, n, ix)
  {
    && ix.dupTotal == Duplicados(l, n) && ix.vsV1 == JaEmV1(l, n)
    && ix.dupTotal + Novos(ix, |ix.uVer|) == Logico(l, n)
  }

  ghost predicate Inv(l: seq<Oc>, n: nat, ix: Indice) {
    n <= |l| && Receitas(l, n, ix.rec) && Tabela(l, n, ix) && Dicionario(l, n, ix.rec, ix.dic) && Totais(l, n, ix)
  }

  lemma VazioInv(l: seq<Oc>)
    ensures Inv(l, 0, Vazio)
  {
  }

  /** The dictionary knows a chunk exactly when its content was met before. */
  lemma Conhecido(l: seq<Oc>, n: nat, ix: Indice)
    requires n < |l| && |ix.rec| == n && Dicionario(l, n, ix.rec, ix.dic) && SemColisao(l)
    ensures l[n].h in ix.dic <==> Repetida(l, n)
  {
    if Repetida(l, n) {
      var j :| 0 <= j < n && l[j].dados == l[n].dados;
      var u := ix.rec[j];
    }
  }

  /** One more recipe entry, naming a first occurrence of the right content. */
  lemma ReceitasMais(l: seq<Oc>, n: nat, rec: seq<nat>, u: nat)
    requires n < |l| && Receitas(l, n, rec) && u < |Primeiras(l, n + 1)|
    requires var f := Primeiras(l, n + 1)[u]; f <= n && l[f].dados == l[n].dados && !Repetida(l, f)
    ensures Receitas(l, n + 1, rec + [u])
  {
    var p, q, r := Primeiras(l, n), Primeiras(l, n + 1), rec + [u];
    assert p <= q;
    forall k {:trigger r[k]} | 0 <= k < n + 1
      ensures r[k] < |q| && q[r[k]] <= k && l[q[r[k]]].dados == l[k].dados && !Repetida(l, q[r[k]])
    {
      if k < n { assert r[k] == rec[k] && q[rec[k]] == p[rec[k]]; }
    }
  }

  lemma NovoTabela(l: seq<Oc>, n: nat, ix: Indice)
    requires n < |l| && Tabela(l, n, ix) && Receitas(l, n, ix.rec) && !Repetida(l, n)
    ensures Tabela(l, n + 1, Novo(ix, l[n])) && Receitas(l, n + 1, Novo(ix, l[n]).rec)
  {
    assert Primeiras(l, n + 1) == Primeiras(l, n) + [n];
    ReceitasMais(l, n, ix.rec, |ix.uVer|);
  }

  /** One more dictionary entry, new or already there. */
  lemma DicionarioMais(l: seq<Oc>, n: nat, rec: seq<nat>, dic: map<Digest, nat>, u: nat)
    requires n < |l| && |rec| == n && Dicionario(l, n, rec, dic)
    requires l[n].h in dic ==> dic[l[n].h] == u
    ensures Dicionario(l, n + 1, rec + [u], dic[l[n].h := u])
  {
    var r, m := rec + [u], dic[l[n].h := u];
    forall k {:trigger r[k]} | 0 <= k < n + 1 ensures Leva(m, l[k].h, r[k]) {
      if k < n { assert r[k] == rec[k] && Leva(dic, l[k].h, rec[k]); }
    }
    forall d | d in m ensures exists k :: 0 <= k < n + 1 && d == l[k].h {
      if d in dic {
        var k :| 0 <= k < n && d == l[k].h;
        assert 0 <= k < n + 1;
      } else {
        assert d == l[n].h;
      }
    }
  }

  lemma NovoTotais(l: seq<Oc>, n: nat, ix: Indice)
    requires n < |l| && Tabela(l, n, ix) && Totais(l, n, ix) && !Repetida(l, n) && VersoesEmOrdem(l)
    requires Tabela(l, n + 1, Novo(ix, l[n]))
    ensures Totais(l, n + 1, Novo(ix, l[n]))
  {
    NovosIguais(ix, Novo(ix, l[n]), |ix.uVer|);
    if l[n].ver == 1 && EmV1(l, n) { EmV1Repetida(l, n); }
  }

  lemma InvNovo(l: seq<Oc>, n: nat, ix: Indice)
    requires n < |l| && Inv(l, n, ix) && SemColisao(l) && VersoesEmOrdem(l) && !Repetida(l, n)
    ensures Inv(l, n + 1, Novo(ix, l[n]))
  {
    NovoTabela(l, n, ix);
    Conhecido(l, n, ix);
    DicionarioMais(l, n, ix.rec, ix.dic, |ix.uVer|);
    NovoTotais(l, n, ix);
  }

  lemma EmV1Repetida(l: seq<Oc>, n: nat)
    requires n < |l| && VersoesEmOrdem(l) && l[n].ver == 1 && EmV1(l, n)
    ensures Repetida(l, n)
  {
    var j :| 0 <= j < |l| && l[j].ver == 0 && l[j].dados == l[n].dados;
    assert j < n;
  }

  lemma {:induction false} NovosIguais(ix: Indice, ix': Indice, u: nat)
    requires u <= |ix.uVer| && u <= |ix.uTam| && ix.uVer <= ix'.uVer && ix.uTam <= ix'.uTam
    ensures Novos(ix, u) == Novos(ix', u)
  {
    if u > 0 { NovosIguais(ix, ix', u - 1); }
  }

  /** The entry found for a repeated chunk is that of its content's first occurrence. */
  lemma EntradaCerta(l: seq<Oc>, n: nat, ix: Indice)
    requires n < |l| && SemColisao(l) && Receitas(l, n, ix.rec) && Dicionario(l, n, ix.rec, ix.dic) && Repetida(l, n)
    ensures l[n].h in ix.dic
    ensures var u, p := ix.dic[l[n].h], Primeiras(l, n);
      u < |p| && p[u] < n && l[p[u]].dados == l[n].dados && !Repetida(l, p[u])
  {
    var j :| 0 <= j < n && l[j].dados == l[n].dados;
    assert l[j].h == l[n].h;
    var u := ix.rec[j];
  }

  lemma RepetidoTotais(l: seq<Oc>, n: nat, ix: Indice, u: nat)
    requires n < |l| && u < |ix.uVer| && Tabela(l, n, ix) && Totais(l, n, ix) && Repetida(l, n) && VersoesEmOrdem(l)
    requires var p := Primeiras(l, n);
      u < |p| && p[u] < n && l[p[u]].dados == l[n].dados && !Repetida(l, p[u])
    ensures Tabela(l, n + 1, Conhecida(ix, l[n], u)) && Totais(l, n + 1, Conhecida(ix, l[n], u))
  {
    assert Primeiras(l, n + 1) == Primeiras(l, n);
    PrimeiraDecide(l, n, Primeiras(l, n)[u]);
    NovosIguais(ix, Conhecida(ix, l[n], u), |ix.uVer|);
  }

  lemma InvRepetido(l: seq<Oc>, n: nat, ix: Indice)
    requires n < |l| && Inv(l, n, ix) && SemColisao(l) && VersoesEmOrdem(l) && Repetida(l, n)
    ensures l[n].h in ix.dic && ix.dic[l[n].h] < |ix.uVer|
    ensures Inv(l, n + 1, Conhecida(ix, l[n], ix.dic[l[n].h]))
  {
    EntradaCerta(l, n, ix);
    assert Primeiras(l, n + 1) == Primeiras(l, n);
    ReceitasMais(l, n, ix.rec, ix.dic[l[n].h]);
    DicionarioMais(l, n, ix.rec, ix.dic, ix.dic[l[n].h]);
    assert ix.dic == ix.dic[l[n].h := ix.dic[l[n].h]];
    RepetidoTotais(l, n, ix, ix.dic[l[n].h]);
  }

  /** The version of a content's first occurrence tells whether the content is in v1. */
  lemma PrimeiraDecide(l: seq<Oc>, k: nat, f: nat)
    requires f <= k < |l| && l[f].dados == l[k].dados && !Repetida(l, f) && VersoesEmOrdem(l)
    ensures l[f].ver == 0 <==> EmV1(l, k)
  {
    if EmV1(l, k) {
      var j :| 0 <= j < |l| && l[j].ver == 0 && l[j].dados == l[k].dados;
      assert l[j].dados == l[f].dados;
    }
  }

  // ---------------------------------------------------------------- the scan

  ghost predicate TodosValidos(fs: seq<Arquivo>) { forall i :: 0 <= i < |fs| ==> fs[i].Valid() }

  /** The first n chunks of a file. */
  function DoArquivo(ver: nat, obj: nat, f: Arquivo, n: nat): (l: seq<Oc>)
    requires f.Valid() && n <= |f.tams|
    ensures |l| == n
  {
    if n == 0 then [] else DoArquivo(ver, obj, f, n - 1) + [OcDe(ver, obj, f, n - 1)]
  }

  /** Chunk k of a file. */
  function OcDe(ver: nat, obj: nat, f: Arquivo, k: nat): Oc
    requires f.Valid() && k < |f.tams|
  {
    Oc(ver, obj, f.offs[k], f.Pedaco(k), f.hs[k])
  }

  lemma {:induction false} DoArquivoEm(ver: nat, obj: nat, f: Arquivo, n: nat, k: nat)
    requires f.Valid() && k < n <= |f.tams|
    ensures DoArquivo(ver, obj, f, n)[k] == OcDe(ver, obj, f, k)
  {
    if k < n - 1 { DoArquivoEm(ver, obj, f, n - 1, k); }
  }

  /** How many chunks the first n files have. */
  function Inicio(fs: seq<Arquivo>, n: nat): nat
    requires n <= |fs|
  {
    if n == 0 then 0 else Inicio(fs, n - 1) + |fs[n - 1].tams|
  }

  /** `ini` notes where the recipes of the first n files start. */
  ghost predicate Inicios(fs: seq<Arquivo>, ini: seq<nat>, n: nat) {
    n <= |fs| && n <= |ini| && forall i {:trigger ini[i]} :: 0 <= i < n ==> ini[i] == Inicio(fs, i)
  }

  /** The chunks of the first n files of a version. */
  function DaVersao(ver: nat, fs: seq<Arquivo>, n: nat): (l: seq<Oc>)
    requires TodosValidos(fs) && n <= |fs|
    ensures |l| == Inicio(fs, n)
  {
    if n == 0 then [] else DaVersao(ver, fs, n - 1) + DoArquivo(ver, n - 1, fs[n - 1], |fs[n - 1].tams|)
  }

  /** All chunks, in the order in which they are met. */
  function Todas(v1: seq<Arquivo>, v2: seq<Arquivo>): seq<Oc>
    requires TodosValidos(v1) && TodosValidos(v2)
  {
    DaVersao(0, v1, |v1|) + DaVersao(1, v2, |v2|)
  }

  /** The body of the chunk loop: looks the chunk up and records it. */
  method Registrar(ix: Indice, c: Oc) returns (r: Indice)
    requires Coerente(ix)
    ensures r == Registrado(ix, c)
  {
    r := ix;
    var d := c.h;
    if d !in ix.dic {
      var u := |ix.uVer|;
      r := r.(dic := ix.dic[d := u], uVer := ix.uVer + [c.ver], uObj := ix.uObj + [c.obj],
              uOff := ix.uOff + [c.off], uTam := ix.uTam + [|c.dados|]);
      r := r.(rec := ix.rec + [u]);
    } else {
      var u := ix.dic[d];
      if c.ver == 1 {
        r := r.(dupTotal := r.dupTotal + |c.dados|);
        if ix.uVer[u] == 0 {
          r := r.(vsV1 := r.vsV1 + |c.dados|);
        }
      }
      r := r.(rec := ix.rec + [u]);
    }
  }

  lemma MaisUmaOc(ix: Indice, ver: nat, obj: nat, f: Arquivo, k: nat, r: Indice)
    requires f.Valid() && k < |f.tams| && Coerente(ix) && r == Varredura(ix, DoArquivo(ver, obj, f, k))
    ensures Coerente(r) && Registrado(r, OcDe(ver, obj, f, k)) == Varredura(ix, DoArquivo(ver, obj, f, k + 1))
  {
    VarreduraMaisUm(ix, DoArquivo(ver, obj, f, k), OcDe(ver, obj, f, k));
  }

  /** One file: each chunk recorded, after those of the files before it. */
  method VarrerArquivo(ix: Indice, ver: nat, obj: nat, f: Arquivo) returns (r: Indice)
    requires f.Valid() && Coerente(ix)
    ensures r == Varredura(ix, DoArquivo(ver, obj, f, |f.tams|))
  {
    r := ix;
    for k := 0 to |f.tams|
      invariant r == Varredura(ix, DoArquivo(ver, obj, f, k))
    {
      MaisUmaOc(ix, ver, obj, f, k, r);
      r := Registrar(r, OcDe(ver, obj, f, k));
    }
  }

  /** What scanning the first i files of a version leaves, file by file. */
  function VarreduraVersao(ix: Indice, ver: nat, fs: seq<Arquivo>, i: nat): (r: Indice)
    requires TodosValidos(fs) && Coerente(ix) && i <= |fs|
    ensures Coerente(r) && |r.rec| == |ix.rec| + Inicio(fs, i)
  {
    if i == 0 then ix
    else Varredura(VarreduraVersao(ix, ver, fs, i - 1), DoArquivo(ver, i - 1, fs[i - 1], |fs[i - 1].tams|))
  }

  lemma {:induction false} VersaoEhVarredura(ix: Indice, ver: nat, fs: seq<Arquivo>, i: nat)
    requires TodosValidos(fs) && Coerente(ix) && i <= |fs|
    ensures VarreduraVersao(ix, ver, fs, i) == Varredura(ix, DaVersao(ver, fs, i))
  {
    hide DoArquivo, Varredura;
    VarreduraNada(ix);
    if i > 0 {
      VersaoEhVarredura(ix, ver, fs, i - 1);
      VarreduraConcat(ix, DaVersao(ver, fs, i - 1), DoArquivo(ver, i - 1, fs[i - 1], |fs[i - 1].tams|));
    }
  }

  lemma InicioMais(fs: seq<Arquivo>, ini: seq<nat>, i: nat)
    requires Inicios(fs, ini, i) && |ini| == i < |fs|
    ensures Inicios(fs, ini + [Inicio(fs, i)], i + 1)
  {
  }

  /** One file of a version; `p` is where its recipe starts, counted from the version's start. */
  method VarrerProximo(inicio: nat, ghost ix: Indice, ver: nat, fs: seq<Arquivo>, i: nat, antes: Indice) returns (r: Indice, p: nat)
    requires TodosValidos(fs) && Coerente(ix) && i < |fs| && antes == VarreduraVersao(ix, ver, fs, i) && inicio == |ix.rec|
    ensures r == VarreduraVersao(ix, ver, fs, i + 1) && p == Inicio(fs, i)
  {
    p := |antes.rec| - inicio;
    r := VarrerArquivo(antes, ver, i, fs[i]);
  }

  /** One version: the position at which each file's recipe starts is noted in `ini`. */
  method VarrerVersao(ix: Indice, ver: nat, fs: seq<Arquivo>) returns (r: Indice, ini: seq<nat>)
    requires TodosValidos(fs) && Coerente(ix)
    ensures r == VarreduraVersao(ix, ver, fs, |fs|)
    ensures |ini| == |fs| && Inicios(fs, ini, |fs|)
  {
    r, ini := ix, [];
    for i := 0 to |fs|
      invariant |ini| == i && r == VarreduraVersao(ix, ver, fs, i) && Inicios(fs, ini, i)
    {
      var p;
      r, p := VarrerProximo(|ix.rec|, ix, ver, fs, i, r);
      InicioMais(fs, ini, i);
      ini := ini + [p];
    }
  }

  /** The scan of both versions; `base` is where the recipes of the second one start. */
  method VarrerChunks(v1: seq<Arquivo>, v2: seq<Arquivo>) returns (ix: Indice, base: nat, ini: seq<nat>)
    requires TodosValidos(v1) && TodosValidos(v2)
    ensures Coerente(Vazio) && ix == Varredura(Vazio, Todas(v1, v2)) && base == Inicio(v1, |v1|)
    ensures |ini| == |v2| && Inicios(v2, ini, |v2|)
  {
    var ini1;
    ix, ini1 := VarrerVersao(Vazio, 0, v1);
    base := |ix.rec|;
    VersaoEhVarredura(Vazio, 0, v1, |v1|);
    VersaoEhVarredura(ix, 1, v2, |v2|);
    VarreduraConcat(Vazio, DaVersao(0, v1, |v1|), DaVersao(1, v2, |v2|));
    ix, ini := VarrerVersao(ix, 1, v2);
  }

  // ---------------------------------------------------------------- what the scan guarantees

  lemma VarreduraPasso(l: seq<Oc>, n: nat, ix: Indice)
    requires n < |l| && Coerente(Vazio) && ix == Varredura(Vazio, l[..n])
    ensures Coerente(ix) && Registrado(ix, l[n]) == Varredura(Vazio, l[..n + 1])
  {
    assert l[..n + 1] == l[..n] + [l[n]];
    VarreduraMaisUm(Vazio, l[..n], l[n]);
  }

  /** The index after the scan has the properties above. */
  lemma {:induction false} VarreduraInv(l: seq<Oc>, n: nat) returns (ix: Indice)
    requires n <= |l| && SemColisao(l) && VersoesEmOrdem(l)
    ensures Coerente(Vazio) && ix == Varredura(Vazio, l[..n])
    ensures Inv(l, n, ix)
  {
    hide Inv, Registrado, SemColisao, Varredura, VersoesEmOrdem;
    if n == 0 {
      ix := Vazio;
      VazioInv(l);
      VarreduraNada(ix);
    } else {
      var antes := VarreduraInv(l, n - 1);
      VarreduraPasso(l, n - 1, antes);
      ix := Registrado(antes, l[n - 1]);
      PassoInv(l, n - 1, antes, ix);
    }
  }

  lemma PassoInv(l: seq<Oc>, n: nat, ix: Indice, ix': Indice)
    requires n < |l| && Coerente(ix) && Inv(l, n, ix) && SemColisao(l) && VersoesEmOrdem(l)
    requires ix' == Registrado(ix, l[n])
    ensures Inv(l, n + 1, ix')
  {
    Conhecido(l, n, ix);
    if Repetida(l, n) { InvRepetido(l, n, ix); } else { InvNovo(l, n, ix); }
  }

  lemma {:induction false} DaVersaoSo(ver: nat, fs: seq<Arquivo>, n: nat)
    requires TodosValidos(fs) && n <= |fs|
    ensures forall k :: 0 <= k < |DaVersao(ver, fs, n)| ==>
      var c := DaVersao(ver, fs, n)[k];
      c.ver == ver && c.obj < n && c.off + |c.dados| <= |fs[c.obj].dados|
      && c.dados == fs[c.obj].dados[c.off..c.off + |c.dados|]
  {
    hide DoArquivo;
    if n > 0 {
      DaVersaoSo(ver, fs, n - 1);
      DoArquivoSo(ver, n - 1, fs[n - 1]);
    }
  }

  lemma DoArquivoSo(ver: nat, obj: nat, f: Arquivo)
    requires f.Valid()
    ensures forall k :: 0 <= k < |f.tams| ==>
      var c := DoArquivo(ver, obj, f, |f.tams|)[k];
      c.ver == ver && c.obj == obj && c.off + |c.dados| <= |f.dados| && c.dados == f.dados[c.off..c.off + |c.dados|]
  {
    hide DoArquivo, OcDe;
    forall k | 0 <= k < |f.tams|
      ensures var c := DoArquivo(ver, obj, f, |f.tams|)[k];
        c.ver == ver && c.obj == obj && c.off + |c.dados| <= |f.dados| && c.dados == f.dados[c.off..c.off + |c.dados|]
    {
      DoArquivoEm(ver, obj, f, |f.tams|, k);
      OcLegivel(ver, obj, f, k);
    }
  }

  lemma OcLegivel(ver: nat, obj: nat, f: Arquivo, k: nat)
    requires f.Valid() && k < |f.tams|
    ensures var c := OcDe(ver, obj, f, k);
      c.ver == ver && c.obj == obj && c.off + |c.dados| <= |f.dados| && c.dados == f.dados[c.off..c.off + |c.dados|]
  {
    assert f.Encaixa(k);
  }

  lemma {:induction false} TodasEmOrdem(v1: seq<Arquivo>, v2: seq<Arquivo>)
    requires TodosValidos(v1) && TodosValidos(v2)
    ensures VersoesEmOrdem(Todas(v1, v2))
  {
    DaVersaoSo(0, v1, |v1|);
    DaVersaoSo(1, v2, |v2|);
  }

  /** The logical size of a version. */
  function Bytes(fs: seq<Arquivo>, n: nat): nat
    requires n <= |fs|
  {
    if n == 0 then 0 else Bytes(fs, n - 1) + |fs[n - 1].dados|
  }

  ghost predicate Conservada(v2: seq<Arquivo>, l: seq<Oc>, ix: Indice) {
    && ix.vsV1 == JaEmV1(l, |l|) && ix.dupTotal == Duplicados(l, |l|)
    && |ix.uVer| == |ix.uTam| && ix.dupTotal + Novos(ix, |ix.uVer|) == Bytes(v2, |v2|)
  }

  /** Conservation: the bytes of the second version are those reported as duplicates plus
      those of the chunks first met in it; the duplicates are the chunks whose content was
      met before; and the bytes reported as already in v1 are exactly those of the chunks
      whose content occurs in v1. */
  lemma {:induction false} Conservacao(v1: seq<Arquivo>, v2: seq<Arquivo>)
    requires TodosValidos(v1) && TodosValidos(v2) && Coerente(Vazio) && SemColisao(Todas(v1, v2))
    ensures Conservada(v2, Todas(v1, v2), Varredura(Vazio, Todas(v1, v2)))
  {
    var l := Todas(v1, v2);
    TodasEmOrdem(v1, v2);
    var ix := VarreduraInv(l, |l|);
    assert l[..|l|] == l;
    LogicoV2(v1, v2);
  }

  lemma {:induction false} LogicoConcat(a: seq<Oc>, b: seq<Oc>, n: nat)
    requires n <= |b|
    ensures Logico(a + b, |a| + n) == Logico(a, |a|) + Logico(b, n)
  {
    if n > 0 {
      LogicoConcat(a, b, n - 1);
      assert (a + b)[|a| + n - 1] == b[n - 1];
    } else {
      LogicoPrefixo(a, b, |a|);
    }
  }

  lemma {:induction false} LogicoPrefixo(a: seq<Oc>, b: seq<Oc>, n: nat)
    requires n <= |a|
    ensures Logico(a + b, n) == Logico(a, n)
  {
    if n > 0 { LogicoPrefixo(a, b, n - 1); }
  }

  lemma {:induction false} LogicoTudo(a: seq<Oc>, b: seq<Oc>)
    ensures Logico(a + b, |a + b|) == Logico(a, |a|) + Logico(b, |b|)
  {
    LogicoConcat(a, b, |b|);
  }

  lemma {:induction false} LogicoSoma(a: seq<Oc>, b: seq<Oc>, c: seq<Oc>)
    requires c == a + b
    ensures Logico(c, |c|) == Logico(a, |a|) + Logico(b, |b|)
  {
    LogicoTudo(a, b);
  }

  lemma {:induction false} LogicoZero(a: seq<Oc>, n: nat)
    requires n <= |a| && forall k :: 0 <= k < |a| ==> a[k].ver == 0
    ensures Logico(a, n) == 0
  {
    if n > 0 { LogicoZero(a, n - 1); }
  }

  lemma {:induction false} LogicoArquivo(obj: nat, f: Arquivo, n: nat)
    requires f.Valid() && n <= |f.tams|
    ensures Logico(DoArquivo(1, obj, f, n), n) == f.Ate(n)
  {
    if n > 0 {
      LogicoArquivo(obj, f, n - 1);
      assert f.Encaixa(n - 1);
      LogicoPrefixo(DoArquivo(1, obj, f, n - 1), [OcDe(1, obj, f, n - 1)], n - 1);
    }
  }

  lemma {:induction false} LogicoVersao(fs: seq<Arquivo>, n: nat)
    requires TodosValidos(fs) && n <= |fs|
    ensures Logico(DaVersao(1, fs, n), |DaVersao(1, fs, n)|) == Bytes(fs, n)
  {
    hide DoArquivo, Logico;
    LogicoZero([], 0);
    if n > 0 {
      var f := fs[n - 1];
      LogicoVersao(fs, n - 1);
      LogicoArquivo(n - 1, f, |f.tams|);
      var a, b := DaVersao(1, fs, n - 1), DoArquivo(1, n - 1, f, |f.tams|);
      LogicoSoma(a, b, DaVersao(1, fs, n));
    }
  }

  lemma {:induction false} LogicoV2(v1: seq<Arquivo>, v2: seq<Arquivo>)
    requires TodosValidos(v1) && TodosValidos(v2)
    ensures Logico(Todas(v1, v2), |Todas(v1, v2)|) == Bytes(v2, |v2|)
  {
    var a := DaVersao(0, v1, |v1|);
    DaVersaoSo(0, v1, |v1|);
    LogicoTudo(a, DaVersao(1, v2, |v2|));
    LogicoZero(a, |a|);
    LogicoVersao(v2, |v2|);
  }

  // ---------------------------------------------------------------- rebuilding the second version

  /** The bytes a table entry stands for, read where its chunk was first met. */
  predicate Localiza(v1: seq<Arquivo>, v2: seq<Arquivo>, ix: Indice, u: nat, b: seq<byte>) {
    && u < |ix.uVer| == |ix.uObj| == |ix.uOff| == |ix.uTam|
    && var fs := if ix.uVer[u] == 0 then v1 else v2;
    && ix.uObj[u] < |fs| && ix.uOff[u] + ix.uTam[u] <= |fs[ix.uObj[u]].dados|
    && b == fs[ix.uObj[u]].dados[ix.uOff[u]..ix.uOff[u] + ix.uTam[u]]
  }

  /** A chunk of the list can be read where it was met. */
  lemma {:induction false} TodasLegiveis(v1: seq<Arquivo>, v2: seq<Arquivo>, x: nat)
    requires TodosValidos(v1) && TodosValidos(v2) && x < |Todas(v1, v2)|
    ensures var c := Todas(v1, v2)[x]; var fs := if c.ver == 0 then v1 else v2;
      c.obj < |fs| && c.off + |c.dados| <= |fs[c.obj].dados| && c.dados == fs[c.obj].dados[c.off..c.off + |c.dados|]
  {
    DaVersaoSo(0, v1, |v1|);
    DaVersaoSo(1, v2, |v2|);
    var n := Inicio(v1, |v1|);
    var c := if x < n then DaVersao(0, v1, |v1|)[x] else DaVersao(1, v2, |v2|)[x - n];
    assert Todas(v1, v2)[x] == c;
  }

  lemma EntradaDaReceita(l: seq<Oc>, n: nat, ix: Indice, k: nat) returns (x: nat)
    requires n <= |l| && Receitas(l, n, ix.rec) && Tabela(l, n, ix) && k < n
    ensures x < |l| && l[x].dados == l[k].dados && ix.rec[k] < |ix.uVer|
    ensures ix.uVer[ix.rec[k]] == l[x].ver && ix.uObj[ix.rec[k]] == l[x].obj
    ensures ix.uOff[ix.rec[k]] == l[x].off && ix.uTam[ix.rec[k]] == |l[x].dados|
  {
    x := Primeiras(l, n)[ix.rec[k]];
  }

  lemma {:induction false} EntradaDeTodas(v1: seq<Arquivo>, v2: seq<Arquivo>, k: nat) returns (x: nat)
    requires TodosValidos(v1) && TodosValidos(v2) && Coerente(Vazio) && SemColisao(Todas(v1, v2))
    requires k < |Todas(v1, v2)|
    ensures var l, ix := Todas(v1, v2), Varredura(Vazio, Todas(v1, v2));
      && |ix.rec| == |l| && x < |l| && l[x].dados == l[k].dados
      && ix.rec[k] < |ix.uVer| == |ix.uObj| == |ix.uOff| == |ix.uTam|
      && ix.uVer[ix.rec[k]] == l[x].ver && ix.uObj[ix.rec[k]] == l[x].obj
      && ix.uOff[ix.rec[k]] == l[x].off && ix.uTam[ix.rec[k]] == |l[x].dados|
  {
    var l := Todas(v1, v2);
    TodasEmOrdem(v1, v2);
    var ix := VarreduraInv(l, |l|);
    assert l[..|l|] == l;
    x := EntradaDaReceita(l, |l|, ix, k);
  }

  /** The recipes name, for every chunk met, a table entry that locates its bytes. */
  ghost predicate Localizadas(v1: seq<Arquivo>, v2: seq<Arquivo>, ix: Indice, l: seq<Oc>) {
    |ix.rec| == |l| && forall k :: 0 <= k < |l| ==> LocalizaOc(v1, v2, ix, l, k)
  }

  predicate LocalizaOc(v1: seq<Arquivo>, v2: seq<Arquivo>, ix: Indice, l: seq<Oc>, k: nat) {
    k < |ix.rec| && k < |l| && Localiza(v1, v2, ix, ix.rec[k], l[k].dados)
  }

  lemma {:induction false} ReceitaLocaliza(v1: seq<Arquivo>, v2: seq<Arquivo>, k: nat)
    requires TodosValidos(v1) && TodosValidos(v2) && Coerente(Vazio) && SemColisao(Todas(v1, v2))
    requires k < |Todas(v1, v2)|
    ensures var ix := Varredura(Vazio, Todas(v1, v2));
      |ix.rec| == |Todas(v1, v2)| && Localiza(v1, v2, ix, ix.rec[k], Todas(v1, v2)[k].dados)
  {
    var x := EntradaDeTodas(v1, v2, k);
    TodasLegiveis(v1, v2, x);
  }

  /** After the scan, every recipe entry locates the bytes of the chunk it was made for. */
  lemma {:induction false} ReceitasLocalizam(v1: seq<Arquivo>, v2: seq<Arquivo>)
    requires TodosValidos(v1) && TodosValidos(v2) && Coerente(Vazio) && SemColisao(Todas(v1, v2))
    ensures Localizadas(v1, v2, Varredura(Vazio, Todas(v1, v2)), Todas(v1, v2))
  {
    var l, ix := Todas(v1, v2), Varredura(Vazio, Todas(v1, v2));
    forall k | 0 <= k < |l| ensures LocalizaOc(v1, v2, ix, l, k) {
      ReceitaLocaliza(v1, v2, k);
    }
  }

  lemma {:induction false} NaVersao(ver: nat, fs: seq<Arquivo>, j: nat, k: nat, n: nat)
    requires TodosValidos(fs) && j < n <= |fs| && k < |fs[j].tams|
    ensures Inicio(fs, j) + k < Inicio(fs, n)
    ensures DaVersao(ver, fs, n)[Inicio(fs, j) + k] == OcDe(ver, j, fs[j], k)
    decreases n
  {
    hide OcDe, DoArquivo;
    if j < n - 1 {
      NaVersao(ver, fs, j, k, n - 1);
    } else {
      DoArquivoEm(ver, j, fs[j], |fs[j].tams|, k);
    }
  }

  /** The scan meets the chunks of both versions file after file, each with its version, file,
      offset, bytes and digest. */
  lemma OrdemDasOcorrencias(v1: seq<Arquivo>, v2: seq<Arquivo>, ver: nat, j: nat, k: nat)
    requires TodosValidos(v1) && TodosValidos(v2) && ver < 2
    requires var fs := if ver == 0 then v1 else v2; j < |fs| && k < |fs[j].tams|
    ensures var fs := if ver == 0 then v1 else v2;
      var p := (if ver == 0 then 0 else Inicio(v1, |v1|)) + Inicio(fs, j) + k;
      p < |Todas(v1, v2)| && Todas(v1, v2)[p] == Oc(ver, j, fs[j].offs[k], fs[j].Pedaco(k), fs[j].hs[k])
  {
    hide DaVersao, Inicio, Arquivo.Pedaco;
    var fs := if ver == 0 then v1 else v2;
    NaVersao(ver, fs, j, k, |fs|);
  }

  /** Chunk k of file j of the second version, in the list of all chunks. */
  lemma {:induction false} NaLista(v1: seq<Arquivo>, v2: seq<Arquivo>, j: nat, k: nat)
    requires TodosValidos(v1) && TodosValidos(v2) && j < |v2| && k < |v2[j].tams|
    ensures var p := Inicio(v1, |v1|) + Inicio(v2, j) + k;
      p < |Todas(v1, v2)| && Todas(v1, v2)[p].dados == v2[j].Pedaco(k)
  {
    NaVersao(1, v2, j, k, |v2|);
  }

  /** The recipe entries from position a on locate the pieces of file f. */
  ghost predicate ReceitaDe(v1: seq<Arquivo>, v2: seq<Arquivo>, ix: Indice, a: nat, f: Arquivo)
    requires f.Valid()
  {
    a + |f.tams| <= |ix.rec| && forall k :: 0 <= k < |f.tams| ==> LocalizaPedaco(v1, v2, ix, a, f, k)
  }

  predicate LocalizaPedaco(v1: seq<Arquivo>, v2: seq<Arquivo>, ix: Indice, a: nat, f: Arquivo, k: nat)
    requires f.Valid() && k < |f.tams|
  {
    a + k < |ix.rec| && Localiza(v1, v2, ix, ix.rec[a + k], f.Pedaco(k))
  }

  /** The chunks of file f stand at position a of the list. */
  ghost predicate Trecho(l: seq<Oc>, a: nat, f: Arquivo)
    requires f.Valid()
  {
    a + |f.tams| <= |l| && forall k :: 0 <= k < |f.tams| ==> TrechoEm(l, a, f, k)
  }

  predicate TrechoEm(l: seq<Oc>, a: nat, f: Arquivo, k: nat)
    requires f.Valid() && k < |f.tams|
  {
    a + k < |l| && l[a + k].dados == f.Pedaco(k)
  }

  lemma {:induction false} TrechoDe(v1: seq<Arquivo>, v2: seq<Arquivo>, l: seq<Oc>, j: nat, a: nat)
    requires TodosValidos(v1) && TodosValidos(v2) && l == Todas(v1, v2)
    requires j < |v2| && a == Inicio(v1, |v1|) + Inicio(v2, j)
    ensures Trecho(l, a, v2[j])
  {
    InicioMonotono(v2, j + 1, |v2|);
    forall k | 0 <= k < |v2[j].tams| ensures TrechoEm(l, a, v2[j], k) {
      NaLista(v1, v2, j, k);
    }
  }

  lemma ReceitaDoTrecho(v1: seq<Arquivo>, v2: seq<Arquivo>, ix: Indice, l: seq<Oc>, f: Arquivo, a: nat)
    requires Localizadas(v1, v2, ix, l) && f.Valid() && Trecho(l, a, f)
    ensures ReceitaDe(v1, v2, ix, a, f)
  {
    forall k | 0 <= k < |f.tams| ensures LocalizaPedaco(v1, v2, ix, a, f, k) {
      assert TrechoEm(l, a, f, k) && LocalizaOc(v1, v2, ix, l, a + k);
    }
  }

  lemma {:induction false} InicioMonotono(fs: seq<Arquivo>, i: nat, n: nat)
    requires i <= n <= |fs|
    ensures Inicio(fs, i) <= Inicio(fs, n)
    decreases n
  {
    if i < n { InicioMonotono(fs, i, n - 1); }
  }

  /** memoryview(d)[u_off[u] : u_off[u] + u_tam[u]] of the file where chunk u was first met. */
  method LerPedaco(v1: seq<Arquivo>, v2: seq<Arquivo>, ix: Indice, u: nat, ghost b: seq<byte>) returns (d: seq<byte>)
    requires Localiza(v1, v2, ix, u, b)
    ensures d == b
  {
    var fonte := if ix.uVer[u] == 0 then v1 else v2;
    d := fonte[ix.uObj[u]].dados[ix.uOff[u]..ix.uOff[u] + ix.uTam[u]];
  }

  /** The reconstruction loop for one file: the pieces that recipe entries a..b name,
      concatenated, are the file. */
  method Remontar(v1: seq<Arquivo>, v2: seq<Arquivo>, ix: Indice, a: nat, b: nat, ghost f: Arquivo) returns (d: seq<byte>)
    requires f.Valid() && ReceitaDe(v1, v2, ix, a, f) && b == a + |f.tams|
    ensures d == f.dados
  {
    d := [];
    var k := a;
    while k < b
      invariant a <= k <= b && f.Ate(k - a) <= |f.dados| && d == f.dados[..f.Ate(k - a)]
    {
      MaisUmPedaco(f, k - a);
      assert LocalizaPedaco(v1, v2, ix, a, f, k - a);
      var p := LerPedaco(v1, v2, ix, ix.rec[k], f.Pedaco(k - a));
      d := d + p;
      k := k + 1;
    }
  }

  lemma MaisUmPedaco(f: Arquivo, k: nat)
    requires f.Valid() && k < |f.tams|
    ensures f.Ate(k) <= f.Ate(k + 1) <= |f.dados| && f.dados[..f.Ate(k + 1)] == f.dados[..f.Ate(k)] + f.Pedaco(k)
  {
    assert f.Encaixa(k);
  }

  /** The recipes of the second version are complete and each locates its file's pieces. */
  ghost predicate Reconstruivel(v1: seq<Arquivo>, v2: seq<Arquivo>, ix: Indice, base: nat, ini: seq<nat>) {
    && TodosValidos(v2) && Inicios(v2, ini, |v2|) && |ix.rec| == base + Inicio(v2, |v2|)
    && forall j :: 0 <= j < |v2| ==> ReceitaPronta(v1, v2, ix, base, j)
  }

  ghost predicate ReceitaPronta(v1: seq<Arquivo>, v2: seq<Arquivo>, ix: Indice, base: nat, j: nat)
    requires TodosValidos(v2) && j < |v2|
  {
    ReceitaDe(v1, v2, ix, base + Inicio(v2, j), v2[j])
  }

  /** The first n files whose recorded digest is not theirs, in order. */
  function Falhas(v2: seq<Arquivo>, sha: seq<byte> -> Digest, manifesto: seq<Digest>, n: nat): (fs: seq<nat>)
    requires n <= |v2| == |manifesto|
  {
    if n == 0 then []
    else Falhas(v2, sha, manifesto, n - 1) + if sha(v2[n - 1].dados) != manifesto[n - 1] then [n - 1] else []
  }

  lemma {:induction false} FalhasSaoAsErradas(v2: seq<Arquivo>, sha: seq<byte> -> Digest, manifesto: seq<Digest>, n: nat)
    requires n <= |v2| == |manifesto|
    ensures var fs := Falhas(v2, sha, manifesto, n);
      && (forall j :: j in fs <==> 0 <= j < n && sha(v2[j].dados) != manifesto[j])
      && forall a, b :: 0 <= a < b < |fs| ==> fs[a] < fs[b]
  {
    hide Falhas;
    FalhasMais(v2, sha, manifesto, if n == 0 then 0 else n - 1);
    if n > 0 {
      FalhasSaoAsErradas(v2, sha, manifesto, n - 1);
      MaisUma(Falhas(v2, sha, manifesto, n - 1), n - 1);
    }
  }

  lemma MaisUma(s: seq<nat>, x: nat)
    requires (forall y :: y in s ==> y < x) && forall a, b :: 0 <= a < b < |s| ==> s[a] < s[b]
    ensures (forall y :: y in s + [x] <==> y in s || y == x)
    ensures forall a, b :: 0 <= a < b < |s + [x]| ==> (s + [x])[a] < (s + [x])[b]
  {
    assert forall a :: 0 <= a < |s| ==> s[a] in s;
  }

  lemma {:induction false} FalhasPrefixo(v2: seq<Arquivo>, sha: seq<byte> -> Digest, manifesto: seq<Digest>, m: nat, n: nat)
    requires m <= n <= |v2| == |manifesto|
    ensures Falhas(v2, sha, manifesto, m) <= Falhas(v2, sha, manifesto, n)
    decreases n
  {
    if m < n { FalhasPrefixo(v2, sha, manifesto, m, n - 1); }
  }

  /** The check of the second version: `exato` holds exactly when every file's recorded
      digest is that of the file.  It stops after the sixth failure. */
  method ReconstruirV2(v1: seq<Arquivo>, v2: seq<Arquivo>, ix: Indice, base: nat, ini: seq<nat>,
                       sha: seq<byte> -> Digest, manifesto: seq<Digest>)
    returns (exato: bool, falhas: seq<nat>)
    requires Reconstruivel(v1, v2, ix, base, ini) && |manifesto| == |v2|
    ensures exato <==> forall j {:trigger manifesto[j]} :: 0 <= j < |v2| ==> sha(v2[j].dados) == manifesto[j]
    ensures var todas := Falhas(v2, sha, manifesto, |v2|); falhas == if |todas| > 6 then todas[..6] else todas
  {
    hide Falhas;
    exato, falhas := true, [];
    var j := 0;
    FalhasMais(v2, sha, manifesto, 0);
    while j < |v2|
      invariant 0 <= j <= |v2| && |falhas| <= 5 && (exato <==> falhas == [])
      invariant falhas == Falhas(v2, sha, manifesto, j)
    {
      var a := base + ini[j];
      var b := if j + 1 < |v2| then base + ini[j + 1] else |ix.rec|;
      assert Inicio(v2, j + 1) == Inicio(v2, j) + |v2[j].tams| && ReceitaPronta(v1, v2, ix, base, j);
      var d := Remontar(v1, v2, ix, a, b, v2[j]);
      FalhasMais(v2, sha, manifesto, j);
      FalhasPrefixo(v2, sha, manifesto, j + 1, |v2|);
      if sha(d) != manifesto[j] {
        exato := false;
        falhas := falhas + [j];
        if |falhas| > 5 {
          break;
        }
      }
      j := j + 1;
    }
    AlgumaFalha(v2, sha, manifesto);
  }

  lemma FalhasMais(v2: seq<Arquivo>, sha: seq<byte> -> Digest, manifesto: seq<Digest>, n: nat)
    requires n <= |v2| == |manifesto|
    ensures Falhas(v2, sha, manifesto, 0) == []
    ensures n < |v2| && sha(v2[n].dados) != manifesto[n] ==>
      Falhas(v2, sha, manifesto, n + 1) == Falhas(v2, sha, manifesto, n) + [n]
    ensures n < |v2| && sha(v2[n].dados) == manifesto[n] ==>
      Falhas(v2, sha, manifesto, n + 1) == Falhas(v2, sha, manifesto, n)
  {
  }

  lemma AlgumaFalha(v2: seq<Arquivo>, sha: seq<byte> -> Digest, manifesto: seq<Digest>)
    requires |v2| == |manifesto|
    ensures Falhas(v2, sha, manifesto, |v2|) == [] <==>
      forall j {:trigger manifesto[j]} :: 0 <= j < |v2| ==> sha(v2[j].dados) == manifesto[j]
  {
    var fs := Falhas(v2, sha, manifesto, |v2|);
    FalhasSaoAsErradas(v2, sha, manifesto, |v2|);
    if fs != [] { assert fs[0] in fs; }
  }

  lemma {:induction false} UmaReceita(v1: seq<Arquivo>, v2: seq<Arquivo>, ix: Indice, j: nat)
    requires TodosValidos(v1) && TodosValidos(v2) && Localizadas(v1, v2, ix, Todas(v1, v2)) && j < |v2|
    ensures ReceitaPronta(v1, v2, ix, Inicio(v1, |v1|), j)
  {
    var a := Inicio(v1, |v1|) + Inicio(v2, j);
    TrechoDe(v1, v2, Todas(v1, v2), j, a);
    ReceitaDoTrecho(v1, v2, ix, Todas(v1, v2), v2[j], a);
  }

  lemma {:induction false} ReceitasProntas(v1: seq<Arquivo>, v2: seq<Arquivo>, ix: Indice, ini: seq<nat>)
    requires TodosValidos(v1) && TodosValidos(v2) && Localizadas(v1, v2, ix, Todas(v1, v2))
    requires Inicios(v2, ini, |v2|)
    ensures Reconstruivel(v1, v2, ix, Inicio(v1, |v1|), ini)
  {
    forall j | 0 <= j < |v2| ensures ReceitaPronta(v1, v2, ix, Inicio(v1, |v1|), j) {
      UmaReceita(v1, v2, ix, j);
    }
  }

  /** varrer_chunks: the scan, the check of the second version, and the reported totals.
      The check fails exactly for a file whose recorded digest is wrong; the totals obey
      the conservation law; `vs_v1` counts exactly the bytes already in the first version. */
  method Analisar(v1: seq<Arquivo>, v2: seq<Arquivo>, sha: seq<byte> -> Digest, manifesto: seq<Digest>)
    returns (ix: Indice, exato: bool, falhas: seq<nat>)
    requires TodosValidos(v1) && TodosValidos(v2) && |manifesto| == |v2| && SemColisao(Todas(v1, v2))
    ensures exato <==> forall j {:trigger manifesto[j]} :: 0 <= j < |v2| ==> sha(v2[j].dados) == manifesto[j]
    ensures var todas := Falhas(v2, sha, manifesto, |v2|); falhas == if |todas| > 6 then todas[..6] else todas
    ensures Conservada(v2, Todas(v1, v2), ix)
  {
    var base, ini;
    ix, base, ini := VarrerChunks(v1, v2);
    Conservacao(v1, v2);
    ReceitasLocalizam(v1, v2);
    ReceitasProntas(v1, v2, ix, ini);
    exato, falhas := ReconstruirV2(v1, v2, ix, base, ini, sha, manifesto);
  }

  /** chunkear gives such a file for either kind of chunker. */
  method Cortar(d: seq<byte>, ch: Cdc.Chunker, b2: seq<byte> -> Digest) returns (f: Arquivo)
    requires ch.Valid()
    ensures f.Valid() && f.dados == d && f.tams == Cdc.ChunkLens(ch, d)
    ensures forall k :: 0 <= k < |f.tams| ==> f.hs[k] == b2(f.Pedaco(k))
  {
    var r := Cdc.Chunkear(d, ch);
    Cdc.ChunkLensPartition(ch, d);
    f := Resumir(d, r.value.0, r.value.1, b2);
  }

  /** The digests of the chunks. */
  method Resumir(d: seq<byte>, offs: seq<nat>, tams: seq<nat>, b2: seq<byte> -> Digest) returns (f: Arquivo)
    requires |offs| == |tams| && Sum(tams) == |d| && forall i :: 0 <= i < |offs| ==> offs[i] == Offset(tams, i)
    ensures f.Valid() && f.dados == d && f.tams == tams
    ensures forall k :: 0 <= k < |f.tams| ==> f.hs[k] == b2(f.Pedaco(k))
  {
    var hs: seq<Digest> := [];
    f := Arquivo(d, offs, tams, seq(|tams|, _ => 0));
    CortaCerto(f);
    while |hs| < |tams|
      invariant |hs| <= |tams| && forall k :: 0 <= k < |hs| ==> hs[k] == b2(f.Pedaco(k))
    {
      hs := hs + [b2(f.Pedaco(|hs|))];
    }
    ghost var g := f;
    f := Arquivo(d, offs, tams, hs);
    CortaCerto(f);
    forall k | 0 <= k < |f.tams| ensures f.hs[k] == b2(f.Pedaco(k)) {
      assert f.Pedaco(k) == g.Pedaco(k);
    }
  }

  lemma CortaCerto(f: Arquivo)
    requires |f.offs| == |f.tams| == |f.hs| && Sum(f.tams) == |f.dados|
    requires forall i :: 0 <= i < |f.offs| ==> f.offs[i] == Offset(f.tams, i)
    ensures f.Valid()
  {
    hide Offset, Sum, Arquivo.Ate;
    OffsetZero(f.tams);
    AteEhOffset(f, 0);
    forall k | 0 <= k < |f.tams| ensures f.Encaixa(k) {
      PedacoSeguinte(f, k);
    }
  }

  lemma PedacoSeguinte(f: Arquivo, k: nat)
    requires k < |f.tams| == |f.offs| && Sum(f.tams) == |f.dados|
    requires forall i :: 0 <= i < |f.offs| ==> f.offs[i] == Offset(f.tams, i)
    ensures f.Encaixa(k)
  {
    hide Offset, Sum, Arquivo.Ate;
    OffsetStep(f.tams, k);
    AteEhOffset(f, k + 1);
  }

  lemma AteEhOffset(f: Arquivo, k: nat)
    requires k <= |f.tams| == |f.offs| && Sum(f.tams) == |f.dados|
    requires forall i :: 0 <= i < |f.offs| ==> f.offs[i] == Offset(f.tams, i)
    ensures f.Ate(k) == Offset(f.tams, k) <= |f.dados|
  {
    hide Offset, Sum;
    OffsetNoMaximo(f.tams, k);
  }

  lemma OffsetNoMaximo(lens: seq<nat>, k: nat)
    requires k <= |lens|
    ensures Offset(lens, k) <= Sum(lens) && (k == |lens| ==> Offset(lens, k) == Sum(lens))
  {
    assert lens == lens[..k] + lens[k..];
    SumConcat(lens[..k], lens[k..]);
  }
}
