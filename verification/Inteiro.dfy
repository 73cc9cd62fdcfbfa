/** tarefa_arquivo_inteiro of bench/dedup.py: deduplication of whole files, written with sets
    of hashes instead of the chunk store.  It is proved to report what the chunk store reports
    when every file is a single chunk. */
module Inteiro {
  import opened Base
  import opened Dedup

  /** Whole files as occurrences: the first n1 are the first version, the rest the second. */
  ghost predicate DuasVersoes(l: seq<Oc>, n1: nat) {
    n1 <= |l| && forall i :: 0 <= i < |l| ==> l[i].ver == if i < n1 then 0 else 1
  }

  /** The hashes of the first n occurrences. */
  function Hashes(l: seq<Oc>, n: nat): set<Digest>
    requires n <= |l|
  {
    set i | 0 <= i < n :: l[i].h
  }

  lemma HashesMais(l: seq<Oc>, n: nat)
    requires n < |l|
    ensures Hashes(l, n + 1) == Hashes(l, n) + {l[n].h}
  {
  }

  /** A hash is among the first n exactly when the content is. */
  lemma HashMeuConteudo(l: seq<Oc>, n: nat, k: nat)
    requires n <= |l| && k < |l| && SemColisao(l)
    ensures l[k].h in Hashes(l, n) <==> exists j :: 0 <= j < n && l[j].dados == l[k].dados
  {
    if l[k].h in Hashes(l, n) {
      var j :| 0 <= j < n && l[j].h == l[k].h;
      assert l[j].dados == l[k].dados;
    }
  }

  /** Occurrence u, among the first n, is the first one with digest d. */
  predicate PrimeiraVez(l: seq<Oc>, n: nat, d: Digest, u: nat)
    requires n <= |l|
  {
    u < n && l[u].h == d && forall j :: 0 <= j < u ==> l[j].h != d
  }

  /** The dictionary leads each hash met to its first occurrence. */
  ghost predicate Primeiros(l: seq<Oc>, n: nat, dic: map<Digest, nat>) {
    && n <= |l| && dic.Keys == Hashes(l, n)
    && forall d :: d in dic ==> PrimeiraVez(l, n, d, dic[d])
  }

  /** The first loop: one entry per content. */
  method Indexar(l: seq<Oc>) returns (dic: map<Digest, nat>)
    ensures Primeiros(l, |l|, dic)
  {
    dic := map[];
    var n := 0;
    while n < |l|
      invariant 0 <= n <= |l| && Primeiros(l, n, dic)
    {
      HashesMais(l, n);
      if l[n].h !in dic {
        assert forall j :: 0 <= j < n ==> l[j].h in Hashes(l, n);
        dic := dic[l[n].h := n];
      }
      n := n + 1;
    }
  }

  lemma EmV1PorHash(l: seq<Oc>, n1: nat, k: nat)
    requires DuasVersoes(l, n1) && SemColisao(l) && k < |l|
    ensures l[k].h in Hashes(l, n1) <==> EmV1(l, k)
  {
    HashMeuConteudo(l, n1, k);
  }

  lemma {:induction false} PrimeiraVersaoNaoConta(l: seq<Oc>, n1: nat, n: nat)
    requires DuasVersoes(l, n1) && n <= n1
    ensures JaEmV1(l, n) == 0 && Duplicados(l, n) == 0
  {
    if n > 0 { PrimeiraVersaoNaoConta(l, n1, n - 1); }
  }

  /** bytes_v2_ja_em_v1. */
  method SomarEmV1(l: seq<Oc>, n1: nat) returns (vsV1: nat)
    requires DuasVersoes(l, n1) && SemColisao(l)
    ensures vsV1 == JaEmV1(l, |l|)
  {
    var h1 := Hashes(l, n1);
    vsV1 := 0;
    PrimeiraVersaoNaoConta(l, n1, n1);
    var j := n1;
    while j < |l|
      invariant n1 <= j <= |l| && vsV1 == JaEmV1(l, j)
    {
      EmV1PorHash(l, n1, j);
      if l[j].h in h1 {
        vsV1 := vsV1 + |l[j].dados|;
      }
      j := j + 1;
    }
  }

  /** bytes_v2_duplicados_total. */
  method SomarDuplicados(l: seq<Oc>, n1: nat) returns (dupTotal: nat)
    requires DuasVersoes(l, n1) && SemColisao(l)
    ensures dupTotal == Duplicados(l, |l|)
  {
    var visto := Hashes(l, n1);
    dupTotal := 0;
    PrimeiraVersaoNaoConta(l, n1, n1);
    var j := n1;
    while j < |l|
      invariant n1 <= j <= |l| && dupTotal == Duplicados(l, j) && visto == Hashes(l, j)
    {
      HashMeuConteudo(l, j, j);
      HashesMais(l, j);
      if l[j].h in visto {
        dupTotal := dupTotal + |l[j].dados|;
      }
      visto := visto + {l[j].h};
      j := j + 1;
    }
  }

  /** bit_exato: reading every file of the second version back from where its hash was first
      met gives the file, so the check fails only for a wrong recorded digest. */
  method Reler(l: seq<Oc>, n1: nat, dic: map<Digest, nat>, sha: seq<byte> -> Digest, manifesto: seq<Digest>) returns (exato: bool)
    requires DuasVersoes(l, n1) && SemColisao(l) && Primeiros(l, |l|, dic) && |manifesto| == |l| - n1
    ensures exato <==> forall j {:trigger manifesto[j]} :: 0 <= j < |manifesto| ==> sha(l[n1 + j].dados) == manifesto[j]
  {
    exato := true;
    var j := 0;
    while j < |manifesto|
      invariant 0 <= j <= |manifesto|
      invariant exato <==> forall i {:trigger manifesto[i]} :: 0 <= i < j ==> sha(l[n1 + i].dados) == manifesto[i]
    {
      assert l[n1 + j].h in Hashes(l, |l|);
      var u := dic[l[n1 + j].h];
      if sha(l[u].dados) != manifesto[j] {
        exato := false;
      }
      j := j + 1;
    }
  }

  /** tarefa_arquivo_inteiro agrees with the chunk store on single-chunk files. */
  method ArquivoInteiro(l: seq<Oc>, n1: nat, sha: seq<byte> -> Digest, manifesto: seq<Digest>)
    returns (dic: map<Digest, nat>, vsV1: nat, dupTotal: nat, exato: bool)
    requires DuasVersoes(l, n1) && SemColisao(l) && |manifesto| == |l| - n1
    ensures Coerente(Vazio) && vsV1 == Varredura(Vazio, l).vsV1 && dupTotal == Varredura(Vazio, l).dupTotal
    ensures |dic| == |Varredura(Vazio, l).uVer|
    ensures exato <==> forall j {:trigger manifesto[j]} :: 0 <= j < |manifesto| ==> sha(l[n1 + j].dados) == manifesto[j]
  {
    dic := Indexar(l);
    vsV1 := SomarEmV1(l, n1);
    dupTotal := SomarDuplicados(l, n1);
    exato := Reler(l, n1, dic, sha, manifesto);
    ghost var ix := VarreduraInv(l, |l|);
    assert l[..|l|] == l;
    TantosQuantosUnicos(l, |l|);
  }

  /** As many hashes as unique chunks. */
  lemma {:induction false} TantosQuantosUnicos(l: seq<Oc>, n: nat)
    requires n <= |l| && SemColisao(l)
    ensures |Hashes(l, n)| == |Primeiras(l, n)|
  {
    hide Hashes, Repetida, SemColisao;
    if n > 0 {
      TantosQuantosUnicos(l, n - 1);
      HashesMais(l, n - 1);
      HashDeRepetida(l, n - 1);
      MaisUm(Hashes(l, n - 1), l[n - 1].h);
    } else {
      HashesNada(l);
    }
  }

  lemma HashesNada(l: seq<Oc>)
    ensures Hashes(l, 0) == {}
  {
  }

  lemma HashDeRepetida(l: seq<Oc>, n: nat)
    requires n < |l| && SemColisao(l)
    ensures l[n].h in Hashes(l, n) <==> Repetida(l, n)
  {
    HashMeuConteudo(l, n, n);
  }

  lemma MaisUm<T>(s: set<T>, x: T)
    ensures |s + {x}| == |s| + Um(x !in s)
  {
    if x in s { assert s + {x} == s; }
  }
}
