/** Duplicate detection of bench/perfil_dataset.py: candidates share their size; either all
    of them are hashed in full, or a hash of three windows first discards files that cannot
    have a duplicate.  Both ways are proved to report the same groups, namely the content
    classes of two files or more.  Work is spread over processes, so results may arrive in
    any order.  The hashes are taken as injective on what is fed to them, and files as
    unchanged while they are read. */
module Duplicatas {
  import opened Base
  import opened Listas

  const JANELA: nat := 64 * 1024

  type Digest = nat

  /** A scanned file: its size and content, whether it was classified as readable, whether
      opening and reading it for hashing succeeds, and its two digests. */
  datatype Arq = Arq(tam: nat, dados: seq<byte>, legivel: bool, abre: bool, amostra: Digest, completo: Digest)

  // ---------------------------------------------------------------- the sample

  /** What the sample hash reads: the whole file up to three windows, else the first, the
      middle and the last window. */
  function Amostra(d: seq<byte>): seq<byte> {
    if |d| <= 3 * JANELA then d
    else Janela(d, 0) + Janela(d, (|d| - JANELA) / 2) + Janela(d, |d| - JANELA)
  }

  /** One window, read at p. */
  function Janela(d: seq<byte>, p: nat): seq<byte>
    requires p + JANELA <= |d|
  {
    d[p..p + JANELA]
  }

  lemma MudarFora(d: seq<byte>, p: nat, v: byte, lo: nat)
    requires p < |d| && lo + JANELA <= |d| && (p < lo || lo + JANELA <= p)
    ensures Janela(d[p := v], lo) == Janela(d, lo)
  {
  }

  /** Two files of n bytes that differ outside the windows only. */
  lemma AmostraNaoDistingue(n: nat) returns (d: seq<byte>, e: seq<byte>)
    requires 3 * JANELA < n
    ensures |d| == |e| == n && d != e && Amostra(d) == Amostra(e)
  {
    hide Janela;
    var p := ForaDasJanelas(n);
    d := Zeros(n);
    e := d[p := 1];
    assert e[p] != d[p];
    MudarFora(d, p, 1, 0);
    MudarFora(d, p, 1, (n - JANELA) / 2);
    MudarFora(d, p, 1, n - JANELA);
  }

  lemma ForaDasJanelas(n: nat) returns (p: nat)
    requires 3 * JANELA < n
    ensures JANELA <= p < n - JANELA
    ensures var meio := (n - JANELA) / 2; p < meio || meio + JANELA <= p
  {
    p := if JANELA < (n - JANELA) / 2 then JANELA else 2 * JANELA;
  }

  /** Equal samples mean equal files exactly up to three windows. */
  lemma AmostraInjetiva(n: nat)
    ensures (forall d: seq<byte>, e: seq<byte> :: |d| == |e| == n && Amostra(d) == Amostra(e) ==> d == e) <==> n <= 3 * JANELA
  {
    if 3 * JANELA < n {
      var d, e := AmostraNaoDistingue(n);
    }
  }

  /** Position p of a file of n bytes is read for the sample: all of a file of up to three
      windows of 64 KiB, else the first, the last and the middle window. */
  predicate Amostrado(n: nat, p: nat) {
    p < n && (n <= 196608 || p < 65536 || n - 65536 <= p || (n - 65536) / 2 <= p < (n - 65536) / 2 + 65536)
  }

  lemma JanelasIguais(d: seq<byte>, e: seq<byte>, lo: nat)
    requires |d| == |e| && lo + JANELA <= |d|
    ensures Janela(d, lo) == Janela(e, lo) <==> forall p :: lo <= p < lo + JANELA ==> d[p] == e[p]
  {
    if Janela(d, lo) == Janela(e, lo) {
      forall p | lo <= p < lo + JANELA ensures d[p] == e[p] {
        assert d[p] == Janela(d, lo)[p - lo] && e[p] == Janela(e, lo)[p - lo];
      }
    }
  }

  lemma TresPartes<T>(a: seq<T>, b: seq<T>, c: seq<T>, x: seq<T>, y: seq<T>, z: seq<T>)
    requires |a| == |x| && |b| == |y| && |c| == |z|
    ensures a + b + c == x + y + z <==> a == x && b == y && c == z
  {
    var s, t := a + b + c, x + y + z;
    assert s[..|a|] == a && s[|a|..|a| + |b|] == b && s[|a| + |b|..] == c;
    assert t[..|x|] == x && t[|x|..|x| + |y|] == y && t[|x| + |y|..] == z;
  }

  /** Two files of one size have the same sample exactly if they agree at every position read. */
  lemma MesmaAmostra(d: seq<byte>, e: seq<byte>)
    requires |d| == |e|
    ensures Amostra(d) == Amostra(e) <==> forall p :: 0 <= p < |d| && Amostrado(|d|, p) ==> d[p] == e[p]
  {
    hide Janela;
    if 3 * JANELA < |d| {
      TresJanelas(d, e);
    } else {
      assert d == e <==> forall p :: 0 <= p < |d| ==> d[p] == e[p];
    }
  }

  lemma TresJanelas(d: seq<byte>, e: seq<byte>)
    requires |d| == |e| && 3 * JANELA < |d|
    ensures Amostra(d) == Amostra(e) <==>
      forall p :: 0 <= p < |d| && (p < JANELA || |d| - JANELA <= p || (|d| - JANELA) / 2 <= p < (|d| - JANELA) / 2 + JANELA) ==>
        d[p] == e[p]
  {
    hide Janela;
    var m, u := (|d| - JANELA) / 2, |d| - JANELA;
    JanelasIguais(d, e, 0);
    JanelasIguais(d, e, m);
    JanelasIguais(d, e, u);
    TamanhoDaJanela(d, e, 0);
    TamanhoDaJanela(d, e, m);
    TamanhoDaJanela(d, e, u);
    TresPartes(Janela(d, 0), Janela(d, m), Janela(d, u), Janela(e, 0), Janela(e, m), Janela(e, u));
  }

  lemma TamanhoDaJanela(d: seq<byte>, e: seq<byte>, lo: nat)
    requires |d| == |e| && lo + JANELA <= |d|
    ensures |Janela(d, lo)| == |Janela(e, lo)| == JANELA
  {
  }

  // ---------------------------------------------------------------- what should be found

  predicate Candidato(a: Arq) { 0 < a.tam && a.legivel }

  /** A file that takes part and can be read. */
  predicate Elegivel(a: Arq) { Candidato(a) && a.abre }

  /** The sample hash takes in the size and the sample, and tells apart what it takes in. */
  predicate AmostraFiel(arqs: seq<Arq>, i: nat, j: nat)
    requires i < |arqs| && j < |arqs|
  {
    arqs[i].amostra == arqs[j].amostra <==>
    arqs[i].tam == arqs[j].tam && Amostra(arqs[i].dados) == Amostra(arqs[j].dados)
  }

  /** The full hash takes in the size and the content. */
  predicate CompletoFiel(arqs: seq<Arq>, i: nat, j: nat)
    requires i < |arqs| && j < |arqs|
  {
    arqs[i].completo == arqs[j].completo <==> arqs[i].tam == arqs[j].tam && arqs[i].dados == arqs[j].dados
  }

  /** Files have their size, and digests are equal exactly when what is hashed is equal. */
  ghost predicate Fieis(arqs: seq<Arq>) {
    && (forall i :: 0 <= i < |arqs| ==> |arqs[i].dados| == arqs[i].tam)
    && (forall i, j :: 0 <= i < |arqs| && 0 <= j < |arqs| ==> AmostraFiel(arqs, i, j))
    && (forall i, j :: 0 <= i < |arqs| && 0 <= j < |arqs| ==> CompletoFiel(arqs, i, j))
  }

  /** Two eligible files with the same content. */
  predicate Iguais(arqs: seq<Arq>, i: nat, j: nat) {
    i < |arqs| && j < |arqs| && Elegivel(arqs[i]) && Elegivel(arqs[j]) && arqs[i].dados == arqs[j].dados
  }

  /** g lists, in ascending order, a whole content class of two files or more. */
  ghost predicate Classe(arqs: seq<Arq>, g: seq<nat>) {
    |g| >= 2 && Crescente(g) && forall j: nat :: j in g <==> Iguais(arqs, g[0], j)
  }

  /** Every file that has a duplicate is listed. */
  ghost predicate Cobre(arqs: seq<Arq>, grupos: seq<seq<nat>>) {
    forall i, j :: Iguais(arqs, i, j) && i != j ==> Listado(grupos, i)
  }

  /** The report: every content class of two files or more, once, ordered by first file. */
  ghost predicate Grupos(arqs: seq<Arq>, grupos: seq<seq<nat>>) {
    && (forall a :: 0 <= a < |grupos| ==> Classe(arqs, grupos[a]))
    && Cobre(arqs, grupos) && PrimeirosCrescentes(grupos)
  }

  // ---------------------------------------------------------------- the report is unique

  /** A class listed in one report is listed in every report. */
  lemma ClasseListada(arqs: seq<Arq>, g: seq<nat>, grupos: seq<seq<nat>>)
    requires Classe(arqs, g) && Cobre(arqs, grupos) && forall a :: 0 <= a < |grupos| ==> Classe(arqs, grupos[a])
    ensures g in grupos
  {
    assert g[1] in g && Iguais(arqs, g[0], g[1]);
    assert Listado(grupos, g[0]);
    var a :| 0 <= a < |grupos| && g[0] in grupos[a];
    assert Iguais(arqs, grupos[a][0], g[0]);
    forall i: nat ensures i in g <==> i in grupos[a] {
      assert Iguais(arqs, g[0], i) <==> Iguais(arqs, grupos[a][0], i);
    }
    CrescentesIguais(g, grupos[a]);
  }

  /** There is only one correct report, so any two ways that produce one agree. */
  lemma GruposUnicos(arqs: seq<Arq>, x: seq<seq<nat>>, y: seq<seq<nat>>)
    requires Grupos(arqs, x) && Grupos(arqs, y)
    ensures x == y
  {
    forall g ensures g in x <==> g in y {
      if g in x { ClasseListada(arqs, g, y); }
      if g in y { ClasseListada(arqs, g, x); }
    }
    PrimeirosIguais(x, y);
  }

  // ---------------------------------------------------------------- the files that could be read

  /** The files that were read. */
  method Lidos(arqs: seq<Arq>, ordem: seq<nat>) returns (ids: seq<nat>)
    requires SemRepeticao(ordem) && forall i :: i in ordem ==> i < |arqs|
    ensures SemRepeticao(ids) && forall i: nat :: i in ids <==> i in ordem && arqs[i].abre
  {
    ids := [];
    var n := 0;
    while n < |ordem|
      invariant 0 <= n <= |ordem| && SemRepeticao(ids)
      invariant forall i: nat :: i in ids <==> i in ordem[..n] && i < |arqs| && arqs[i].abre
    {
      assert ordem[n] in ordem && ordem[n] !in ordem[..n];
      if arqs[ordem[n]].abre {
        MaisUm(ids, ordem[n]);
        ids := ids + [ordem[n]];
      }
      n := n + 1;
    }
    assert ordem[..n] == ordem;
  }

  // ---------------------------------------------------------------- joining lists

  predicate Grande(a: Arq) { 3 * JANELA < a.tam }

  /** A list that may hold duplicates; with `soGrandes`, of files that need the full hash. */
  predicate Serve(arqs: seq<Arq>, g: seq<nat>, soGrandes: bool) {
    |g| >= 2 && g[0] < |arqs| && (soGrandes ==> Grande(arqs[g[0]]))
  }

  predicate DeServida(arqs: seq<Arq>, gr: seq<seq<nat>>, n: nat, i: nat, soGrandes: bool)
    requires n <= |gr|
  {
    exists b :: 0 <= b < n && i in gr[b] && Serve(arqs, gr[b], soGrandes)
  }

  /** s holds the members of the first n lists that serve. */
  ghost predicate Juntou(arqs: seq<Arq>, s: seq<nat>, gr: seq<seq<nat>>, n: nat, soGrandes: bool) {
    n <= |gr| && SemRepeticao(s) && forall i: nat :: i in s <==> DeServida(arqs, gr, n, i, soGrandes)
  }

  lemma JuntarMais<K>(arqs: seq<Arq>, s: seq<nat>, gr: seq<seq<nat>>, ids: seq<nat>, ch: seq<K>, n: nat, so: bool)
    requires Particao(gr, ids, ch) && n < |gr| && Juntou(arqs, s, gr, n, so)
    ensures Juntou(arqs, if Serve(arqs, gr[n], so) then s + gr[n] else s, gr, n + 1, so)
  {
    var g := gr[n];
    var t := if Serve(arqs, g, so) then s + g else s;
    forall i: nat ensures i in t <==> DeServida(arqs, gr, n + 1, i, so) {
      if DeServida(arqs, gr, n, i, so) {
        var b :| 0 <= b < n && i in gr[b] && Serve(arqs, gr[b], so);
        assert 0 <= b < n + 1;
      }
    }
    if Serve(arqs, g, so) {
      forall i | i in s ensures i !in g {
        var b :| 0 <= b < n && i in gr[b] && Serve(arqs, gr[b], so);
        Disjuntas(gr, ids, ch, b, n, i);
      }
      assert DaChave(g, ids, ch);
      JuntarDisjuntos(s, g);
    }
  }

  // ---------------------------------------------------------------- candidates by size

  function Tamanhos(arqs: seq<Arq>): seq<nat> { seq(|arqs|, i requires 0 <= i < |arqs| => arqs[i].tam) }

  /** All files that share their size with another one, and only candidates. */
  ghost predicate Candidatos(arqs: seq<Arq>, cand: seq<nat>) {
    && SemRepeticao(cand) && (forall i :: i in cand ==> i < |arqs| && Candidato(arqs[i]))
    && (forall i: nat, j: nat :: i != j && MesmoTamanho(arqs, i, j) ==> i in cand)
    && forall i :: i in cand ==> TemPar(arqs, i)
  }

  /** Another candidate has the file's size. */
  ghost predicate TemPar(arqs: seq<Arq>, i: nat) { exists j: nat :: j != i && MesmoTamanho(arqs, i, j) }

  predicate MesmoTamanho(arqs: seq<Arq>, i: nat, j: nat) {
    i < |arqs| && j < |arqs| && Candidato(arqs[i]) && Candidato(arqs[j]) && arqs[i].tam == arqs[j].tam
  }

  method PorTamanho(arqs: seq<Arq>) returns (cand: seq<nat>)
    ensures Candidatos(arqs, cand)
  {
    var ids: seq<nat> := [];
    var i := 0;
    while i < |arqs|
      invariant 0 <= i <= |arqs| && Crescente(ids)
      invariant forall j: nat :: j in ids <==> j < i && Candidato(arqs[j])
    {
      if Candidato(arqs[i]) {
        MaisUm(ids, i);
        ids := ids + [i];
      }
      i := i + 1;
    }
    var ch := Tamanhos(arqs);
    var gr := Agrupar(ids, ch);
    cand := [];
    var n := 0;
    while n < |gr|
      invariant 0 <= n <= |gr| && Juntou(arqs, cand, gr, n, false)
    {
      JuntarMais(arqs, cand, gr, ids, ch, n, false);
      assert DaChave(gr[n], ids, ch);
      if |gr[n]| > 1 {
        cand := cand + gr[n];
      }
      n := n + 1;
    }
    TodosCandidatos(arqs, ids, gr, cand);
  }

  lemma TodosCandidatos(arqs: seq<Arq>, ids: seq<nat>, gr: seq<seq<nat>>, cand: seq<nat>)
    requires Particao(gr, ids, Tamanhos(arqs)) && Juntou(arqs, cand, gr, |gr|, false)
    requires forall j: nat :: j in ids <==> j < |arqs| && Candidato(arqs[j])
    ensures Candidatos(arqs, cand)
  {
    var ch := Tamanhos(arqs);
    forall i | i in cand ensures i < |arqs| && Candidato(arqs[i]) && TemPar(arqs, i) {
      var b :| 0 <= b < |gr| && i in gr[b] && Serve(arqs, gr[b], false);
      assert DaChave(gr[b], ids, ch) && gr[b][0] in gr[b] && gr[b][1] in gr[b] && gr[b][0] != gr[b][1];
      var j := if gr[b][0] == i then gr[b][1] else gr[b][0];
      assert MesmoTamanho(arqs, i, j);
    }
    forall i: nat, j: nat | i != j && MesmoTamanho(arqs, i, j) ensures i in cand {
      var b := MesmaLista(gr, ids, ch, i, j);
      DoisNaLista(gr[b], i, j);
      assert DaChave(gr[b], ids, ch) && Serve(arqs, gr[b], false);
    }
  }

  // ---------------------------------------------------------------- from lists to classes

  /** The indices listed are candidates, and with a file every duplicate of it is listed. */
  ghost predicate Fechado(arqs: seq<Arq>, ids: seq<nat>) {
    && (forall i :: i in ids ==> i < |arqs| && Candidato(arqs[i]))
    && forall i, j :: i in ids && Iguais(arqs, i, j) ==> j in ids
  }

  /** Among the indices listed, the key of i is shared by the files with its content only. */
  ghost predicate Distingue<K>(arqs: seq<Arq>, ids: seq<nat>, ch: seq<K>, i: nat) {
    && i < |arqs| == |ch| && (forall j :: j in ids ==> j < |arqs|)
    && forall j :: j in ids ==> (ch[i] == ch[j] <==> arqs[i].dados == arqs[j].dados)
  }

  lemma ListaEhClasse<K>(arqs: seq<Arq>, gr: seq<seq<nat>>, ids: seq<nat>, ch: seq<K>, n: nat)
    requires Particao(gr, ids, ch) && n < |gr| && gr[n] != [] && Fechado(arqs, ids) && Distingue(arqs, ids, ch, gr[n][0])
    requires forall i :: i in ids ==> arqs[i].abre
    ensures forall j: nat :: j in gr[n] <==> Iguais(arqs, gr[n][0], j)
  {
    var g := gr[n];
    assert DaChave(g, ids, ch) && g[0] in g;
    forall j: nat | Iguais(arqs, g[0], j) ensures j in g {
      var b := MesmaLista(gr, ids, ch, g[0], j);
      Disjuntas(gr, ids, ch, b, n, g[0]);
    }
  }

  /** A list that yields a group; with `soPequenos`, of files the sample hash covers. */
  predicate Aceita(arqs: seq<Arq>, g: seq<nat>, soPequenos: bool) {
    |g| >= 2 && g[0] < |arqs| && (soPequenos ==> !Grande(arqs[g[0]]))
  }

  predicate VemDe(arqs: seq<Arq>, gr: seq<seq<nat>>, n: nat, i: nat, soPequenos: bool)
    requires n <= |gr|
  {
    exists b :: 0 <= b < n && i in gr[b] && Aceita(arqs, gr[b], soPequenos)
  }

  /** The groups made of the first n lists. */
  ghost predicate Parcial(arqs: seq<Arq>, gs: seq<seq<nat>>, gr: seq<seq<nat>>, n: nat, soPequenos: bool) {
    && n <= |gr| && PrimeirosDiferentes(gs)
    && (forall a :: 0 <= a < |gs| ==> Classe(arqs, gs[a]) && VemDe(arqs, gr, n, gs[a][0], soPequenos))
    && forall i: nat :: VemDe(arqs, gr, n, i, soPequenos) ==> Listado(gs, i)
  }

  lemma VemDeMais(arqs: seq<Arq>, gr: seq<seq<nat>>, n: nat, i: nat, so: bool)
    requires n < |gr|
    ensures VemDe(arqs, gr, n + 1, i, so) <==> VemDe(arqs, gr, n, i, so) || (i in gr[n] && Aceita(arqs, gr[n], so))
  {
    if VemDe(arqs, gr, n, i, so) {
      var b :| 0 <= b < n && i in gr[b] && Aceita(arqs, gr[b], so);
      assert 0 <= b < n + 1;
    }
  }

  lemma ParcialPula(arqs: seq<Arq>, gs: seq<seq<nat>>, gr: seq<seq<nat>>, n: nat, so: bool)
    requires n < |gr| && Parcial(arqs, gs, gr, n, so) && !Aceita(arqs, gr[n], so)
    ensures Parcial(arqs, gs, gr, n + 1, so)
  {
    forall i: nat ensures VemDe(arqs, gr, n + 1, i, so) <==> VemDe(arqs, gr, n, i, so) {
      VemDeMais(arqs, gr, n, i, so);
    }
  }

  lemma ParcialMais<K>(arqs: seq<Arq>, gs: seq<seq<nat>>, gr: seq<seq<nat>>, ids: seq<nat>, ch: seq<K>, n: nat, so: bool, s: seq<nat>)
    requires Particao(gr, ids, ch) && n < |gr| && Parcial(arqs, gs, gr, n, so) && Aceita(arqs, gr[n], so)
    requires Classe(arqs, s) && forall i: nat :: i in s <==> i in gr[n]
    ensures Parcial(arqs, gs + [s], gr, n + 1, so)
  {
    hide Aceita, Crescente, Iguais, Particao;
    var t := gs + [s];
    forall i: nat ensures VemDe(arqs, gr, n + 1, i, so) <==> VemDe(arqs, gr, n, i, so) || i in s {
      VemDeMais(arqs, gr, n, i, so);
    }
    assert s[0] in s;
    forall a | 0 <= a < |gs| ensures gs[a][0] != s[0] {
      var b :| 0 <= b < n && gs[a][0] in gr[b] && Aceita(arqs, gr[b], so);
      Disjuntas(gr, ids, ch, b, n, s[0]);
    }
    forall i: nat | VemDe(arqs, gr, n + 1, i, so) ensures Listado(t, i) {
      ListadoMais(gs, s, i);
    }
  }

  /** gs lists, once each, the content classes of two or more of the files in `dom`; with
      `soPequenos`, of those the sample hash covers. */
  ghost predicate ClassesDe(arqs: seq<Arq>, gs: seq<seq<nat>>, dom: seq<nat>, soPequenos: bool) {
    && PrimeirosDiferentes(gs)
    && (forall a :: 0 <= a < |gs| ==> Classe(arqs, gs[a]) && gs[a][0] in dom && Aceita(arqs, gs[a], soPequenos))
    && forall i, j :: i in dom && Iguais(arqs, i, j) && i != j && (soPequenos ==> !Grande(arqs[i])) ==> Listado(gs, i)
  }

  /** Files of the same content have the same key. */
  ghost predicate MesmaChave<K>(arqs: seq<Arq>, ids: seq<nat>, ch: seq<K>) {
    && |ch| == |arqs|
    && forall i: nat, j: nat :: i in ids && Iguais(arqs, i, j) ==> ch[i] == ch[j]
  }

  lemma ParcialCompleto<K>(arqs: seq<Arq>, gs: seq<seq<nat>>, gr: seq<seq<nat>>, ids: seq<nat>, ch: seq<K>, so: bool)
    requires Particao(gr, ids, ch) && Parcial(arqs, gs, gr, |gr|, so) && Fechado(arqs, ids) && MesmaChave(arqs, ids, ch)
    requires forall i, j :: i in ids && j in ids && ch[i] == ch[j] ==> arqs[i].tam == arqs[j].tam
    ensures ClassesDe(arqs, gs, ids, so)
  {
    forall a | 0 <= a < |gs| ensures gs[a][0] in ids && Aceita(arqs, gs[a], so) {
      var b :| 0 <= b < |gr| && gs[a][0] in gr[b] && Aceita(arqs, gr[b], so);
      assert DaChave(gr[b], ids, ch) && gr[b][0] in gr[b];
    }
    forall i, j | i in ids && Iguais(arqs, i, j) && i != j && (so ==> !Grande(arqs[i])) ensures Listado(gs, i) {
      var b := MesmaLista(gr, ids, ch, i, j);
      DoisNaLista(gr[b], i, j);
      assert DaChave(gr[b], ids, ch) && gr[b][0] in gr[b];
      assert VemDe(arqs, gr, |gr|, i, so);
    }
  }

  // ---------------------------------------------------------------- the two hashing stages

  function ChavesCompletas(arqs: seq<Arq>): seq<(nat, Digest)> {
    seq(|arqs|, i requires 0 <= i < |arqs| => (arqs[i].tam, arqs[i].completo))
  }

  function ChavesDeAmostra(arqs: seq<Arq>): seq<(nat, Digest)> {
    seq(|arqs|, i requires 0 <= i < |arqs| => (arqs[i].tam, arqs[i].amostra))
  }

  lemma CompletaDistingue(arqs: seq<Arq>, ids: seq<nat>, i: nat)
    requires Fieis(arqs) && i < |arqs| && forall j :: j in ids ==> j < |arqs|
    ensures Distingue(arqs, ids, ChavesCompletas(arqs), i)
  {
    forall j | j in ids ensures ChavesCompletas(arqs)[i] == ChavesCompletas(arqs)[j] <==> arqs[i].dados == arqs[j].dados {
      assert CompletoFiel(arqs, i, j);
    }
  }

  /** Up to three windows the sample hash is as good as the full one. */
  lemma AmostraDistingue(arqs: seq<Arq>, ids: seq<nat>, i: nat)
    requires Fieis(arqs) && i < |arqs| && !Grande(arqs[i]) && forall j :: j in ids ==> j < |arqs|
    ensures Distingue(arqs, ids, ChavesDeAmostra(arqs), i)
  {
    forall j | j in ids ensures ChavesDeAmostra(arqs)[i] == ChavesDeAmostra(arqs)[j] <==> arqs[i].dados == arqs[j].dados {
      assert AmostraFiel(arqs, i, j);
    }
  }

  lemma ChavesIguais(arqs: seq<Arq>, ids: seq<nat>)
    requires Fieis(arqs)
    ensures MesmaChave(arqs, ids, ChavesCompletas(arqs)) && MesmaChave(arqs, ids, ChavesDeAmostra(arqs))
  {
    forall i: nat, j: nat | i in ids && Iguais(arqs, i, j)
      ensures ChavesCompletas(arqs)[i] == ChavesCompletas(arqs)[j] && ChavesDeAmostra(arqs)[i] == ChavesDeAmostra(arqs)[j]
    {
      assert CompletoFiel(arqs, i, j) && AmostraFiel(arqs, i, j);
    }
  }

  /** Leaving out unreadable files loses no duplicate. */
  lemma FechadoLidos(arqs: seq<Arq>, pend: seq<nat>, ids: seq<nat>)
    requires Fechado(arqs, pend) && forall i: nat :: i in ids <==> i in pend && arqs[i].abre
    ensures Fechado(arqs, ids)
    ensures forall gs, so :: ClassesDe(arqs, gs, ids, so) ==> ClassesDe(arqs, gs, pend, so)
  {
  }

  /** The full hash of the files in `pend`: one sorted group for each digest met twice. */
  method HashCompleto(arqs: seq<Arq>, pend: seq<nat>) returns (gs: seq<seq<nat>>)
    requires Fieis(arqs) && Fechado(arqs, pend)
    ensures ClassesDe(arqs, gs, pend, false)
  {
    hide Classe, ClassesDe, Crescente, Fieis;
    var ordem := Executar(pend);
    var ids := Lidos(arqs, ordem);
    FechadoLidos(arqs, pend, ids);
    var ch := ChavesCompletas(arqs);
    var gr := Agrupar(ids, ch);
    gs := [];
    var n := 0;
    while n < |gr|
      invariant 0 <= n <= |gr| && Parcial(arqs, gs, gr, n, false)
    {
      var g := gr[n];
      assert DaChave(g, ids, ch) && g[0] in g;
      if |g| >= 2 {
        var s := Ordenar(g);
        CompletaDistingue(arqs, ids, g[0]);
        ListaEhClasse(arqs, gr, ids, ch, n);
        OrdenadaEhClasse(arqs, g, s);
        ParcialMais(arqs, gs, gr, ids, ch, n, false, s);
        gs := gs + [s];
      } else {
        ParcialPula(arqs, gs, gr, n, false);
      }
      n := n + 1;
    }
    ChavesIguais(arqs, ids);
    ParcialCompleto(arqs, gs, gr, ids, ch, false);
  }

  lemma OrdenadaEhClasse(arqs: seq<Arq>, g: seq<nat>, s: seq<nat>)
    requires |g| >= 2 && Crescente(s) && |s| == |g| && forall i: nat :: i in s <==> i in g
    requires forall j: nat :: j in g <==> Iguais(arqs, g[0], j)
    ensures Classe(arqs, s)
  {
    assert s[0] in s;
    forall j: nat ensures j in s <==> Iguais(arqs, s[0], j) {
      assert Iguais(arqs, g[0], s[0]);
    }
  }

  /** What the first stage leaves for the full hash. */
  ghost predicate Pendentes(arqs: seq<Arq>, pend: seq<nat>) {
    && Fechado(arqs, pend) && (forall i :: i in pend ==> Grande(arqs[i]))
    && forall i: nat, j: nat :: Iguais(arqs, i, j) && i != j && Grande(arqs[i]) ==> i in pend
  }

  lemma JuntadosSaoPendentes(arqs: seq<Arq>, pend: seq<nat>, gr: seq<seq<nat>>, ids: seq<nat>)
    requires Fieis(arqs) && Particao(gr, ids, ChavesDeAmostra(arqs)) && Juntou(arqs, pend, gr, |gr|, true) && Fechado(arqs, ids)
    requires forall i, j :: Iguais(arqs, i, j) && i != j ==> i in ids
    ensures Pendentes(arqs, pend)
  {
    var ch := ChavesDeAmostra(arqs);
    ChavesIguais(arqs, ids);
    forall i | i in pend ensures i in ids && Grande(arqs[i]) {
      var b :| 0 <= b < |gr| && i in gr[b] && Serve(arqs, gr[b], true);
      assert DaChave(gr[b], ids, ch);
    }
    forall i, j | i in pend && Iguais(arqs, i, j) ensures j in pend {
      var b :| 0 <= b < |gr| && i in gr[b] && Serve(arqs, gr[b], true);
      var c := MesmaLista(gr, ids, ch, i, j);
      Disjuntas(gr, ids, ch, b, c, i);
      assert DeServida(arqs, gr, |gr|, j, true);
    }
    forall i: nat, j: nat | Iguais(arqs, i, j) && i != j && Grande(arqs[i]) ensures i in pend {
      assert Iguais(arqs, j, i);
      var b := MesmaLista(gr, ids, ch, i, j);
      DoisNaLista(gr[b], i, j);
      assert DaChave(gr[b], ids, ch) && Serve(arqs, gr[b], true);
      assert DeServida(arqs, gr, |gr|, i, true);
    }
  }

  lemma CandidatosFechados(arqs: seq<Arq>, cand: seq<nat>)
    requires Fieis(arqs) && Candidatos(arqs, cand)
    ensures Fechado(arqs, cand) && forall i, j :: Iguais(arqs, i, j) && i != j ==> i in cand
  {
    forall i, j | Iguais(arqs, i, j) && i != j ensures i in cand && j in cand {
      assert MesmoTamanho(arqs, i, j) && MesmoTamanho(arqs, j, i);
    }
  }

  lemma FimDaAmostra(arqs: seq<Arq>, grupos: seq<seq<nat>>, pend: seq<nat>, gr: seq<seq<nat>>, ids: seq<nat>)
    requires Fieis(arqs) && Fechado(arqs, ids) && Particao(gr, ids, ChavesDeAmostra(arqs))
    requires Parcial(arqs, grupos, gr, |gr|, true) && Juntou(arqs, pend, gr, |gr|, true)
    requires forall i, j :: Iguais(arqs, i, j) && i != j ==> i in ids
    ensures ClassesDe(arqs, grupos, ids, true) && Pendentes(arqs, pend)
  {
    ChavesIguais(arqs, ids);
    ParcialCompleto(arqs, grupos, gr, ids, ChavesDeAmostra(arqs), true);
    JuntadosSaoPendentes(arqs, pend, gr, ids);
  }

  lemma GrupoPequeno(arqs: seq<Arq>, gr: seq<seq<nat>>, ids: seq<nat>, n: nat)
    requires Fieis(arqs) && Fechado(arqs, ids) && Particao(gr, ids, ChavesDeAmostra(arqs)) && Crescente(ids)
    requires forall i :: i in ids ==> arqs[i].abre
    requires n < |gr| && |gr[n]| >= 2 && gr[n][0] < |arqs| && !Grande(arqs[gr[n][0]])
    ensures Classe(arqs, gr[n])
  {
    AmostraDistingue(arqs, ids, gr[n][0]);
    ListaEhClasse(arqs, gr, ids, ChavesDeAmostra(arqs), n);
    assert DaChave(gr[n], ids, ChavesDeAmostra(arqs));
  }

  /** A file of more than three windows with another file of its size and sample. */
  ghost predicate ComGemea(arqs: seq<Arq>, i: nat) {
    i < |arqs| && 196608 < arqs[i].tam && exists j: nat :: j != i && MesmoTamanhoEAmostra(arqs, i, j)
  }

  predicate MesmoTamanhoEAmostra(arqs: seq<Arq>, i: nat, j: nat) {
    && i < |arqs| && j < |arqs| && Elegivel(arqs[i]) && Elegivel(arqs[j])
    && arqs[i].tam == arqs[j].tam && Amostra(arqs[i].dados) == Amostra(arqs[j].dados)
  }

  lemma PendenteTemGemea(arqs: seq<Arq>, gr: seq<seq<nat>>, ids: seq<nat>, cand: seq<nat>, i: nat)
    requires Fieis(arqs) && Candidatos(arqs, cand) && (forall k: nat :: k in ids <==> k in cand && arqs[k].abre)
    requires Particao(gr, ids, ChavesDeAmostra(arqs)) && DeServida(arqs, gr, |gr|, i, true)
    ensures ComGemea(arqs, i)
  {
    hide Amostra;
    var b :| 0 <= b < |gr| && i in gr[b] && Serve(arqs, gr[b], true);
    var g := gr[b];
    assert DaChave(g, ids, ChavesDeAmostra(arqs)) && g[0] in g && g[1] in g && g[0] != g[1];
    var j := if g[0] == i then g[1] else g[0];
    assert AmostraFiel(arqs, i, j);
    assert MesmoTamanhoEAmostra(arqs, i, j);
  }

  lemma GemeaFicaPendente(arqs: seq<Arq>, gr: seq<seq<nat>>, ids: seq<nat>, cand: seq<nat>, i: nat, j: nat)
    requires Fieis(arqs) && Candidatos(arqs, cand) && (forall k: nat :: k in ids <==> k in cand && arqs[k].abre)
    requires Particao(gr, ids, ChavesDeAmostra(arqs))
    requires i != j && MesmoTamanhoEAmostra(arqs, i, j) && Grande(arqs[i])
    ensures DeServida(arqs, gr, |gr|, i, true)
  {
    hide Amostra;
    assert MesmoTamanho(arqs, i, j) && MesmoTamanho(arqs, j, i);
    assert AmostraFiel(arqs, i, j);
    var b := MesmaLista(gr, ids, ChavesDeAmostra(arqs), i, j);
    DoisNaLista(gr[b], i, j);
    assert DaChave(gr[b], ids, ChavesDeAmostra(arqs)) && Serve(arqs, gr[b], true);
  }

  lemma PendentesExatos(arqs: seq<Arq>, pend: seq<nat>, gr: seq<seq<nat>>, ids: seq<nat>, cand: seq<nat>)
    requires Fieis(arqs) && Candidatos(arqs, cand) && (forall k: nat :: k in ids <==> k in cand && arqs[k].abre)
    requires Particao(gr, ids, ChavesDeAmostra(arqs)) && Juntou(arqs, pend, gr, |gr|, true)
    ensures forall i: nat :: i in pend <==> ComGemea(arqs, i)
  {
    hide Candidatos, Particao, Fieis;
    forall i: nat ensures i in pend <==> ComGemea(arqs, i) {
      if i in pend { PendenteTemGemea(arqs, gr, ids, cand, i); }
      if ComGemea(arqs, i) {
        var j: nat :| j != i && MesmoTamanhoEAmostra(arqs, i, j);
        GemeaFicaPendente(arqs, gr, ids, cand, i, j);
      }
    }
  }

  /** The sample hash of the candidates: groups of small files are final, and left for the full
      hash are exactly the large files that share size and sample with another. */
  method PreFiltrar(arqs: seq<Arq>, cand: seq<nat>) returns (grupos: seq<seq<nat>>, pend: seq<nat>)
    requires Fieis(arqs) && Candidatos(arqs, cand)
    ensures ClassesDe(arqs, grupos, cand, true) && Pendentes(arqs, pend)
    ensures forall i: nat :: i in pend <==> ComGemea(arqs, i)
  {
    CandidatosFechados(arqs, cand);
    var ordem := Executar(cand);
    var res := Lidos(arqs, ordem);
    FechadoLidos(arqs, cand, res);
    var ids := Ordenar(res);
    var gr := Agrupar(ids, ChavesDeAmostra(arqs));
    FechadoLidos(arqs, cand, ids);
    grupos, pend := Repartir(arqs, gr, ids);
    PendentesExatos(arqs, pend, gr, ids, cand);
    FimDaAmostra(arqs, grupos, pend, gr, ids);
  }

  /** The loop over the lists that share size and sample. */
  method Repartir(arqs: seq<Arq>, gr: seq<seq<nat>>, ghost ids: seq<nat>) returns (grupos: seq<seq<nat>>, pend: seq<nat>)
    requires Fieis(arqs) && Fechado(arqs, ids) && Particao(gr, ids, ChavesDeAmostra(arqs)) && Crescente(ids)
    requires forall i :: i in ids ==> arqs[i].abre
    ensures Parcial(arqs, grupos, gr, |gr|, true) && Juntou(arqs, pend, gr, |gr|, true)
  {
    hide Classe, Crescente, Fechado, Fieis;
    ghost var ch := ChavesDeAmostra(arqs);
    grupos, pend := [], [];
    var n := 0;
    while n < |gr|
      invariant 0 <= n <= |gr| && Parcial(arqs, grupos, gr, n, true) && Juntou(arqs, pend, gr, n, true)
    {
      var g := gr[n];
      assert DaChave(g, ids, ch) && g[0] in g;
      JuntarMais(arqs, pend, gr, ids, ch, n, true);
      if |g| < 2 {
        ParcialPula(arqs, grupos, gr, n, true);
      } else if arqs[g[0]].tam <= 3 * JANELA {
        GrupoPequeno(arqs, gr, ids, n);
        ParcialMais(arqs, grupos, gr, ids, ch, n, true, g);
        grupos := grupos + [g];
      } else {
        ParcialPula(arqs, grupos, gr, n, true);
        pend := pend + g;
      }
      n := n + 1;
    }
  }

  // ---------------------------------------------------------------- the report

  /** All classes of two files or more, once each, in any order. */
  ghost predicate Completos(arqs: seq<Arq>, gs: seq<seq<nat>>) {
    PrimeirosDiferentes(gs) && (forall a :: 0 <= a < |gs| ==> Classe(arqs, gs[a])) && Cobre(arqs, gs)
  }

  /** The groups of small files and those of large ones together are all. */
  lemma DuasEtapas(arqs: seq<Arq>, cand: seq<nat>, x: seq<seq<nat>>, pend: seq<nat>, y: seq<seq<nat>>)
    requires Fieis(arqs) && Candidatos(arqs, cand)
    requires ClassesDe(arqs, x, cand, true) && Pendentes(arqs, pend) && ClassesDe(arqs, y, pend, false)
    ensures Completos(arqs, x + y)
  {
    CandidatosFechados(arqs, cand);
    forall i, j | Iguais(arqs, i, j) && i != j ensures Listado(x + y, i) {
      ListadoSoma(x, y, i);
    }
    var g := x + y;
    forall a, b | 0 <= a < |g| && 0 <= b < |g| && a != b ensures g[a][0] != g[b][0] {
      assert a >= |x| ==> Grande(arqs[g[a][0]]);
      assert b >= |x| ==> Grande(arqs[g[b][0]]);
    }
  }

  lemma UmaEtapa(arqs: seq<Arq>, cand: seq<nat>, y: seq<seq<nat>>)
    requires Fieis(arqs) && Candidatos(arqs, cand) && ClassesDe(arqs, y, cand, false)
    ensures Completos(arqs, y)
  {
    CandidatosFechados(arqs, cand);
  }

  lemma OrdenadosSaoGrupos(arqs: seq<Arq>, gs: seq<seq<nat>>, s: seq<seq<nat>>)
    requires Completos(arqs, gs) && PrimeirosCrescentes(s) && forall g :: g in s <==> g in gs
    ensures Grupos(arqs, s)
  {
    forall a | 0 <= a < |s| ensures Classe(arqs, s[a]) {
      assert s[a] in gs;
    }
    forall i, j | Iguais(arqs, i, j) && i != j ensures Listado(s, i) {
      assert Listado(gs, i);
      var a :| 0 <= a < |gs| && i in gs[a];
      assert gs[a] in s;
    }
  }

  predicate MesmoGrupo(grupos: seq<seq<nat>>, i: nat, j: nat) {
    exists a :: 0 <= a < |grupos| && i in grupos[a] && j in grupos[a]
  }

  /** A correct report in the files' own terms: two files are in one group exactly if both are
      not empty, readable and could be opened, and have the same content; and every file in a
      group has another one there. */
  lemma GruposSaoIguais(arqs: seq<Arq>, grupos: seq<seq<nat>>, i: nat, j: nat)
    requires Grupos(arqs, grupos) && i < |arqs| && j < |arqs| && i != j
    ensures MesmoGrupo(grupos, i, j) <==>
      && 0 < arqs[i].tam && arqs[i].legivel && arqs[i].abre
      && 0 < arqs[j].tam && arqs[j].legivel && arqs[j].abre
      && arqs[i].dados == arqs[j].dados
  {
    if MesmoGrupo(grupos, i, j) {
      var a :| 0 <= a < |grupos| && i in grupos[a] && j in grupos[a];
      assert Classe(arqs, grupos[a]) && Iguais(arqs, grupos[a][0], i) && Iguais(arqs, grupos[a][0], j);
    }
    if Iguais(arqs, i, j) {
      assert Listado(grupos, i);
      var a :| 0 <= a < |grupos| && i in grupos[a];
      assert Classe(arqs, grupos[a]) && Iguais(arqs, grupos[a][0], i);
      assert Iguais(arqs, grupos[a][0], j);
    }
  }

  /** A file is kept exactly when no earlier one has its content. */
  predicate TemAnterior(arqs: seq<Arq>, i: nat) { exists j: nat :: j < i && Iguais(arqs, j, i) }

  lemma NaoPrimeiroTemAnterior(arqs: seq<Arq>, grupos: seq<seq<nat>>, i: nat)
    requires Grupos(arqs, grupos) && NaoPrimeiro(grupos, i)
    ensures TemAnterior(arqs, i)
  {
    hide Iguais, Cobre;
    var a :| 0 <= a < |grupos| && grupos[a] != [] && i in grupos[a][1..];
    var g := grupos[a];
    assert Classe(arqs, g);
    var k :| 1 <= k < |g| && g[k] == i;
    assert g[0] in g && i in g && g[0] < g[k];
  }

  lemma TemAnteriorNaoPrimeiro(arqs: seq<Arq>, grupos: seq<seq<nat>>, i: nat)
    requires Grupos(arqs, grupos) && TemAnterior(arqs, i)
    ensures NaoPrimeiro(grupos, i)
  {
    var j: nat :| j < i && Iguais(arqs, j, i);
    assert Iguais(arqs, i, j);
    assert Listado(grupos, i);
    var a :| 0 <= a < |grupos| && i in grupos[a];
    var g := grupos[a];
    assert Classe(arqs, g) && Iguais(arqs, g[0], i);
    assert j in g;
    NaoEhOPrimeiro(g, j, i);
  }

  lemma NaoEhOPrimeiro(g: seq<nat>, j: nat, i: nat)
    requires Crescente(g) && j in g && i in g && j < i
    ensures g != [] && i in g[1..]
  {
    var k :| 0 <= k < |g| && g[k] == i;
    var m :| 0 <= m < |g| && g[m] == j;
    assert g[1..][k - 1] == i;
  }

  lemma RedundanteSeTemAnterior(arqs: seq<Arq>, grupos: seq<seq<nat>>, i: nat)
    requires Grupos(arqs, grupos)
    ensures NaoPrimeiro(grupos, i) <==> TemAnterior(arqs, i)
  {
    hide Grupos, NaoPrimeiro, TemAnterior;
    if NaoPrimeiro(grupos, i) { NaoPrimeiroTemAnterior(arqs, grupos, i); }
    if TemAnterior(arqs, i) { TemAnteriorNaoPrimeiro(arqs, grupos, i); }
  }

  /** etapa_dedup: in either mode, and in whatever order results arrive, the groups are the
      content classes of two files or more, and a file is redundant exactly when an earlier
      one has the same content. */
  method EtapaDedup(arqs: seq<Arq>, hashCompleto: bool) returns (grupos: seq<seq<nat>>, redundante: seq<bool>)
    requires Fieis(arqs)
    ensures Grupos(arqs, grupos)
    ensures |redundante| == |arqs| && forall i :: 0 <= i < |arqs| ==> (redundante[i] <==> TemAnterior(arqs, i))
  {
    var cand := PorTamanho(arqs);
    CandidatosFechados(arqs, cand);
    var todos;
    if hashCompleto {
      todos := HashCompleto(arqs, cand);
      UmaEtapa(arqs, cand, todos);
    } else {
      var pequenos, pend := PreFiltrar(arqs, cand);
      var grandes := HashCompleto(arqs, pend);
      DuasEtapas(arqs, cand, pequenos, pend, grandes);
      todos := pequenos + grandes;
    }
    grupos := OrdenarGrupos(todos);
    OrdenadosSaoGrupos(arqs, todos, grupos);
    MembrosValidos(arqs, grupos);
    redundante := Marcar(|arqs|, grupos);
    forall i | 0 <= i < |arqs| ensures NaoPrimeiro(grupos, i) <==> TemAnterior(arqs, i) {
      RedundanteSeTemAnterior(arqs, grupos, i);
    }
  }

  lemma MembrosValidos(arqs: seq<Arq>, grupos: seq<seq<nat>>)
    requires Grupos(arqs, grupos)
    ensures forall a, i :: 0 <= a < |grupos| && i in grupos[a] ==> i < |arqs|
  {
    forall a, i | 0 <= a < |grupos| && i in grupos[a] ensures i < |arqs| {
      assert Classe(arqs, grupos[a]);
    }
  }
}
