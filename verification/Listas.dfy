/** The lists and dictionaries of lists that duplicate detection works with: Python's
    defaultdict(list), sorted, sort with a key, and results gathered from several processes. */
module Listas {
  predicate Crescente(s: seq<nat>) { forall a, b :: 0 <= a < b < |s| ==> s[a] < s[b] }

  predicate SemRepeticao(s: seq<nat>) { forall a, b :: 0 <= a < b < |s| ==> s[a] != s[b] }

  /** i is in one of the lists. */
  predicate Listado(grupos: seq<seq<nat>>, i: nat) { exists a :: 0 <= a < |grupos| && i in grupos[a] }

  /** Lists ordered by their first elements. */
  ghost predicate PrimeirosCrescentes(grupos: seq<seq<nat>>) {
    (forall a :: 0 <= a < |grupos| ==> grupos[a] != []) &&
    forall a, b :: 0 <= a < b < |grupos| ==> grupos[a][0] < grupos[b][0]
  }

  /** An ascending list is determined by its elements. */
  lemma CrescentesIguais(s: seq<nat>, t: seq<nat>)
    requires Crescente(s) && Crescente(t) && forall i :: i in s <==> i in t
    ensures s == t
    decreases |s|
  {
    assert t != [] ==> t[0] in t;
    if s != [] {
      assert s[0] in t;
      assert t[0] in s;
      forall i: nat ensures i in s[1..] <==> i in t[1..] {
        assert i in s[1..] <==> i in s && i != s[0];
        assert i in t[1..] <==> i in t && i != t[0];
      }
      CrescentesIguais(s[1..], t[1..]);
    }
  }

  /** So are lists ordered by their first elements. */
  lemma PrimeirosIguais(x: seq<seq<nat>>, y: seq<seq<nat>>)
    requires PrimeirosCrescentes(x) && PrimeirosCrescentes(y) && forall g :: g in x <==> g in y
    ensures x == y
    decreases |x|
  {
    assert y != [] ==> y[0] in y;
    if x != [] {
      assert x[0] in y;
      assert y[0] in x;
      forall g ensures g in x[1..] <==> g in y[1..] {
        assert g in x[1..] <==> g in x && g != x[0];
        assert g in y[1..] <==> g in y && g != y[0];
      }
      PrimeirosIguais(x[1..], y[1..]);
    }
  }

  // ---------------------------------------------------------------- dictionaries of lists

  /** The values of a dictionary that collects the indices `ids` under the keys ch. */
  ghost predicate Particao<K>(gr: seq<seq<nat>>, ids: seq<nat>, ch: seq<K>) {
    && (forall a :: 0 <= a < |gr| ==> DaChave(gr[a], ids, ch))
    && (forall i :: i in ids ==> Listado(gr, i))
    && (forall a, b :: 0 <= a < |gr| && 0 <= b < |gr| && a != b ==> ChavesDiferentes(gr[a], gr[b], ch))
  }

  /** The list of one key: its indices, in the order in which they came. */
  ghost predicate DaChave<K>(g: seq<nat>, ids: seq<nat>, ch: seq<K>) {
    && g != [] && SemRepeticao(g) && g[0] < |ch| && (Crescente(ids) ==> Crescente(g))
    && forall i :: i in g ==> i in ids && i < |ch| && ch[i] == ch[g[0]]
  }

  ghost predicate ChavesDiferentes<K>(g: seq<nat>, h: seq<nat>, ch: seq<K>) {
    g != [] && h != [] && g[0] < |ch| && h[0] < |ch| && ch[g[0]] != ch[h[0]]
  }

  /** Where the dictionary keeps each key. */
  ghost predicate Indexado<K>(pos: map<K, nat>, gr: seq<seq<nat>>, ch: seq<K>) {
    && (forall k :: k in pos ==> pos[k] < |gr| && gr[pos[k]] != [] && gr[pos[k]][0] < |ch| && ch[gr[pos[k]][0]] == k)
    && (forall a :: 0 <= a < |gr| ==> NoDic(pos, gr, ch, a))
  }

  ghost predicate NoDic<K>(pos: map<K, nat>, gr: seq<seq<nat>>, ch: seq<K>, a: nat) {
    a < |gr| && gr[a] != [] && gr[a][0] < |ch| && ch[gr[a][0]] in pos && pos[ch[gr[a][0]]] == a
  }

  /** i enters a new entry. */
  lemma EntradaNova<K>(pos: map<K, nat>, gr: seq<seq<nat>>, ids: seq<nat>, ch: seq<K>, i: nat)
    requires Particao(gr, ids, ch) && Indexado(pos, gr, ch) && i < |ch| && i !in ids && ch[i] !in pos
    ensures Particao(gr + [[i]], ids + [i], ch) && Indexado(pos[ch[i] := |gr|], gr + [[i]], ch)
  {
    hide Listado, Indexado;
    var g, d := gr + [[i]], ids + [i];
    forall a | 0 <= a < |g| ensures DaChave(g[a], d, ch) {
      if a < |gr| { ChaveCresce(gr[a], ids, ch, i); }
    }
    ListadosComNova(gr, ids, i);
    IndexadoComNova(pos, gr, ch, i);
  }

  lemma ListadosComNova(gr: seq<seq<nat>>, ids: seq<nat>, i: nat)
    requires forall x :: x in ids ==> Listado(gr, x)
    ensures forall x :: x in ids + [i] ==> Listado(gr + [[i]], x)
  {
    var g := gr + [[i]];
    forall x | x in ids + [i] ensures Listado(g, x) {
      if x in ids {
        var a :| 0 <= a < |gr| && x in gr[a];
        assert x in g[a];
      } else {
        assert x in g[|gr|];
      }
    }
  }

  lemma IndexadoComNova<K>(pos: map<K, nat>, gr: seq<seq<nat>>, ch: seq<K>, i: nat)
    requires Indexado(pos, gr, ch) && i < |ch| && ch[i] !in pos
    requires forall a, b :: 0 <= a < |gr| && 0 <= b < |gr| && a != b ==> ChavesDiferentes(gr[a], gr[b], ch)
    ensures Indexado(pos[ch[i] := |gr|], gr + [[i]], ch)
    ensures var g := gr + [[i]]; forall a, b :: 0 <= a < |g| && 0 <= b < |g| && a != b ==> ChavesDiferentes(g[a], g[b], ch)
  {
    var g, p := gr + [[i]], pos[ch[i] := |gr|];
    forall a, b | 0 <= a < |g| && 0 <= b < |g| && a != b ensures ChavesDiferentes(g[a], g[b], ch) {
      assert NoDic(pos, gr, ch, if a < |gr| then a else b);
    }
    forall a | 0 <= a < |g| ensures NoDic(p, g, ch, a) {
      if a < |gr| { assert NoDic(pos, gr, ch, a); }
    }
  }

  lemma CrescenteMais(s: seq<nat>, x: nat)
    requires Crescente(s + [x])
    ensures Crescente(s) && forall y :: y in s ==> y < x
  {
    var d := s + [x];
    forall a, b | 0 <= a < b < |s| ensures s[a] < s[b] {
      assert d[a] < d[b];
    }
    forall y | y in s ensures y < x {
      var k :| 0 <= k < |s| && s[k] == y;
      assert d[k] < d[|s|];
    }
  }

  lemma MaisUm(g: seq<nat>, i: nat)
    requires i !in g
    ensures SemRepeticao(g) ==> SemRepeticao(g + [i])
    ensures Crescente(g) && (forall y :: y in g ==> y < i) ==> Crescente(g + [i])
  {
    assert forall a :: 0 <= a < |g| ==> g[a] in g;
  }

  lemma ChaveCresce<K>(g: seq<nat>, ids: seq<nat>, ch: seq<K>, i: nat)
    requires DaChave(g, ids, ch)
    ensures DaChave(g, ids + [i], ch)
  {
    if Crescente(ids + [i]) { CrescenteMais(ids, i); }
  }

  lemma ChaveRecebe<K>(g: seq<nat>, ids: seq<nat>, ch: seq<K>, i: nat)
    requires DaChave(g, ids, ch) && i < |ch| && i !in ids && ch[i] == ch[g[0]]
    ensures DaChave(g + [i], ids + [i], ch)
  {
    MaisUm(g, i);
    if Crescente(ids + [i]) { CrescenteMais(ids, i); }
  }

  /** i joins the entry of its key. */
  lemma EntradaConhecida<K>(pos: map<K, nat>, gr: seq<seq<nat>>, ids: seq<nat>, ch: seq<K>, i: nat, u: nat)
    requires Particao(gr, ids, ch) && Indexado(pos, gr, ch) && i < |ch| && i !in ids && ch[i] in pos && u == pos[ch[i]]
    ensures u < |gr| && Particao(gr[u := gr[u] + [i]], ids + [i], ch) && Indexado(pos, gr[u := gr[u] + [i]], ch)
  {
    hide Listado, NoDic;
    var g, d := gr[u := gr[u] + [i]], ids + [i];
    forall a | 0 <= a < |g| ensures DaChave(g[a], d, ch) {
      if a == u { ChaveRecebe(gr[u], ids, ch, i); } else { ChaveCresce(gr[a], ids, ch, i); }
    }
    ListadosMais(gr, ids, i, u);
    forall a, b | 0 <= a < |g| && 0 <= b < |g| && a != b ensures ChavesDiferentes(g[a], g[b], ch) {
      assert ChavesDiferentes(gr[a], gr[b], ch);
    }
    IndexadoMais(pos, gr, ch, i, u);
  }

  lemma ListadosMais(gr: seq<seq<nat>>, ids: seq<nat>, i: nat, u: nat)
    requires u < |gr| && forall x :: x in ids ==> Listado(gr, x)
    ensures forall x :: x in ids + [i] ==> Listado(gr[u := gr[u] + [i]], x)
  {
    var g := gr[u := gr[u] + [i]];
    forall x | x in ids + [i] ensures Listado(g, x) {
      if x in ids {
        var a :| 0 <= a < |gr| && x in gr[a];
        assert x in g[a];
      } else {
        assert g[u][|gr[u]|] == i && i in g[u];
      }
    }
  }

  lemma IndexadoMais<K>(pos: map<K, nat>, gr: seq<seq<nat>>, ch: seq<K>, i: nat, u: nat)
    requires Indexado(pos, gr, ch) && u < |gr|
    ensures Indexado(pos, gr[u := gr[u] + [i]], ch)
  {
    var g := gr[u := gr[u] + [i]];
    forall a | 0 <= a < |g| ensures NoDic(pos, g, ch, a) {
      assert NoDic(pos, gr, ch, a);
    }
  }

  /** The dictionary and where it keeps each key, once `vistos` went in. */
  ghost predicate Dicionario<K>(pos: map<K, nat>, gr: seq<seq<nat>>, vistos: seq<nat>, ch: seq<K>) {
    Particao(gr, vistos, ch) && Indexado(pos, gr, ch)
  }

  /** gr[ch[i]].append(i). */
  method Acrescentar<K(==)>(pos: map<K, nat>, gr: seq<seq<nat>>, ghost vistos: seq<nat>, ch: seq<K>, i: nat)
    returns (p: map<K, nat>, g: seq<seq<nat>>)
    requires Dicionario(pos, gr, vistos, ch) && i < |ch| && i !in vistos
    ensures Dicionario(p, g, vistos + [i], ch)
  {
    if ch[i] in pos {
      var u := pos[ch[i]];
      EntradaConhecida(pos, gr, vistos, ch, i, u);
      p, g := pos, gr[u := gr[u] + [i]];
    } else {
      EntradaNova(pos, gr, vistos, ch, i);
      p, g := pos[ch[i] := |gr|], gr + [[i]];
    }
  }

  /** gr = defaultdict(list); for i in ids: gr[ch[i]].append(i); gr.values(). */
  method Agrupar<K(==)>(ids: seq<nat>, ch: seq<K>) returns (gr: seq<seq<nat>>)
    requires SemRepeticao(ids) && forall i :: i in ids ==> i < |ch|
    ensures Particao(gr, ids, ch)
  {
    var pos: map<K, nat> := map[];
    gr := [];
    for n := 0 to |ids|
      invariant Dicionario(pos, gr, ids[..n], ch)
    {
      assert ids[n] in ids && ids[n] !in ids[..n] && ids[..n + 1] == ids[..n] + [ids[n]];
      pos, gr := Acrescentar(pos, gr, ids[..n], ch, ids[n]);
    }
    assert ids[..|ids|] == ids;
  }

  /** The lists of a partition are disjoint. */
  lemma Disjuntas<K>(gr: seq<seq<nat>>, ids: seq<nat>, ch: seq<K>, a: nat, b: nat, i: nat)
    requires Particao(gr, ids, ch) && a < |gr| && b < |gr|
    ensures i in gr[a] && i in gr[b] ==> a == b
  {
    assert DaChave(gr[a], ids, ch) && DaChave(gr[b], ids, ch);
    assert a != b ==> ChavesDiferentes(gr[a], gr[b], ch);
  }

  // ---------------------------------------------------------------- results in any order, and sorting

  /** Two lists of the same files, none twice. */
  ghost predicate Permutacao(s: seq<nat>, t: seq<nat>) {
    SemRepeticao(s) && forall i: nat :: i in s <==> i in t
  }

  /** Spreads the work: one result per file, in whatever order they finish. */
  method Executar(ids: seq<nat>) returns (ordem: seq<nat>)
    ensures Permutacao(ordem, ids)
  {
    ordem := [];
    var falta := set i | i in ids;
    while falta != {}
      invariant SemRepeticao(ordem) && forall i: nat :: i in ids <==> i in falta || i in ordem
      invariant forall i: nat :: i in falta ==> i !in ordem
    {
      var i :| i in falta;
      MaisUm(ordem, i);
      falta := falta - {i};
      ordem := ordem + [i];
    }
  }

  function Inserir(s: seq<nat>, x: nat): seq<nat> {
    if s == [] || x < s[0] then [x] + s else [s[0]] + Inserir(s[1..], x)
  }

  lemma {:induction false} InserirOrdena(s: seq<nat>, x: nat)
    requires Crescente(s) && x !in s
    ensures Crescente(Inserir(s, x)) && |Inserir(s, x)| == |s| + 1
    ensures forall i: nat :: i in Inserir(s, x) <==> i in s || i == x
  {
    if s == [] || x < s[0] {
      CabecaMenor(x, s);
    } else {
      assert s == [s[0]] + s[1..];
      CaudaMaior(s);
      InserirOrdena(s[1..], x);
      CabecaMenor(s[0], Inserir(s[1..], x));
    }
  }

  lemma CaudaMaior(s: seq<nat>)
    requires s != [] && Crescente(s)
    ensures Crescente(s[1..]) && forall i: nat :: i in s[1..] ==> s[0] < i
  {
  }

  lemma CabecaMenor(x: nat, s: seq<nat>)
    requires Crescente(s) && (s != [] ==> x < s[0] || forall i :: i in s ==> x < i)
    ensures Crescente([x] + s)
  {
    assert s != [] ==> s[0] in s;
  }

  /** sorted(ids). */
  method Ordenar(ids: seq<nat>) returns (s: seq<nat>)
    requires SemRepeticao(ids)
    ensures Crescente(s) && |s| == |ids| && forall i: nat :: i in s <==> i in ids
  {
    s := [];
    var n := 0;
    while n < |ids|
      invariant 0 <= n <= |ids| && Crescente(s) && |s| == n && forall i: nat :: i in s <==> i in ids[..n]
    {
      InserirOrdena(s, ids[n]);
      s := Inserir(s, ids[n]);
      n := n + 1;
    }
    assert ids[..n] == ids;
  }

  lemma JuntarDisjuntos(s: seq<nat>, g: seq<nat>)
    requires SemRepeticao(s) && SemRepeticao(g) && forall i :: i in s ==> i !in g
    ensures SemRepeticao(s + g)
  {
    var t := s + g;
    forall a, b | 0 <= a < b < |t| ensures t[a] != t[b] {
      assert a < |s| ==> t[a] in s;
      assert b >= |s| ==> t[b] in g;
    }
  }

  /** Files with the same key are in the same list. */
  lemma MesmaLista<K>(gr: seq<seq<nat>>, ids: seq<nat>, ch: seq<K>, i: nat, j: nat) returns (b: nat)
    requires Particao(gr, ids, ch) && i in ids && j in ids && i < |ch| && j < |ch| && ch[i] == ch[j]
    ensures b < |gr| && i in gr[b] && j in gr[b]
  {
    assert Listado(gr, i) && Listado(gr, j);
    b :| 0 <= b < |gr| && i in gr[b];
    var c :| 0 <= c < |gr| && j in gr[c];
    assert DaChave(gr[b], ids, ch) && DaChave(gr[c], ids, ch);
    assert b != c ==> ChavesDiferentes(gr[b], gr[c], ch);
  }

  lemma DoisNaLista(g: seq<nat>, i: nat, j: nat)
    requires i in g && j in g && i != j
    ensures |g| >= 2
  {
    var a :| 0 <= a < |g| && g[a] == i;
    var b :| 0 <= b < |g| && g[b] == j;
  }

  ghost predicate PrimeirosDiferentes(gs: seq<seq<nat>>) {
    && (forall a :: 0 <= a < |gs| ==> gs[a] != [])
    && forall a, b :: 0 <= a < |gs| && 0 <= b < |gs| && a != b ==> gs[a][0] != gs[b][0]
  }

  lemma ListadoMais(gs: seq<seq<nat>>, s: seq<nat>, i: nat)
    ensures Listado(gs + [s], i) <==> Listado(gs, i) || i in s
  {
    var t := gs + [s];
    if Listado(gs, i) {
      var a :| 0 <= a < |gs| && i in gs[a];
      assert i in t[a];
    }
    if i in s { assert i in t[|gs|]; }
  }

  lemma ListadoSoma(x: seq<seq<nat>>, y: seq<seq<nat>>, i: nat)
    ensures Listado(x + y, i) <==> Listado(x, i) || Listado(y, i)
  {
    if Listado(x, i) {
      var a :| 0 <= a < |x| && i in x[a];
      assert i in (x + y)[a];
    }
    if Listado(y, i) {
      var a :| 0 <= a < |y| && i in y[a];
      assert i in (x + y)[|x| + a];
    }
  }

  function InserirGrupo(s: seq<seq<nat>>, g: seq<nat>): seq<seq<nat>>
    requires g != [] && forall a :: 0 <= a < |s| ==> s[a] != []
  {
    if s == [] || g[0] < s[0][0] then [g] + s else [s[0]] + InserirGrupo(s[1..], g)
  }

  lemma {:induction false} InserirGrupoOrdena(s: seq<seq<nat>>, g: seq<nat>)
    requires PrimeirosCrescentes(s) && g != [] && forall a :: 0 <= a < |s| ==> s[a][0] != g[0]
    ensures PrimeirosCrescentes(InserirGrupo(s, g))
    ensures forall h :: h in InserirGrupo(s, g) <==> h in s || h == g
  {
    if s == [] || g[0] < s[0][0] {
      GrupoNaFrente(g, s);
    } else {
      assert s == [s[0]] + s[1..];
      InserirGrupoOrdena(s[1..], g);
      assert forall h :: h in s[1..] ==> h != [] && s[0][0] < h[0];
      GrupoNaFrente(s[0], InserirGrupo(s[1..], g));
    }
  }

  lemma GrupoNaFrente(g: seq<nat>, s: seq<seq<nat>>)
    requires PrimeirosCrescentes(s) && g != []
    requires s != [] ==> g[0] < s[0][0] || forall h :: h in s ==> h != [] && g[0] < h[0]
    ensures PrimeirosCrescentes([g] + s)
  {
    assert s != [] ==> s[0] in s;
  }

  /** grupos.sort(key=lambda g: g[1][0]). */
  method OrdenarGrupos(gs: seq<seq<nat>>) returns (s: seq<seq<nat>>)
    requires PrimeirosDiferentes(gs)
    ensures PrimeirosCrescentes(s) && forall g :: g in s <==> g in gs
  {
    s := [];
    var n := 0;
    while n < |gs|
      invariant 0 <= n <= |gs| && PrimeirosCrescentes(s) && forall g :: g in s <==> g in gs[..n]
    {
      forall a | 0 <= a < |s| ensures s[a][0] != gs[n][0] {
        assert s[a] in gs[..n];
      }
      InserirGrupoOrdena(s, gs[n]);
      s := InserirGrupo(s, gs[n]);
      n := n + 1;
    }
    assert gs[..n] == gs;
  }

  predicate NaoPrimeiro(grupos: seq<seq<nat>>, i: nat) {
    exists a :: 0 <= a < |grupos| && grupos[a] != [] && i in grupos[a][1..]
  }

  /** Every member of a group but its first is marked redundant. */
  method Marcar(n: nat, grupos: seq<seq<nat>>) returns (red: seq<bool>)
    requires forall a, i :: 0 <= a < |grupos| && i in grupos[a] ==> i < n
    requires forall a :: 0 <= a < |grupos| ==> grupos[a] != []
    ensures |red| == n && forall i :: 0 <= i < n ==> (red[i] <==> NaoPrimeiro(grupos, i))
  {
    red := seq(n, _ => false);
    var a := 0;
    while a < |grupos|
      invariant 0 <= a <= |grupos| && |red| == n
      invariant forall i :: 0 <= i < n ==> (red[i] <==> NaoPrimeiro(grupos[..a], i))
    {
      ghost var antes := red;
      var g := grupos[a];
      var k := 1;
      while k < |g|
        invariant 1 <= k <= |g| && |red| == n
        invariant forall i :: 0 <= i < n ==> (red[i] <==> antes[i] || i in g[1..k])
      {
        assert g[k] in g && g[1..k + 1] == g[1..k] + [g[k]];
        red := red[g[k] := true];
        k := k + 1;
      }
      assert g[1..k] == g[1..];
      forall i | 0 <= i < n ensures NaoPrimeiro(grupos[..a + 1], i) <==> NaoPrimeiro(grupos[..a], i) || i in g[1..] {
        NaoPrimeiroMais(grupos[..a], g, i);
        assert grupos[..a + 1] == grupos[..a] + [g];
      }
      a := a + 1;
    }
    assert grupos[..a] == grupos;
  }

  lemma NaoPrimeiroMais(gs: seq<seq<nat>>, g: seq<nat>, i: nat)
    requires g != []
    ensures NaoPrimeiro(gs + [g], i) <==> NaoPrimeiro(gs, i) || i in g[1..]
  {
    var t := gs + [g];
    if NaoPrimeiro(gs, i) {
      var a :| 0 <= a < |gs| && gs[a] != [] && i in gs[a][1..];
      assert t[a] == gs[a];
    }
    if i in g[1..] { assert t[|gs|] == g; }
  }
}
