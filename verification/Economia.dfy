/** The scaling model of bench/economia.py: efficiency read off a measured table, the number
    of cores that a rate of work needs, found by iteration, and the Pareto marking of
    configurations.  Arithmetic is exact. */
module Economia {
  /** A measured point: n cores work at efficiency e. */
  datatype Ponto = Ponto(n: real, e: real)

  /** Increasing numbers of cores at positive, non-increasing efficiencies of at most one. */
  ghost predicate Tabela(tab: seq<Ponto>) {
    && tab != []
    && (forall i, j :: 0 <= i < j < |tab| ==> tab[i].n < tab[j].n && tab[j].e <= tab[i].e)
    && forall i :: 0 <= i < |tab| ==> 0.0 < tab[i].e <= 1.0
  }

  /** The straight line between two points. */
  function Interpolar(p: Ponto, q: Ponto, n: real): real
    requires p.n < q.n
  {
    p.e + (q.e - p.e) * (n - p.n) / (q.n - p.n)
  }

  /** The scan of eficiencia from segment i on. */
  function Varrer(tab: seq<Ponto>, n: real, i: nat): real
    requires Tabela(tab) && i < |tab|
    decreases |tab| - i
  {
    if i + 1 == |tab| then tab[i].e
    else if n <= tab[i + 1].n then Interpolar(tab[i], tab[i + 1], n)
    else Varrer(tab, n, i + 1)
  }

  /** eficiencia. */
  function Eficiencia(tab: seq<Ponto>, n: real): real
    requires Tabela(tab)
  {
    if n <= tab[0].n then tab[0].e else Varrer(tab, n, 0)
  }

  function Ultima(tab: seq<Ponto>): (e: real)
    requires Tabela(tab)
    ensures 0.0 < e <= 1.0
  {
    tab[|tab| - 1].e
  }

  // ---------------------------------------------------------------- efficiency falls with n

  lemma Quociente(a: real, b: real, w: real)
    requires 0.0 < w && a <= b
    ensures a / w <= b / w
  {
    var x, y := a / w, b / w;
    assert x * w == a && y * w == b;
    assert x > y ==> (x - y) * w > 0.0;
  }

  lemma Produto(a: real, x: real, y: real)
    requires a <= 0.0 && x <= y
    ensures a * y <= a * x
  {
    assert (-a) * (y - x) >= 0.0;
    assert (-a) * (y - x) == a * x - a * y;
  }

  lemma InterpolarDecresce(p: Ponto, q: Ponto, n: real, m: real)
    requires p.n < q.n && q.e <= p.e && n <= m
    ensures Interpolar(p, q, m) <= Interpolar(p, q, n)
  {
    Produto(q.e - p.e, n - p.n, m - p.n);
    Quociente((q.e - p.e) * (m - p.n), (q.e - p.e) * (n - p.n), q.n - p.n);
  }

  lemma InterpolarNosExtremos(p: Ponto, q: Ponto)
    requires p.n < q.n
    ensures Interpolar(p, q, p.n) == p.e && Interpolar(p, q, q.n) == q.e
  {
    var w := q.n - p.n;
    assert (q.e - p.e) * 0.0 / w == 0.0;
    assert (q.e - p.e) * w / w == q.e - p.e;
  }

  lemma {:induction false} VarrerLimites(tab: seq<Ponto>, n: real, i: nat)
    requires Tabela(tab) && i < |tab| && tab[i].n < n
    ensures Ultima(tab) <= Varrer(tab, n, i) <= tab[i].e
    decreases |tab| - i
  {
    if i + 1 < |tab| {
      if n <= tab[i + 1].n {
        InterpolarNosExtremos(tab[i], tab[i + 1]);
        InterpolarDecresce(tab[i], tab[i + 1], tab[i].n, n);
        InterpolarDecresce(tab[i], tab[i + 1], n, tab[i + 1].n);
      } else {
        VarrerLimites(tab, n, i + 1);
      }
    }
  }

  lemma {:induction false} VarrerDecresce(tab: seq<Ponto>, n: real, m: real, i: nat)
    requires Tabela(tab) && i < |tab| && tab[i].n < n <= m
    ensures Varrer(tab, m, i) <= Varrer(tab, n, i)
    decreases |tab| - i
  {
    if i + 1 < |tab| {
      if m <= tab[i + 1].n {
        InterpolarDecresce(tab[i], tab[i + 1], n, m);
      } else if n <= tab[i + 1].n {
        InterpolarNosExtremos(tab[i], tab[i + 1]);
        InterpolarDecresce(tab[i], tab[i + 1], n, tab[i + 1].n);
        VarrerLimites(tab, m, i + 1);
      } else {
        VarrerDecresce(tab, n, m, i + 1);
      }
    }
  }

  /** Efficiency never rises with the number of cores, and lies between the last and the
      first measured value. */
  lemma EficienciaDecresce(tab: seq<Ponto>, n: real, m: real)
    requires Tabela(tab) && n <= m
    ensures Eficiencia(tab, m) <= Eficiencia(tab, n)
    ensures 0.0 < Ultima(tab) <= Eficiencia(tab, n) <= tab[0].e <= 1.0
  {
    if tab[0].n < m { VarrerLimites(tab, m, 0); }
    if tab[0].n < n {
      VarrerLimites(tab, n, 0);
      VarrerDecresce(tab, n, m, 0);
    }
  }

  lemma {:induction false} VarrerAte(tab: seq<Ponto>, n: real, j: nat, i: nat)
    requires Tabela(tab) && j <= i && i + 1 < |tab| && tab[i].n < n <= tab[i + 1].n
    ensures Varrer(tab, n, j) == Interpolar(tab[i], tab[i + 1], n)
    decreases i - j
  {
    if j < i { VarrerAte(tab, n, j + 1, i); }
  }

  lemma {:induction false} VarrerTudo(tab: seq<Ponto>, n: real, j: nat)
    requires Tabela(tab) && j < |tab| && tab[|tab| - 1].n < n
    ensures Varrer(tab, n, j) == Ultima(tab)
    decreases |tab| - j
  {
    if j + 1 < |tab| { VarrerTudo(tab, n, j + 1); }
  }

  lemma MediaPonderada(p: Ponto, q: Ponto, n: real)
    requires p.n < q.n
    ensures Interpolar(p, q, n) * (q.n - p.n) == p.e * (q.n - n) + q.e * (n - p.n)
  {
    var w, x := q.n - p.n, (q.e - p.e) * (n - p.n) / (q.n - p.n);
    assert x * w == (q.e - p.e) * (n - p.n);
    assert p.e * w == p.e * (q.n - n) + p.e * (n - p.n);
  }

  /** Between two measured points efficiency is their mean, each weighted by the distance to the
      other: halfway it is the mean of both. */
  lemma EficienciaEntre(tab: seq<Ponto>, i: nat, n: real)
    requires Tabela(tab) && i + 1 < |tab| && tab[i].n <= n <= tab[i + 1].n
    ensures Eficiencia(tab, n) * (tab[i + 1].n - tab[i].n) ==
      tab[i].e * (tab[i + 1].n - n) + tab[i + 1].e * (n - tab[i].n)
  {
    hide Interpolar;
    MediaPonderada(tab[i], tab[i + 1], n);
    if tab[i].n < n {
      VarrerAte(tab, n, 0, i);
    } else if i > 0 {
      VarrerAte(tab, n, 0, i - 1);
      InterpolarNosExtremos(tab[i - 1], tab[i]);
    }
  }

  /** At a measured point it is the measured value, and beyond the first and the last one that
      of the first and the last. */
  lemma EficienciaMedida(tab: seq<Ponto>, n: real)
    requires Tabela(tab)
    ensures forall i :: 0 <= i < |tab| ==> Eficiencia(tab, tab[i].n) == tab[i].e
    ensures n <= tab[0].n ==> Eficiencia(tab, n) == tab[0].e
    ensures tab[|tab| - 1].n <= n ==> Eficiencia(tab, n) == tab[|tab| - 1].e
  {
    hide Interpolar;
    forall i | 0 <= i < |tab| ensures Eficiencia(tab, tab[i].n) == tab[i].e {
      if i > 0 {
        VarrerAte(tab, tab[i].n, 0, i - 1);
        InterpolarNosExtremos(tab[i - 1], tab[i]);
      }
    }
    if tab[|tab| - 1].n < n { VarrerTudo(tab, n, 0); }
  }

  // ---------------------------------------------------------------- the iteration

  /** The cores that carry the load rho at efficiency e, one core carrying tf: theta * fator
      in the source. */
  function Cores(rho: real, tf: real, e: real): real
    requires 0.0 < tf && 0.0 < e
  {
    assert 0.0 < tf * e;
    rho / (tf * e)
  }

  /** The load that n cores carry at efficiency e. */
  function Carga(tf: real, e: real, n: real): real { tf * e * n }

  lemma CoresCarregam(rho: real, tf: real, e: real)
    requires 0.0 < tf && 0.0 < e
    ensures Carga(tf, e, Cores(rho, tf, e)) == rho
  {
    assert 0.0 < tf * e;
  }

  /** The cores needed at full efficiency. */
  function Ideal(rho: real, tf: real): (n: real)
    requires 0.0 < tf
    ensures n == Cores(rho, tf, 1.0)
  {
    assert tf * 1.0 == tf;
    rho / tf
  }

  /** Less efficiency takes more cores. */
  lemma CoresDecresce(rho: real, tf: real, e: real, f: real)
    requires 0.0 < tf && 0.0 < e <= f && 0.0 <= rho
    ensures 0.0 <= Cores(rho, tf, f) <= Cores(rho, tf, e)
  {
    Escala(tf, e, f);
    Divisor(rho, tf * e, tf * f);
  }

  /** Dividing by less gives more. */
  lemma Divisor(a: real, x: real, y: real)
    requires 0.0 <= a && 0.0 < x <= y
    ensures 0.0 <= a / y <= a / x
  {
    var q, r := a / y, a / x;
    assert q * y == a && r * x == a;
    assert 0.0 <= q;
    assert q * (y - x) >= 0.0;
    assert q * (y - x) == q * y - q * x;
    assert q > r ==> (q - r) * x > 0.0;
  }

  lemma Escala(tf: real, x: real, y: real)
    requires 0.0 < tf && 0.0 < x <= y
    ensures 0.0 < tf * x <= tf * y
  {
    assert tf * (y - x) >= 0.0;
    assert tf * (y - x) == tf * y - tf * x;
  }

  /** What nucleos divides by is positive, and the load is not negative. */
  ghost predicate Demanda(rho: real, tf: real, tab: seq<Ponto>) {
    Tabela(tab) && 0.0 < tf && 0.0 <= rho
  }

  /** One step: the cores needed at the efficiency of n cores. */
  function Proximo(rho: real, tf: real, tab: seq<Ponto>, n: real): real
    requires Demanda(rho, tf, tab)
  {
    EficienciaDecresce(tab, n, n);
    Cores(rho, tf, Eficiencia(tab, n))
  }

  /** The cores after k steps, from the ideal number on. */
  function Iterado(rho: real, tf: real, tab: seq<Ponto>, k: nat): real
    requires Demanda(rho, tf, tab)
  {
    if k == 0 then Ideal(rho, tf) else Proximo(rho, tf, tab, Iterado(rho, tf, tab, k - 1))
  }

  /** More cores, less efficiency, still more cores. */
  lemma ProximoCresce(rho: real, tf: real, tab: seq<Ponto>, n: real, m: real)
    requires Demanda(rho, tf, tab) && n <= m
    ensures Proximo(rho, tf, tab, n) <= Proximo(rho, tf, tab, m)
  {
    EficienciaDecresce(tab, n, m);
    EficienciaDecresce(tab, m, m);
    CoresDecresce(rho, tf, Eficiencia(tab, m), Eficiencia(tab, n));
  }

  /** Every step lies between the ideal number of cores and that at the worst efficiency. */
  lemma ProximoLimites(rho: real, tf: real, tab: seq<Ponto>, n: real)
    requires Demanda(rho, tf, tab)
    ensures Ideal(rho, tf) <= Proximo(rho, tf, tab, n) <= Cores(rho, tf, Ultima(tab))
  {
    EficienciaDecresce(tab, n, n);
    CoresDecresce(rho, tf, Ultima(tab), Eficiencia(tab, n));
    CoresDecresce(rho, tf, Eficiencia(tab, n), 1.0);
  }

  /** No iterate is below the one before. */
  lemma {:induction false} IteradoCresce(rho: real, tf: real, tab: seq<Ponto>, k: nat)
    requires Demanda(rho, tf, tab)
    ensures Iterado(rho, tf, tab, k) <= Iterado(rho, tf, tab, k + 1)
  {
    if k == 0 {
      ProximoLimites(rho, tf, tab, Iterado(rho, tf, tab, 0));
    } else {
      IteradoCresce(rho, tf, tab, k - 1);
      ProximoCresce(rho, tf, tab, Iterado(rho, tf, tab, k - 1), Iterado(rho, tf, tab, k));
    }
  }

  /** No iterate is above a fixed point. */
  lemma {:induction false} IteradoAbaixo(rho: real, tf: real, tab: seq<Ponto>, k: nat, fixo: real)
    requires Demanda(rho, tf, tab) && Proximo(rho, tf, tab, fixo) == fixo
    ensures Iterado(rho, tf, tab, k) <= fixo
  {
    if k == 0 {
      ProximoLimites(rho, tf, tab, fixo);
    } else {
      IteradoAbaixo(rho, tf, tab, k - 1, fixo);
      ProximoCresce(rho, tf, tab, Iterado(rho, tf, tab, k - 1), fixo);
    }
  }

  /** Every iterate stays within the ideal and the worst-case number of cores. */
  lemma IteradoLimites(rho: real, tf: real, tab: seq<Ponto>, k: nat)
    requires Demanda(rho, tf, tab)
    ensures Ideal(rho, tf) <= Iterado(rho, tf, tab, k) <= Cores(rho, tf, Ultima(tab))
  {
    if k == 0 {
      CoresDecresce(rho, tf, Ultima(tab), 1.0);
    } else {
      ProximoLimites(rho, tf, tab, Iterado(rho, tf, tab, k - 1));
    }
  }

  /** Iterates meet a fixed point from below: once two agree, the value is the least one. */
  lemma ParadoNoMenor(rho: real, tf: real, tab: seq<Ponto>, k: nat, fixo: real)
    requires Demanda(rho, tf, tab)
    requires Iterado(rho, tf, tab, k + 1) == Iterado(rho, tf, tab, k)
    ensures Proximo(rho, tf, tab, Iterado(rho, tf, tab, k)) == Iterado(rho, tf, tab, k)
    ensures Proximo(rho, tf, tab, fixo) == fixo ==> Iterado(rho, tf, tab, k) <= fixo
  {
    if Proximo(rho, tf, tab, fixo) == fixo { IteradoAbaixo(rho, tf, tab, k, fixo); }
  }

  lemma IteradoMais(rho: real, tf: real, tab: seq<Ponto>, k: nat)
    requires Demanda(rho, tf, tab)
    ensures Iterado(rho, tf, tab, 0) == Ideal(rho, tf)
    ensures var n := Iterado(rho, tf, tab, k); var e := Eficiencia(tab, n);
      0.0 < e && Iterado(rho, tf, tab, k + 1) == Cores(rho, tf, e) && Carga(tf, e, Cores(rho, tf, e)) == rho
  {
    var n := Iterado(rho, tf, tab, k);
    EficienciaDecresce(tab, n, n);
    CoresCarregam(rho, tf, Eficiencia(tab, n));
  }

  const TOLERANCIA: real := 0.000000001
  const PASSOS: nat := 200

  /** Step i moved by the tolerance or more. */
  predicate Andou(rho: real, tf: real, tab: seq<Ponto>, i: nat)
    requires Demanda(rho, tf, tab)
  {
    Iterado(rho, tf, tab, i + 1) - Iterado(rho, tf, tab, i) >= 0.000000001
  }

  /** nucleos: between 1 and 200 steps.  The cores and the efficiency returned carry the load
      exactly; the cores are at least the ideal number, and no more than any fixed point and
      than the number at the worst efficiency; every step but the last moved them by the
      tolerance or more, and unless all steps were used the last one moved them by less. */
  method Nucleos(rho: real, tf: real, tab: seq<Ponto>) returns (n: real, e: real, ghost k: nat)
    requires Demanda(rho, tf, tab)
    ensures 1 <= k <= 200 && n == Iterado(rho, tf, tab, k)
    ensures e == Eficiencia(tab, Iterado(rho, tf, tab, k - 1)) && Carga(tf, e, n) == rho
    ensures Ideal(rho, tf) <= n <= Cores(rho, tf, Ultima(tab))
    ensures forall fixo {:trigger Proximo(rho, tf, tab, fixo)} :: Proximo(rho, tf, tab, fixo) == fixo ==> n <= fixo
    ensures k < 200 ==> 0.0 <= n - Iterado(rho, tf, tab, k - 1) < 0.000000001
    ensures forall i :: 0 <= i < k - 1 ==> Andou(rho, tf, tab, i)
  {
    hide Cores, Carga, Eficiencia, Ideal, Iterado, Proximo, Tabela;
    IteradoMais(rho, tf, tab, 0);
    n := Ideal(rho, tf);
    e := Eficiencia(tab, n);
    k := 0;
    var passo := 0;
    while passo < PASSOS
      invariant 0 <= passo <= PASSOS && k == passo && n == Iterado(rho, tf, tab, k)
      invariant k > 0 ==> e == Eficiencia(tab, Iterado(rho, tf, tab, k - 1)) && Carga(tf, e, n) == rho
      invariant forall i :: 0 <= i < k ==> Andou(rho, tf, tab, i)
    {
      e := Eficiencia(tab, n);
      IteradoCresce(rho, tf, tab, k);
      IteradoMais(rho, tf, tab, k);
      var novo := Cores(rho, tf, e);
      k := k + 1;
      passo := passo + 1;
      if Abs(novo - n) < TOLERANCIA {
        n := novo;
        break;
      }
      n := novo;
    }
    IteradoLimites(rho, tf, tab, k);
    forall fixo | Proximo(rho, tf, tab, fixo) == fixo ensures n <= fixo {
      IteradoAbaixo(rho, tf, tab, k, fixo);
    }
  }

  function Abs(x: real): real { if x < 0.0 then -x else x }

  // ---------------------------------------------------------------- Pareto marking

  /** A configuration, the fraction it saves and a throughput. */
  datatype Registro = Registro(config: string, economia: real, vazao: real)

  /** At least as good in both respects. */
  predicate NaoPior(o: Registro, r: Registro) { o.economia >= r.economia && o.vazao >= r.vazao }

  predicate Domina(o: Registro, r: Registro) {
    NaoPior(o, r) && (o.economia > r.economia || o.vazao > r.vazao)
  }

  /** One dominates the other exactly when it is no worse and the other is. */
  lemma DominaSeMelhor(o: Registro, r: Registro)
    ensures Domina(o, r) <==> o.economia >= r.economia && o.vazao >= r.vazao && !(r.economia >= o.economia && r.vazao >= o.vazao)
  {
  }

  predicate Dominado(recs: seq<Registro>, i: nat)
    requires i < |recs|
  {
    exists j :: 0 <= j < |recs| && Domina(recs[j], recs[i])
  }

  /** The inner loop: a record does not compete with itself, though it could not win. */
  method ProcurarDominante(recs: seq<Registro>, i: nat) returns (dominado: bool)
    requires i < |recs|
    ensures dominado == Dominado(recs, i)
  {
    dominado := false;
    var j := 0;
    while j < |recs|
      invariant 0 <= j <= |recs| && !dominado
      invariant forall k :: 0 <= k < j ==> !Domina(recs[k], recs[i])
    {
      if j != i && recs[j].economia >= recs[i].economia && recs[j].vazao >= recs[i].vazao {
        if recs[j].economia > recs[i].economia || recs[j].vazao > recs[i].vazao {
          assert Domina(recs[j], recs[i]);
          dominado := true;
          break;
        }
      }
      j := j + 1;
    }
  }

  predicate Repetida(recs: seq<Registro>, i: nat)
    requires i < |recs|
  {
    exists j :: i < j < |recs| && recs[j].config == recs[i].config
  }

  /** The marks after n records: every name met is marked, as its last record deserves, and no
      other. */
  ghost predicate Marcas(recs: seq<Registro>, n: nat, marcados: map<string, bool>)
    requires n <= |recs|
  {
    && (forall i :: 0 <= i < n ==> Marca(recs, i, marcados))
    && forall c :: c in marcados ==> DeAlgum(recs, n, c)
  }

  ghost predicate Marca(recs: seq<Registro>, i: nat, marcados: map<string, bool>)
    requires i < |recs|
  {
    recs[i].config in marcados && (!Repetida(recs, i) ==> (marcados[recs[i].config] <==> !Dominado(recs, i)))
  }

  predicate DeAlgum(recs: seq<Registro>, n: nat, c: string)
    requires n <= |recs|
  {
    exists i :: 0 <= i < n && recs[i].config == c
  }

  lemma MarcarMais(recs: seq<Registro>, n: nat, marcados: map<string, bool>, m: map<string, bool>)
    requires n < |recs| && Marcas(recs, n, marcados) && m == marcados[recs[n].config := !Dominado(recs, n)]
    ensures Marcas(recs, n + 1, m)
  {
    forall i | 0 <= i < n + 1 ensures Marca(recs, i, m) {
      if i < n {
        assert Marca(recs, i, marcados);
        assert recs[n].config == recs[i].config ==> Repetida(recs, i);
      }
    }
    forall c | c in m ensures DeAlgum(recs, n + 1, c) {
      if c in marcados {
        assert DeAlgum(recs, n, c);
        var i :| 0 <= i < n && recs[i].config == c;
        assert recs[i].config == c;
      } else {
        assert recs[n].config == c;
      }
    }
  }

  /** pareto: a configuration is marked exactly when its record, the last one of that name, is
      not dominated. */
  method Pareto(recs: seq<Registro>) returns (marcados: map<string, bool>)
    ensures Marcas(recs, |recs|, marcados)
  {
    marcados := map[];
    var n := 0;
    while n < |recs|
      invariant 0 <= n <= |recs| && Marcas(recs, n, marcados)
    {
      var d := ProcurarDominante(recs, n);
      MarcarMais(recs, n, marcados, marcados[recs[n].config := !d]);
      marcados := marcados[recs[n].config := !d];
      n := n + 1;
    }
  }

  /** The best, by the sum of both measures, of the records at least as good as record i. */
  lemma MaiorSoma(recs: seq<Registro>, i: nat) returns (m: nat)
    requires i < |recs|
    ensures m < |recs| && NaoPior(recs[m], recs[i])
    ensures forall j :: 0 <= j < |recs| && NaoPior(recs[j], recs[i]) ==>
      recs[j].economia + recs[j].vazao <= recs[m].economia + recs[m].vazao
  {
    m := i;
    var n := 0;
    while n < |recs|
      invariant 0 <= n <= |recs| && m < |recs| && NaoPior(recs[m], recs[i])
      invariant forall j :: 0 <= j < n && NaoPior(recs[j], recs[i]) ==>
        recs[j].economia + recs[j].vazao <= recs[m].economia + recs[m].vazao
    {
      if NaoPior(recs[n], recs[i]) && recs[n].economia + recs[n].vazao > recs[m].economia + recs[m].vazao {
        m := n;
      }
      n := n + 1;
    }
  }

  /** The marked records suffice: every record has an undominated one at least as good. */
  lemma FronteiraCobre(recs: seq<Registro>, i: nat) returns (m: nat)
    requires i < |recs|
    ensures m < |recs| && !Dominado(recs, m) && NaoPior(recs[m], recs[i])
    ensures Dominado(recs, i) ==> Domina(recs[m], recs[i])
  {
    m := MaiorSoma(recs, i);
    if Dominado(recs, m) {
      var j :| 0 <= j < |recs| && Domina(recs[j], recs[m]);
      assert NaoPior(recs[j], recs[i]);
    }
    if Dominado(recs, i) {
      var j :| 0 <= j < |recs| && Domina(recs[j], recs[i]);
      assert NaoPior(recs[j], recs[i]);
    }
  }
}
