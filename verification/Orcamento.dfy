/** The admission budget of src/budget.rs as a transition system.  Any number of tasks run
    `acquire` and later drop their slot; every semaphore and atomic operation is one step,
    and steps of different tasks interleave freely.  A wait may also end by timeout, by a
    closed semaphore or by cancellation of the future. */
module Orcamento {
  import opened Base

  const TWO64: nat := 0x1_0000_0000_0000_0000

  /** Budget::new, and the windows that requests share with their capacities. */
  datatype Ambiente = Ambiente(units: nat, bloco: nat, cap: map<nat, nat>)
  {
    /** limit_bytes() */
    function Limite(): nat { units * bloco }

    /** There is always a unit (config.rs), blocks are not empty, the limit fits a u64. */
    predicate Valid() { 0 < units && 0 < bloco && Limite() < TWO64 }
  }

  datatype Resultado = Concluido | Busy | Overloaded | Cancelado

  /** Where a task stands between two steps. */
  datatype Fase = EsperaJanela | EsperaUnidade | ComUnidade | Somado(now: nat) | EmUso
                | Subtraido | SoltaJanela(r: Resultado) | Fim(r: Resultado)

  datatype Tarefa = Tarefa(janela: Option<nat>, admissao: bool, fase: Fase)

  /** The semaphores' free permits, the two gauges and the tasks. */
  datatype Estado = Estado(livres: nat, janelas: map<nat, nat>, inflight: nat, pico: nat,
                           tarefas: map<nat, Tarefa>)

  datatype Acao =
    | Nova(t: nat, janela: Option<nat>, admissao: bool)
    | PegarJanela(t: nat)      // w.acquire_owned() succeeds
    | PegarUnidade(t: nat)     // self.sem.acquire_owned() succeeds
    | Somar(t: nat)            // inflight_bytes.fetch_add
    | Maximizar(t: nat)        // inflight_peak_bytes.fetch_max, and the slot is returned
    | Subtrair(t: nat)         // Slot::drop: inflight_bytes.fetch_sub
    | SoltarUnidade(t: nat)    // then field _unit
    | SoltarJanela(t: nat)     // then field _window, or the permit of an abandoned acquire
    | Expirar(t: nat)          // the admission timeout
    | Fechado(t: nat)          // the semaphore waited for is closed
    | Cancelar(t: nat)         // the future is dropped at an await

  function Inicial(a: Ambiente): Estado { Estado(a.units, a.cap, 0, 0, map[]) }

  predicate NaFase(s: Estado, t: nat, f: Fase) { t in s.tarefas && s.tarefas[t].fase == f }

  predicate Esperando(s: Estado, t: nat) { NaFase(s, t, EsperaJanela) || NaFase(s, t, EsperaUnidade) }

  /** The window a task uses is one of the windows. */
  predicate JanelaConhecida(s: Estado, t: nat)
    requires t in s.tarefas
  {
    s.tarefas[t].janela.Some? && s.tarefas[t].janela.value in s.janelas
  }

  predicate Habilitada(a: Ambiente, s: Estado, x: Acao) {
    match x
    case Nova(t, w, _) => t !in s.tarefas && (w.Some? ==> w.value in a.cap)
    case PegarJanela(t) => NaFase(s, t, EsperaJanela) && JanelaConhecida(s, t) && 0 < s.janelas[s.tarefas[t].janela.value]
    case PegarUnidade(t) => NaFase(s, t, EsperaUnidade) && 0 < s.livres
    case Somar(t) => NaFase(s, t, ComUnidade)
    case Maximizar(t) => t in s.tarefas && s.tarefas[t].fase.Somado?
    case Subtrair(t) => NaFase(s, t, EmUso)
    case SoltarUnidade(t) => NaFase(s, t, Subtraido)
    case SoltarJanela(t) => t in s.tarefas && s.tarefas[t].fase.SoltaJanela? && JanelaConhecida(s, t)
    case Expirar(t) => NaFase(s, t, EsperaUnidade) && s.tarefas[t].admissao
    case Fechado(t) => Esperando(s, t)
    case Cancelar(t) => Esperando(s, t)
  }

  function ComFase(s: Estado, t: nat, f: Fase): map<nat, Tarefa>
    requires t in s.tarefas
  {
    s.tarefas[t := s.tarefas[t].(fase := f)]
  }

  /** The task is done but for the window permit it may hold. */
  function Saida(x: Tarefa, r: Resultado): Fase {
    if x.janela.Some? && x.fase != EsperaJanela then SoltaJanela(r) else Fim(r)
  }

  /** The state after a step; additions and subtractions wrap as on u64. */
  function Aplicar(a: Ambiente, s: Estado, x: Acao): Estado
    requires Habilitada(a, s, x)
  {
    match x
    case Nova(t, w, adm) =>
      s.(tarefas := s.tarefas[t := Tarefa(w, adm, if w.Some? then EsperaJanela else EsperaUnidade)])
    case PegarJanela(t) =>
      var w := s.tarefas[t].janela.value;
      s.(janelas := s.janelas[w := s.janelas[w] - 1], tarefas := ComFase(s, t, EsperaUnidade))
    case PegarUnidade(t) => s.(livres := s.livres - 1, tarefas := ComFase(s, t, ComUnidade))
    case Somar(t) =>
      var now := (s.inflight + a.bloco) % TWO64;
      s.(inflight := now, tarefas := ComFase(s, t, Somado(now)))
    case Maximizar(t) =>
      s.(pico := Max(s.pico, s.tarefas[t].fase.now), tarefas := ComFase(s, t, EmUso))
    case Subtrair(t) => s.(inflight := (s.inflight - a.bloco) % TWO64, tarefas := ComFase(s, t, Subtraido))
    case SoltarUnidade(t) => s.(livres := s.livres + 1, tarefas := ComFase(s, t, Saida(s.tarefas[t], Concluido)))
    case SoltarJanela(t) =>
      var w := s.tarefas[t].janela.value;
      s.(janelas := s.janelas[w := s.janelas[w] + 1], tarefas := ComFase(s, t, Fim(s.tarefas[t].fase.r)))
    case Expirar(t) => s.(tarefas := ComFase(s, t, Saida(s.tarefas[t], Busy)))
    case Fechado(t) => s.(tarefas := ComFase(s, t, Saida(s.tarefas[t], Overloaded)))
    case Cancelar(t) => s.(tarefas := ComFase(s, t, Saida(s.tarefas[t], Cancelado)))
  }

  /** A run: the states visited, one step apart, from the initial one. */
  ghost predicate Execucao(a: Ambiente, es: seq<Estado>, xs: seq<Acao>) {
    |es| == |xs| + 1 && es[0] == Inicial(a) &&
    forall i :: 0 <= i < |xs| ==> Habilitada(a, es[i], xs[i]) && es[i + 1] == Aplicar(a, es[i], xs[i])
  }

  // ---------------------------------------------------------------- who holds what

  datatype Papel = Unidade | Contado | Janela(w: nat) | Nivel(k: nat)

  /** How many steps a task still has before it, at most. */
  function Altura(f: Fase): nat {
    match f
    case EsperaJanela => 7 case EsperaUnidade => 6 case ComUnidade => 5 case Somado(_) => 4
    case EmUso => 3 case Subtraido => 2 case SoltaJanela(_) => 1 case Fim(_) => 0
  }

  /** Unidade: holds a unit permit.  Contado: has added its bytes and not subtracted them.
      Janela(w): holds a permit of window w.  Nivel(k): has k steps or more before it. */
  predicate Tem(x: Tarefa, p: Papel) {
    match p
    case Unidade => x.fase == ComUnidade || x.fase.Somado? || x.fase == EmUso || x.fase == Subtraido
    case Contado => x.fase.Somado? || x.fase == EmUso
    case Janela(w) => x.janela == Some(w) && !x.fase.EsperaJanela? && !x.fase.Fim?
    case Nivel(k) => k <= Altura(x.fase)
  }

  ghost function Quem(ts: map<nat, Tarefa>, p: Papel): set<nat> { set t | t in ts && Tem(ts[t], p) }

  ghost function Quantos(ts: map<nat, Tarefa>, p: Papel): nat { |Quem(ts, p)| }

  /** Changing one task changes each count by that task alone. */
  lemma Atualizar(ts: map<nat, Tarefa>, t: nat, x: Tarefa, p: Papel)
    ensures Quantos(ts[t := x], p) == Quantos(ts, p) - Um(t in ts && Tem(ts[t], p)) + Um(Tem(x, p))
    ensures t in ts && Tem(ts[t], p) ==> 0 < Quantos(ts, p)
  {
    hide Tem;
    var q, q' := Quem(ts, p), Quem(ts[t := x], p);
    assert (t in q <==> t in ts && Tem(ts[t], p)) && (t in q' <==> Tem(x, p));
    assert q - {t} == q' - {t};
    Trocar(q, q', t);
  }

  lemma Trocar(q: set<nat>, q': set<nat>, t: nat)
    requires q - {t} == q' - {t}
    ensures |q'| == |q| - Um(t in q) + Um(t in q') && (t in q ==> 0 < |q|)
  {
    SemUm(q, t);
    SemUm(q', t);
  }

  lemma SemUm(q: set<nat>, t: nat)
    ensures |q| == |q - {t}| + Um(t in q)
  {
    assert q == q - {t} + if t in q then {t} else {};
  }

  // ---------------------------------------------------------------- the invariant

  /** Free units and held units make up all units. */
  ghost predicate InvUnidades(a: Ambiente, s: Estado) { s.livres + Quantos(s.tarefas, Unidade) == a.units }

  /** The gauge is the bytes of the tasks that have added and not yet subtracted. */
  ghost predicate InvBytes(a: Ambiente, s: Estado) { s.inflight == a.bloco * Quantos(s.tarefas, Contado) }

  /** Free and held permits of each window make up its capacity. */
  ghost predicate InvJanelas(a: Ambiente, s: Estado) {
    s.janelas.Keys == a.cap.Keys &&
    forall w :: w in a.cap ==> s.janelas[w] + Quantos(s.tarefas, Janela(w)) == a.cap[w]
  }

  ghost predicate InvFases(a: Ambiente, s: Estado) {
    forall t :: t in s.tarefas ==>
      (s.tarefas[t].janela.Some? ==> s.tarefas[t].janela.value in a.cap) &&
      (s.tarefas[t].fase.SoltaJanela? || s.tarefas[t].fase.EsperaJanela? ==> s.tarefas[t].janela.Some?)
  }

  ghost predicate Inv(a: Ambiente, s: Estado) {
    InvUnidades(a, s) && InvBytes(a, s) && InvJanelas(a, s) && InvFases(a, s)
  }

  /** Everybody counted holds a unit, so the gauge cannot exceed the limit. */
  lemma ContadosTemUnidade(ts: map<nat, Tarefa>)
    ensures Quantos(ts, Contado) <= Quantos(ts, Unidade)
    ensures (exists t :: t in ts && Tem(ts[t], Unidade) && !Tem(ts[t], Contado)) ==>
      Quantos(ts, Contado) < Quantos(ts, Unidade)
  {
    Cardinal(Quem(ts, Contado), Quem(ts, Unidade));
    if t :| t in ts && Tem(ts[t], Unidade) && !Tem(ts[t], Contado) {
      Cardinal(Quem(ts, Contado) + {t}, Quem(ts, Unidade));
    }
  }

  lemma Cardinal(x: set<nat>, y: set<nat>)
    requires x <= y
    ensures |x| <= |y|
  {
    assert y == x + (y - x);
  }

  lemma InicialInv(a: Ambiente)
    ensures Inv(a, Inicial(a))
  {
    var ts := Inicial(a).tarefas;
    forall p: Papel ensures Quantos(ts, p) == 0 { assert Quem(ts, p) == {}; }
  }

  /** The gauge after an addition or a subtraction is the exact one: no wrap, no underflow. */
  lemma SemEstouro(a: Ambiente, s: Estado)
    requires a.Valid() && Inv(a, s)
    ensures s.inflight <= a.Limite()
    ensures forall t :: NaFase(s, t, ComUnidade) ==> (s.inflight + a.bloco) % TWO64 == s.inflight + a.bloco <= a.Limite()
    ensures forall t :: NaFase(s, t, EmUso) ==> a.bloco <= s.inflight && (s.inflight - a.bloco) % TWO64 == s.inflight - a.bloco
  {
    hide Quantos;
    ContadosTemUnidade(s.tarefas);
    MulMono(Quantos(s.tarefas, Contado), a.units, a.bloco);
    if t :| NaFase(s, t, ComUnidade) { MaisUmCabe(a, s, t); }
    if t :| NaFase(s, t, EmUso) { MenosUmCabe(a, s, t); }
  }

  lemma MaisUmCabe(a: Ambiente, s: Estado, t: nat)
    requires a.Valid() && InvUnidades(a, s) && InvBytes(a, s) && NaFase(s, t, ComUnidade)
    ensures s.inflight + a.bloco <= a.Limite()
  {
    hide Quantos;
    var c := Quantos(s.tarefas, Contado);
    ContadosTemUnidade(s.tarefas);
    assert Tem(s.tarefas[t], Unidade) && !Tem(s.tarefas[t], Contado);
    MulMono(c + 1, a.units, a.bloco);
    assert (c + 1) * a.bloco == c * a.bloco + a.bloco;
  }

  lemma MenosUmCabe(a: Ambiente, s: Estado, t: nat)
    requires InvBytes(a, s) && NaFase(s, t, EmUso)
    ensures a.bloco <= s.inflight
  {
    hide Quantos;
    Atualizar(s.tarefas, t, s.tarefas[t], Contado);
    MulMono(1, Quantos(s.tarefas, Contado), a.bloco);
  }

  /** A step changes its own task only. */
  lemma UmaTarefa(a: Ambiente, s: Estado, x: Acao)
    requires Habilitada(a, s, x)
    ensures var ts := Aplicar(a, s, x).tarefas; x.t in ts && ts == s.tarefas[x.t := ts[x.t]]
  {
  }

  /** Only an addition and a subtraction move the gauge, each by one block and exactly. */
  lemma PassoMedidor(a: Ambiente, s: Estado, x: Acao)
    requires a.Valid() && Inv(a, s) && Habilitada(a, s, x)
    ensures var s' := Aplicar(a, s, x);
      && (x.Somar? ==> s'.inflight == s.inflight + a.bloco)
      && (x.Subtrair? ==> a.bloco <= s.inflight && s'.inflight == s.inflight - a.bloco)
      && (!x.Somar? && !x.Subtrair? ==> s'.inflight == s.inflight)
    ensures var ts := Aplicar(a, s, x).tarefas;
      && x.t in ts && (x.Somar? || x.Subtrair? ==> x.t in s.tarefas)
      && Um(Tem(ts[x.t], Contado)) == Um(x.t in s.tarefas && Tem(s.tarefas[x.t], Contado)) + Um(x.Somar?) - Um(x.Subtrair?)
  {
    hide Inv, Quantos;
    SemEstouro(a, s);
    UmaTarefa(a, s, x);
  }

  lemma PassoUnidades(a: Ambiente, s: Estado, x: Acao)
    requires InvUnidades(a, s) && Habilitada(a, s, x)
    ensures InvUnidades(a, Aplicar(a, s, x))
  {
    hide Quantos;
    Atualizar(s.tarefas, x.t, Aplicar(a, s, x).tarefas[x.t], Unidade);
  }

  lemma PassoBytes(a: Ambiente, s: Estado, x: Acao)
    requires a.Valid() && Inv(a, s) && Habilitada(a, s, x)
    ensures InvBytes(a, Aplicar(a, s, x))
  {
    hide Aplicar, Habilitada, Quantos, Tem;
    var c: int := Quantos(s.tarefas, Contado);
    UmaTarefa(a, s, x);
    PassoMedidor(a, s, x);
    Atualizar(s.tarefas, x.t, Aplicar(a, s, x).tarefas[x.t], Contado);
    assert a.bloco * (c + 1) == a.bloco * c + a.bloco;
    assert a.bloco * (c - 1) == a.bloco * c - a.bloco;
  }

  lemma PassoJanela(a: Ambiente, s: Estado, x: Acao, w: nat)
    requires InvJanelas(a, s) && InvFases(a, s) && Habilitada(a, s, x) && w in a.cap
    ensures w in Aplicar(a, s, x).janelas
    ensures Aplicar(a, s, x).janelas[w] + Quantos(Aplicar(a, s, x).tarefas, Janela(w)) == a.cap[w]
  {
    hide Quantos;
    Atualizar(s.tarefas, x.t, Aplicar(a, s, x).tarefas[x.t], Janela(w));
  }

  lemma PassoJanelas(a: Ambiente, s: Estado, x: Acao)
    requires InvJanelas(a, s) && InvFases(a, s) && Habilitada(a, s, x)
    ensures InvJanelas(a, Aplicar(a, s, x))
  {
    forall w | w in a.cap
      ensures w in Aplicar(a, s, x).janelas && Aplicar(a, s, x).janelas[w] + Quantos(Aplicar(a, s, x).tarefas, Janela(w)) == a.cap[w]
    {
      PassoJanela(a, s, x, w);
    }
  }

  lemma PassoFases(a: Ambiente, s: Estado, x: Acao)
    requires InvJanelas(a, s) && InvFases(a, s) && Habilitada(a, s, x)
    ensures InvFases(a, Aplicar(a, s, x))
  {
    hide Quantos;
    UmaTarefa(a, s, x);
  }

  /** Every step of every task keeps the invariant. */
  lemma PassoInv(a: Ambiente, s: Estado, x: Acao)
    requires a.Valid() && Inv(a, s) && Habilitada(a, s, x)
    ensures Inv(a, Aplicar(a, s, x))
  {
    PassoUnidades(a, s, x);
    PassoBytes(a, s, x);
    PassoJanelas(a, s, x);
    PassoFases(a, s, x);
  }

  lemma {:induction false} ExecucaoInv(a: Ambiente, es: seq<Estado>, xs: seq<Acao>, k: nat)
    requires a.Valid() && Execucao(a, es, xs) && k < |es|
    ensures Inv(a, es[k])
  {
    if k == 0 {
      InicialInv(a);
    } else {
      ExecucaoInv(a, es, xs, k - 1);
      PassoInv(a, es[k - 1], xs[k - 1]);
    }
  }

  // ---------------------------------------------------------------- what every run guarantees

  /** In every state of every run: units are conserved, the gauge is exact and within the
      limit, and the slots that share a window never exceed its capacity. */
  lemma Seguranca(a: Ambiente, es: seq<Estado>, xs: seq<Acao>, k: nat)
    requires a.Valid() && Execucao(a, es, xs) && k < |es|
    ensures es[k].livres + Quantos(es[k].tarefas, Unidade) == a.units
    ensures es[k].inflight == a.bloco * Quantos(es[k].tarefas, Contado) <= a.Limite()
    ensures forall w :: w in a.cap ==> Quantos(es[k].tarefas, Janela(w)) <= a.cap[w]
    ensures k < |xs| && xs[k].Subtrair? ==> a.bloco <= es[k].inflight && es[k + 1].inflight == es[k].inflight - a.bloco
    ensures k < |xs| && xs[k].Somar? ==> es[k + 1].inflight == es[k].inflight + a.bloco
  {
    hide Aplicar, Habilitada, Quantos;
    ExecucaoInv(a, es, xs, k);
    SemEstouro(a, es[k]);
    if k < |xs| { PassoMedidor(a, es[k], xs[k]); }
    forall w | w in a.cap ensures Quantos(es[k].tarefas, Janela(w)) <= a.cap[w] {
      assert es[k].janelas[w] + Quantos(es[k].tarefas, Janela(w)) == a.cap[w];
    }
  }

  /** When every task is done, every permit is back and the gauge is at zero, however the
      tasks ended. */
  lemma Repouso(a: Ambiente, s: Estado)
    requires Inv(a, s) && forall t :: t in s.tarefas ==> s.tarefas[t].fase.Fim?
    ensures s.livres == a.units && s.inflight == 0 && s.janelas == a.cap
  {
    forall p: Papel | p == Unidade || p == Contado || p.Janela? ensures Quantos(s.tarefas, p) == 0 {
      assert Quem(s.tarefas, p) == {};
    }
    forall w | w in a.cap ensures s.janelas[w] == a.cap[w] {
      assert s.janelas[w] + Quantos(s.tarefas, Janela(w)) == a.cap[w];
    }
  }

  // ---------------------------------------------------------------- how an acquire ends

  /** The step that gives a task its result. */
  function Causa(r: Resultado, t: nat): Acao {
    match r
    case Concluido => SoltarUnidade(t)
    case Busy => Expirar(t)
    case Overloaded => Fechado(t)
    case Cancelado => Cancelar(t)
  }

  /** The result a task carries, or ended with. */
  function Levado(x: Tarefa): Option<Resultado> {
    match x.fase
    case SoltaJanela(r) => Some(r)
    case Fim(r) => Some(r)
    case _ => None
  }

  predicate Leva(s: Estado, t: nat, r: Resultado) { t in s.tarefas && Levado(s.tarefas[t]) == Some(r) }

  /** The task has had its slot in use. */
  predicate Usou(s: Estado, t: nat) { NaFase(s, t, EmUso) || NaFase(s, t, Subtraido) || Leva(s, t, Concluido) }

  /** The task went past its window, if it uses one, and was not stopped there. */
  predicate PassouJanela(s: Estado, t: nat) {
    && t in s.tarefas && s.tarefas[t].janela.Some? && s.tarefas[t].fase != EsperaJanela
    && !Leva(s, t, Overloaded) && !Leva(s, t, Cancelado)
  }

  /** What the steps h taken so far tell about task t. */
  ghost predicate Historia(h: seq<Acao>, s: Estado, t: nat) {
    && (forall r :: Leva(s, t, r) <==> Causa(r, t) in h)
    && (Usou(s, t) <==> Maximizar(t) in h)
    && (t in s.tarefas ==> Nova(t, s.tarefas[t].janela, s.tarefas[t].admissao) in h)
    && (Leva(s, t, Busy) ==> s.tarefas[t].admissao)
    && (PassouJanela(s, t) ==> PegarJanela(t) in h)
  }

  /** A result comes with its step and stays. */
  lemma PassoLeva(a: Ambiente, s: Estado, x: Acao, t: nat, r: Resultado)
    requires Habilitada(a, s, x)
    ensures Leva(Aplicar(a, s, x), t, r) <==> Leva(s, t, r) || x == Causa(r, t)
  {
  }

  /** Only a task with admission times out. */
  lemma PassoBusy(a: Ambiente, s: Estado, x: Acao, t: nat)
    requires Habilitada(a, s, x) && Leva(Aplicar(a, s, x), t, Busy)
    ensures Leva(s, t, Busy) || Aplicar(a, s, x).tarefas[t].admissao
  {
  }

  lemma PassoUsou(a: Ambiente, s: Estado, x: Acao, t: nat)
    requires Habilitada(a, s, x)
    ensures Usou(Aplicar(a, s, x), t) <==> Usou(s, t) || x == Maximizar(t)
  {
  }

  lemma PassoJanelaPassada(a: Ambiente, s: Estado, x: Acao, t: nat)
    requires Habilitada(a, s, x)
    ensures PassouJanela(Aplicar(a, s, x), t) ==> PassouJanela(s, t) || x == PegarJanela(t)
  {
  }

  /** A task keeps what it was made with. */
  lemma PassoNova(a: Ambiente, s: Estado, x: Acao, t: nat)
    requires Habilitada(a, s, x) && t in Aplicar(a, s, x).tarefas
    ensures var y := Aplicar(a, s, x).tarefas[t];
      if t in s.tarefas then y.janela == s.tarefas[t].janela && y.admissao == s.tarefas[t].admissao
      else x == Nova(t, y.janela, y.admissao)
  {
  }

  lemma PassoHistoria(a: Ambiente, s: Estado, x: Acao, h: seq<Acao>, t: nat)
    requires Habilitada(a, s, x) && Historia(h, s, t)
    ensures Historia(h + [x], Aplicar(a, s, x), t)
  {
    hide Aplicar, Habilitada, Causa, Leva, Usou, PassouJanela;
    var s' := Aplicar(a, s, x);
    assert forall y :: y in h + [x] <==> y in h || y == x;
    forall r ensures Leva(s', t, r) <==> Causa(r, t) in h + [x] { PassoLeva(a, s, x, t, r); }
    if Leva(s', t, Busy) { PassoBusy(a, s, x, t); }
    PassoUsou(a, s, x, t);
    PassoJanelaPassada(a, s, x, t);
    LevaExiste(s', t, Busy);
    LevaExiste(s, t, Busy);
    if t in s'.tarefas { PassoNova(a, s, x, t); }
  }

  lemma LevaExiste(s: Estado, t: nat, r: Resultado)
    ensures Leva(s, t, r) ==> t in s.tarefas
  {
  }

  lemma {:induction false} ExecucaoHistoria(a: Ambiente, es: seq<Estado>, xs: seq<Acao>, k: nat, t: nat)
    requires Execucao(a, es, xs) && k < |es|
    ensures Historia(xs[..k], es[k], t)
  {
    hide Aplicar, Habilitada, Historia;
    if k == 0 {
      InicioHistoria(a, t);
    } else {
      ExecucaoHistoria(a, es, xs, k - 1, t);
      PassoHistoria(a, es[k - 1], xs[k - 1], xs[..k - 1], t);
      assert xs[..k] == xs[..k - 1] + [xs[k - 1]];
    }
  }

  lemma InicioHistoria(a: Ambiente, t: nat)
    ensures Historia([], Inicial(a), t)
  {
  }

  /** In every state of every run: a task carries or has a result exactly when the step that
      gives it was taken, the timeout for Busy, a closed semaphore for Overloaded, the dropped
      future for Cancelado, the return of the unit for Concluido; only a request made with
      admission is ever Busy; and one that gets to Busy or Concluido got its window's permit. */
  lemma Desfecho(a: Ambiente, es: seq<Estado>, xs: seq<Acao>, k: nat, t: nat)
    requires Execucao(a, es, xs) && k < |es|
    ensures forall r :: Leva(es[k], t, r) <==> Causa(r, t) in xs[..k]
    ensures Leva(es[k], t, Busy) ==> es[k].tarefas[t].admissao
    ensures t in es[k].tarefas ==> Nova(t, es[k].tarefas[t].janela, es[k].tarefas[t].admissao) in xs[..k]
    ensures (Leva(es[k], t, Busy) || Leva(es[k], t, Concluido)) && es[k].tarefas[t].janela.Some? ==> PegarJanela(t) in xs[..k]
  {
    ExecucaoHistoria(a, es, xs, k, t);
  }

  /** A task that has its result has Concluido if and only if it once had its slot in use. */
  lemma ConcluidoUsou(a: Ambiente, es: seq<Estado>, xs: seq<Acao>, k: nat, t: nat)
    requires Execucao(a, es, xs) && k < |es| && t in es[k].tarefas && Levado(es[k].tarefas[t]).Some?
    ensures Leva(es[k], t, Concluido) <==> exists j :: 0 <= j < k && NaFase(es[j], t, EmUso)
  {
    hide Aplicar, Habilitada;
    ExecucaoHistoria(a, es, xs, k, t);
    if Leva(es[k], t, Concluido) {
      assert Maximizar(t) in xs[..k];
      var i :| 0 <= i < k && xs[i] == Maximizar(t);
      DepoisDeMaximizar(a, es[i], t);
      assert NaFase(es[i + 1], t, EmUso);
    }
    if j :| 0 <= j < k && NaFase(es[j], t, EmUso) {
      ExecucaoHistoria(a, es, xs, j, t);
      assert Maximizar(t) in xs[..j] && Maximizar(t) in xs[..k];
    }
  }

  lemma DepoisDeMaximizar(a: Ambiente, s: Estado, t: nat)
    requires Habilitada(a, s, Maximizar(t))
    ensures NaFase(Aplicar(a, s, Maximizar(t)), t, EmUso)
  {
  }

  /** A waiting task can always be refused because the semaphore is closed or be cancelled; one
      that waits for a unit can time out exactly if it asked for admission.  Then it ends with
      that result, after giving back its window's permit if it holds one. */
  lemma EsperaAcaba(a: Ambiente, s: Estado, t: nat, r: Resultado)
    requires Inv(a, s) && Esperando(s, t) && r != Concluido
    ensures Habilitada(a, s, Causa(r, t)) <==> (r == Busy ==> s.tarefas[t].fase == EsperaUnidade && s.tarefas[t].admissao)
    ensures Habilitada(a, s, Causa(r, t)) ==>
      var s1 := Aplicar(a, s, Causa(r, t));
      if s.tarefas[t].janela.Some? && s.tarefas[t].fase == EsperaUnidade then
        NaFase(s1, t, SoltaJanela(r)) && Habilitada(a, s1, SoltarJanela(t)) &&
        NaFase(Aplicar(a, s1, SoltarJanela(t)), t, Fim(r))
      else NaFase(s1, t, Fim(r))
  {
    hide Quantos;
  }

  // ---------------------------------------------------------------- the peak gauge

  /** The largest value the gauge had in a run. */
  function Maior(es: seq<Estado>): nat {
    if es == [] then 0 else Max(Maior(es[..|es| - 1]), es[|es| - 1].inflight)
  }

  /** m is the historical maximum, already recorded or about to be. */
  ghost predicate InvPico(s: Estado, m: nat) {
    && s.pico <= m
    && (forall t :: t in s.tarefas && s.tarefas[t].fase.Somado? ==> s.tarefas[t].fase.now <= m)
    && (s.pico == m || exists t :: t in s.tarefas && s.tarefas[t].fase == Somado(m))
  }

  lemma PassoPico(a: Ambiente, s: Estado, x: Acao, m: nat)
    requires a.Valid() && Inv(a, s) && Habilitada(a, s, x) && InvPico(s, m) && s.inflight <= m
    ensures var s' := Aplicar(a, s, x); InvPico(s', Max(m, s'.inflight)) && s.pico <= s'.pico
  {
    hide Inv, Quantos;
    var s', y := Aplicar(a, s, x), Aplicar(a, s, x).tarefas[x.t];
    PassoMedidor(a, s, x);
    UmaTarefa(a, s, x);
    if x.Somar? {
      if s'.inflight >= m { assert s'.tarefas[x.t].fase == Somado(s'.inflight); }
    }
    if s.pico != m {
      var t :| t in s.tarefas && s.tarefas[t].fase == Somado(m);
      assert t == x.t ==> x.Maximizar?;
      if t != x.t { assert s'.tarefas[t].fase == Somado(m); }
    }
  }

  lemma {:induction false} ExecucaoPico(a: Ambiente, es: seq<Estado>, xs: seq<Acao>)
    requires a.Valid() && Execucao(a, es, xs)
    ensures InvPico(es[|es| - 1], Maior(es)) && Maior(es) <= a.Limite()
    ensures es[|es| - 1].inflight <= Maior(es)
    decreases |es|
  {
    hide Aplicar, Habilitada, Inv, Quantos;
    var n := |es| - 1;
    Seguranca(a, es, xs, n);
    if n == 0 {
      assert es[..0] == [];
    } else {
      var es', xs' := es[..n], xs[..n - 1];
      assert Execucao(a, es', xs');
      ExecucaoPico(a, es', xs');
      ExecucaoInv(a, es, xs, n - 1);
      PassoPico(a, es[n - 1], xs[n - 1], Maior(es'));
    }
  }

  /** The peak gauge never falls, never exceeds the limit, and is the exact maximum the
      gauge ever had whenever no task stands between its fetch_add and its fetch_max. */
  lemma Pico(a: Ambiente, es: seq<Estado>, xs: seq<Acao>)
    requires a.Valid() && Execucao(a, es, xs)
    ensures var s := es[|es| - 1];
      && s.pico <= Maior(es) <= a.Limite()
      && ((forall t :: t in s.tarefas ==> !s.tarefas[t].fase.Somado?) ==> s.pico == Maior(es))
    ensures |xs| > 0 ==> es[|es| - 2].pico <= es[|es| - 1].pico
  {
    ExecucaoPico(a, es, xs);
    if |xs| > 0 {
      var n := |xs|;
      ExecucaoInv(a, es, xs, n - 1);
      assert es[n] == Aplicar(a, es[n - 1], xs[n - 1]);
    }
  }

  // ---------------------------------------------------------------- no task is stuck

  /** A step that brings its task nearer to the end without giving up. */
  predicate Avanca(x: Acao) {
    x.PegarJanela? || x.PegarUnidade? || x.Somar? || x.Maximizar? || x.Subtrair? || x.SoltarUnidade? || x.SoltarJanela?
  }

  /** The step that a task not waiting for a permit can take. */
  function Proxima(s: Estado, t: nat): Acao
    requires t in s.tarefas && !Esperando(s, t) && !s.tarefas[t].fase.Fim?
  {
    match s.tarefas[t].fase
    case ComUnidade => Somar(t)
    case Somado(_) => Maximizar(t)
    case EmUso => Subtrair(t)
    case Subtraido => SoltarUnidade(t)
    case _ => SoltarJanela(t)
  }

  /** As long as a task is unfinished some task can advance: a permit that is waited for is
      free or held by a task that can move. */
  lemma SemImpasse(a: Ambiente, s: Estado, t: nat) returns (x: Acao)
    requires a.Valid() && Inv(a, s) && (forall w :: w in a.cap ==> 0 < a.cap[w])
    requires t in s.tarefas && !s.tarefas[t].fase.Fim?
    ensures Avanca(x) && Habilitada(a, s, x) && x.t in s.tarefas
  {
    if !Esperando(s, t) {
      x := Proxima(s, t);
    } else if NaFase(s, t, EsperaJanela) && s.janelas[s.tarefas[t].janela.value] == 0 {
      var w := s.tarefas[t].janela.value;
      var u :| u in Quem(s.tarefas, Janela(w));
      x := SeguradorAvanca(a, s, u);
    } else if NaFase(s, t, EsperaJanela) {
      x := PegarJanela(t);
    } else {
      x := UnidadeAvanca(a, s, t);
    }
  }

  lemma UnidadeAvanca(a: Ambiente, s: Estado, t: nat) returns (x: Acao)
    requires a.Valid() && Inv(a, s) && NaFase(s, t, EsperaUnidade)
    ensures Avanca(x) && Habilitada(a, s, x) && x.t in s.tarefas
  {
    if s.livres > 0 {
      x := PegarUnidade(t);
    } else {
      var u :| u in Quem(s.tarefas, Unidade);
      x := Proxima(s, u);
    }
  }

  lemma SeguradorAvanca(a: Ambiente, s: Estado, u: nat) returns (x: Acao)
    requires a.Valid() && Inv(a, s)
    requires u in s.tarefas && !s.tarefas[u].fase.EsperaJanela? && !s.tarefas[u].fase.Fim?
    ensures Avanca(x) && Habilitada(a, s, x) && x.t in s.tarefas
  {
    if NaFase(s, u, EsperaUnidade) { x := UnidadeAvanca(a, s, u); } else { x := Proxima(s, u); }
  }

  /** The steps that all tasks together still have before them, at most. */
  ghost function Restam(ts: map<nat, Tarefa>, k: nat): nat {
    if k == 0 then 0 else Restam(ts, k - 1) + Quantos(ts, Nivel(k))
  }

  lemma {:induction false} RestamMenos(ts: map<nat, Tarefa>, t: nat, x: Tarefa, k: nat)
    requires t in ts && Altura(x.fase) < Altura(ts[t].fase)
    ensures Restam(ts[t := x], k) <= Restam(ts, k)
    ensures Altura(ts[t].fase) <= k ==> Restam(ts[t := x], k) < Restam(ts, k)
  {
    if k > 0 {
      RestamMenos(ts, t, x, k - 1);
      Atualizar(ts, t, x, Nivel(k));
    }
  }

  /** A sequence of advancing steps from one state to another. */
  ghost predicate Avanco(a: Ambiente, es: seq<Estado>, xs: seq<Acao>) {
    |es| == |xs| + 1 &&
    forall i :: 0 <= i < |xs| ==> Avanca(xs[i]) && Habilitada(a, es[i], xs[i]) && es[i + 1] == Aplicar(a, es[i], xs[i])
  }

  ghost predicate Terminado(s: Estado) { forall t :: t in s.tarefas ==> s.tarefas[t].fase.Fim? }

  /** From every reachable state all tasks can be brought to their end, and then the budget
      is as it was at the start.  The measure falls with every advancing step, so the tasks
      present finish whichever of those steps are taken. */
  lemma {:induction false} TodasTerminam(a: Ambiente, s: Estado) returns (es: seq<Estado>, xs: seq<Acao>)
    requires a.Valid() && Inv(a, s) && (forall w :: w in a.cap ==> 0 < a.cap[w])
    ensures Avanco(a, es, xs) && es[0] == s && Terminado(es[|xs|])
    ensures es[|xs|].livres == a.units && es[|xs|].inflight == 0 && es[|xs|].janelas == a.cap
    decreases Restam(s.tarefas, 7)
  {
    if t :| t in s.tarefas && !s.tarefas[t].fase.Fim? {
      var x := SemImpasse(a, s, t);
      var s' := Aplicar(a, s, x);
      PassoInv(a, s, x);
      AvancaDesce(a, s, x);
      var es', xs' := TodasTerminam(a, s');
      es, xs := [s] + es', [x] + xs';
      AvancoCons(a, s, x, es', xs');
    } else {
      Repouso(a, s);
      es, xs := [s], [];
    }
  }

  lemma AvancoCons(a: Ambiente, s: Estado, x: Acao, es: seq<Estado>, xs: seq<Acao>)
    requires Avanco(a, es, xs) && Avanca(x) && Habilitada(a, s, x) && es[0] == Aplicar(a, s, x)
    ensures Avanco(a, [s] + es, [x] + xs) && ([s] + es)[|xs| + 1] == es[|xs|]
  {
    var es', xs' := [s] + es, [x] + xs;
    forall i | 0 <= i < |xs'|
      ensures Avanca(xs'[i]) && Habilitada(a, es'[i], xs'[i]) && es'[i + 1] == Aplicar(a, es'[i], xs'[i])
    {
      if i > 0 { assert es'[i] == es[i - 1] && xs'[i] == xs[i - 1] && es'[i + 1] == es[i]; }
    }
  }

  lemma AvancaDesce(a: Ambiente, s: Estado, x: Acao)
    requires Avanca(x) && Habilitada(a, s, x) && x.t in s.tarefas
    ensures Restam(Aplicar(a, s, x).tarefas, 7) < Restam(s.tarefas, 7)
  {
    RestamMenos(s.tarefas, x.t, Aplicar(a, s, x).tarefas[x.t], 7);
  }
}
