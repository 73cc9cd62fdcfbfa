/** The multi-process cell runner of bench/syntrabench.py as a transition system: n cells
    and one sentinel per worker in a FIFO queue, m workers, one result queue and the
    collector.  A cell may succeed with any rows or fail; steps interleave freely. */
module Fila {
  import opened Base

  /** What a worker is doing: asking for work, running a cell, or stopped. */
  datatype Trab = Livre | Com(c: nat) | Parado

  /** A result message: the rows of a cell, or its failure. */
  datatype Msg = MsgOk(c: nat, linhas: seq<int>) | MsgErro(c: nat)

  /** The work queue (None is a sentinel), the workers, the result queue, and the messages
      the collector has taken. */
  datatype Estado = Estado(fila: seq<Option<nat>>, trab: seq<Trab>, resultados: seq<Msg>, recebidas: seq<Msg>)

  datatype Acao = Pegar(i: nat) | Terminar(i: nat, linhas: seq<int>) | Falhar(i: nat) | Receber

  /** Cells k..n, then the sentinels not yet taken. */
  function Restante(k: nat, n: nat, sent: nat): seq<Option<nat>>
    requires k <= n
  {
    seq(n - k, j => Some(k + j)) + seq(sent, _ => None)
  }

  /** executar_celulas puts everything in the queue before it starts the workers. */
  function Inicial(n: nat, m: nat): Estado { Estado(Restante(0, n, m), seq(m, _ => Livre), [], []) }

  predicate Habilitada(n: nat, s: Estado, x: Acao) {
    match x
    case Pegar(i) => i < |s.trab| && s.trab[i] == Livre && s.fila != []
    case Terminar(i, _) => i < |s.trab| && s.trab[i].Com?
    case Falhar(i) => i < |s.trab| && s.trab[i].Com?
    case Receber => |s.recebidas| < n && s.resultados != []
  }

  function Aplicar(n: nat, s: Estado, x: Acao): Estado
    requires Habilitada(n, s, x)
  {
    match x
    case Pegar(i) =>
      s.(fila := s.fila[1..], trab := s.trab[i := if s.fila[0].Some? then Com(s.fila[0].value) else Parado])
    case Terminar(i, ls) =>
      s.(trab := s.trab[i := Livre], resultados := s.resultados + [MsgOk(s.trab[i].c, ls)])
    case Falhar(i) =>
      s.(trab := s.trab[i := Livre], resultados := s.resultados + [MsgErro(s.trab[i].c)])
    case Receber =>
      s.(resultados := s.resultados[1..], recebidas := s.recebidas + [s.resultados[0]])
  }

  ghost predicate Execucao(n: nat, m: nat, es: seq<Estado>, xs: seq<Acao>) {
    |es| == |xs| + 1 && es[0] == Inicial(n, m) &&
    forall i :: 0 <= i < |xs| ==> Habilitada(n, es[i], xs[i]) && es[i + 1] == Aplicar(n, es[i], xs[i])
  }

  // ---------------------------------------------------------------- counting

  /** How many workers are in the given situation. */
  function Quantos(ts: seq<Trab>, x: Trab): nat {
    if ts == [] then 0 else Um(ts[0] == x) + Quantos(ts[1..], x)
  }

  /** How many workers are running a cell. */
  function Ocupados(ts: seq<Trab>): nat {
    if ts == [] then 0 else Um(ts[0].Com?) + Ocupados(ts[1..])
  }

  /** How many messages are about cell c. */
  function Sobre(ms: seq<Msg>, c: nat): nat {
    if ms == [] then 0 else Um(ms[0].c == c) + Sobre(ms[1..], c)
  }

  lemma {:induction false} TrocarTrab(ts: seq<Trab>, i: nat, y: Trab, x: Trab)
    requires i < |ts|
    ensures Quantos(ts[i := y], x) == Quantos(ts, x) - Um(ts[i] == x) + Um(y == x)
    ensures Ocupados(ts[i := y]) == Ocupados(ts) - Um(ts[i].Com?) + Um(y.Com?)
    ensures Quantos(ts, ts[i]) > 0 && (ts[i].Com? ==> Ocupados(ts) > 0)
  {
    if i == 0 {
      assert ts[0 := y][1..] == ts[1..];
    } else {
      assert ts[i := y][1..] == ts[1..][i - 1 := y];
      TrocarTrab(ts[1..], i - 1, y, x);
    }
  }

  lemma {:induction false} MaisMsg(ms: seq<Msg>, y: Msg, c: nat)
    ensures Sobre(ms + [y], c) == Sobre(ms, c) + Um(y.c == c)
  {
    if ms == [] {
      assert ms + [y] == [y] && [y][1..] == [];
    } else {
      assert (ms + [y])[1..] == ms[1..] + [y];
      MaisMsg(ms[1..], y, c);
    }
  }

  // ---------------------------------------------------------------- the invariant

  /** Where cell c is: being run, reported, or collected, counted over all places. */
  function Ocorrencias(s: Estado, c: nat): nat {
    Quantos(s.trab, Com(c)) + Sobre(s.resultados, c) + Sobre(s.recebidas, c)
  }

  /** Cells below k have been taken, each is in one place; the queue holds the rest and one
      sentinel for every worker that still runs. */
  ghost predicate Inv(n: nat, m: nat, s: Estado, k: nat) {
    && k <= n && |s.trab| == m && Quantos(s.trab, Parado) <= m
    && s.fila == Restante(k, n, m - Quantos(s.trab, Parado))
    && (0 < Quantos(s.trab, Parado) ==> k == n)
    && (forall c: nat :: Ocorrencias(s, c) == Um(c < k))
    && Ocupados(s.trab) + |s.resultados| + |s.recebidas| == k
  }

  lemma {:induction false} TodosLivres(m: nat, x: Trab)
    requires x != Livre
    ensures Quantos(seq(m, _ => Livre), x) == 0 && Ocupados(seq(m, _ => Livre)) == 0
  {
    if m > 0 {
      assert seq(m, _ => Livre)[1..] == seq(m - 1, _ => Livre);
      TodosLivres(m - 1, x);
    }
  }

  lemma InicialInv(n: nat, m: nat)
    ensures Inv(n, m, Inicial(n, m), 0)
  {
    TodosLivres(m, Parado);
    forall c: nat ensures Ocorrencias(Inicial(n, m), c) == 0 { TodosLivres(m, Com(c)); }
  }

  /** How many cells a step takes out of the queue. */
  function Avanco(s: Estado, x: Acao): nat { Um(x.Pegar? && s.fila != [] && s.fila[0].Some?) }

  lemma CabecaDaFila(k: nat, n: nat, sent: nat)
    requires k <= n && Restante(k, n, sent) != []
    ensures k < n ==> Restante(k, n, sent)[0] == Some(k) && Restante(k, n, sent)[1..] == Restante(k + 1, n, sent)
    ensures k == n ==> Restante(k, n, sent)[0] == None && 0 < sent && Restante(k, n, sent)[1..] == Restante(k, n, sent - 1)
  {
  }

  lemma PassoOcorrencias(n: nat, m: nat, s: Estado, x: Acao, k: nat, c: nat)
    requires Inv(n, m, s, k) && Habilitada(n, s, x)
    ensures Ocorrencias(Aplicar(n, s, x), c) == Um(c < k + Avanco(s, x))
  {
    hide Ocupados, Quantos;
    var s' := Aplicar(n, s, x);
    assert Ocorrencias(s, c) == Um(c < k);
    if x.Receber? {
      MaisMsg(s.recebidas, s.resultados[0], c);
    } else {
      TrocarTrab(s.trab, x.i, s'.trab[x.i], Com(c));
      if x.Pegar? {
        CabecaDaFila(k, n, m - Quantos(s.trab, Parado));
      } else {
        MaisMsg(s.resultados, s'.resultados[|s.resultados|], c);
      }
    }
  }

  lemma PassoInv(n: nat, m: nat, s: Estado, x: Acao, k: nat)
    requires Inv(n, m, s, k) && Habilitada(n, s, x)
    ensures Inv(n, m, Aplicar(n, s, x), k + Avanco(s, x))
  {
    hide Ocorrencias, Ocupados, Quantos, Sobre;
    var s', sent := Aplicar(n, s, x), m - Quantos(s.trab, Parado);
    forall c: nat ensures Ocorrencias(s', c) == Um(c < k + Avanco(s, x)) { PassoOcorrencias(n, m, s, x, k, c); }
    if !x.Receber? {
      TrocarTrab(s.trab, x.i, s'.trab[x.i], Parado);
      if x.Pegar? { CabecaDaFila(k, n, sent); }
    }
  }

  lemma {:induction false} ExecucaoInv(n: nat, m: nat, es: seq<Estado>, xs: seq<Acao>, i: nat) returns (k: nat)
    requires Execucao(n, m, es, xs) && i < |es|
    ensures Inv(n, m, es[i], k)
  {
    hide Aplicar, Avanco, Habilitada, Inv;
    if i == 0 {
      InicialInv(n, m);
      k := 0;
    } else {
      k := ExecucaoInv(n, m, es, xs, i - 1);
      PassoInv(n, m, es[i - 1], xs[i - 1], k);
      k := k + Avanco(es[i - 1], xs[i - 1]);
    }
  }

  // ---------------------------------------------------------------- safety

  /** In every run: a cell is never in two places and never reported twice, a worker takes
      a sentinel only when no cell is queued, and a stopped worker takes nothing more. */
  lemma Seguranca(n: nat, m: nat, es: seq<Estado>, xs: seq<Acao>, i: nat)
    requires Execucao(n, m, es, xs) && i < |xs|
    ensures forall c: nat :: Ocorrencias(es[i], c) <= Um(c < n)
    ensures xs[i].Pegar? && es[i].fila[0] == None ==> forall j :: 0 <= j < |es[i].fila| ==> es[i].fila[j] == None
    ensures forall w :: 0 <= w < m && |es[i].trab| == m && es[i].trab[w] == Parado ==>
      |es[i + 1].trab| == m && es[i + 1].trab[w] == Parado
  {
    var k := ExecucaoInv(n, m, es, xs, i);
  }

  // ---------------------------------------------------------------- what is reported

  /** The message that a step sends: the rows of the cell that a worker finished, or the failure
      of the one it gave up. */
  function Enviada(s: Estado, x: Acao): seq<Msg> {
    match x
    case Terminar(i, ls) => if i < |s.trab| && s.trab[i].Com? then [MsgOk(s.trab[i].c, ls)] else []
    case Falhar(i) => if i < |s.trab| && s.trab[i].Com? then [MsgErro(s.trab[i].c)] else []
    case _ => []
  }

  /** The messages of the first k steps of a run, in order. */
  function Enviadas(es: seq<Estado>, xs: seq<Acao>, k: nat): seq<Msg>
    requires k <= |xs| && |es| == |xs| + 1
  {
    if k == 0 then [] else Enviadas(es, xs, k - 1) + Enviada(es[k - 1], xs[k - 1])
  }

  lemma PassoMensagens(n: nat, s: Estado, x: Acao)
    requires Habilitada(n, s, x)
    ensures Aplicar(n, s, x).recebidas + Aplicar(n, s, x).resultados == s.recebidas + s.resultados + Enviada(s, x)
  {
    var s' := Aplicar(n, s, x);
    if x.Receber? {
      assert s.resultados == [s.resultados[0]] + s.resultados[1..];
    } else if x.Pegar? {
      assert s'.recebidas + s'.resultados == s.recebidas + s.resultados + [];
    }
  }

  /** No message is lost, changed or overtaken: those collected and those waiting are, in order,
      what the workers sent, a success with its rows and a failure as a failure. */
  lemma {:induction false} Mensagens(n: nat, m: nat, es: seq<Estado>, xs: seq<Acao>, k: nat)
    requires Execucao(n, m, es, xs) && k <= |xs|
    ensures es[k].recebidas + es[k].resultados == Enviadas(es, xs, k)
  {
    hide Aplicar, Habilitada, Enviada;
    if k == 0 {
      assert es[0] == Inicial(n, m);
    } else {
      Mensagens(n, m, es, xs, k - 1);
      PassoMensagens(n, es[k - 1], xs[k - 1]);
    }
  }

  /** Cells leave the queue in the order in which they were put in. */
  lemma CelulasEmOrdem(n: nat, m: nat, es: seq<Estado>, xs: seq<Acao>, i: nat) returns (k: nat)
    requires Execucao(n, m, es, xs) && i < |xs| && xs[i].Pegar? && es[i].fila != [] && es[i].fila[0].Some?
    ensures es[i].fila[0] == Some(k) && es[i + 1].trab == es[i].trab[xs[i].i := Com(k)]
    ensures Inv(n, m, es[i], k) && Inv(n, m, es[i + 1], k + 1)
  {
    k := ExecucaoInv(n, m, es, xs, i);
    CabecaDaFila(k, n, m - Quantos(es[i].trab, Parado));
    PassoInv(n, m, es[i], xs[i], k);
  }

  // ---------------------------------------------------------------- progress

  lemma {:induction false} TresSituacoes(ts: seq<Trab>)
    ensures Quantos(ts, Livre) + Ocupados(ts) + Quantos(ts, Parado) == |ts|
  {
    if ts != [] { TresSituacoes(ts[1..]); }
  }

  lemma {:induction false} Alguem(ts: seq<Trab>, x: Trab) returns (i: nat)
    requires 0 < Quantos(ts, x)
    ensures i < |ts| && ts[i] == x
  {
    if ts[0] == x { i := 0; } else { i := Alguem(ts[1..], x); i := i + 1; }
  }

  lemma {:induction false} AlguemOcupado(ts: seq<Trab>) returns (i: nat)
    requires 0 < Ocupados(ts)
    ensures i < |ts| && ts[i].Com?
  {
    if ts[0].Com? { i := 0; } else { i := AlguemOcupado(ts[1..]); i := i + 1; }
  }

  /** Everything is done: the collector has its n messages and every worker has stopped. */
  ghost predicate Terminado(n: nat, m: nat, s: Estado) {
    && |s.recebidas| == n && s.resultados == [] && s.fila == []
    && (forall i :: 0 <= i < |s.trab| ==> s.trab[i] == Parado)
    && (forall c: nat :: Sobre(s.recebidas, c) == Um(c < n))
  }

  lemma {:induction false} TodosParados(ts: seq<Trab>, i: nat)
    requires Quantos(ts, Parado) == |ts| && i < |ts|
    ensures ts[i] == Parado && forall c :: Quantos(ts, Com(c)) == 0
  {
    ParadosNoMaximo(ts[1..]);
    if i > 0 { TodosParados(ts[1..], i - 1); }
    else if |ts| > 1 { TodosParados(ts[1..], 0); }
  }

  lemma {:induction false} ParadosNoMaximo(ts: seq<Trab>)
    ensures Quantos(ts, Parado) <= |ts|
  {
    if ts != [] { ParadosNoMaximo(ts[1..]); }
  }

  /** With a worker, a run that cannot be continued is done. */
  lemma SemImpasse(n: nat, m: nat, s: Estado, k: nat)
    requires 0 < m && Inv(n, m, s, k) && forall x :: !Habilitada(n, s, x)
    ensures Terminado(n, m, s)
  {
    TresSituacoes(s.trab);
    if Ocupados(s.trab) > 0 {
      var i := AlguemOcupado(s.trab);
      assert Habilitada(n, s, Falhar(i));
    }
    assert Quantos(s.trab, Livre) > 0 ==> s.fila != [];
    if Quantos(s.trab, Livre) > 0 {
      var i := Alguem(s.trab, Livre);
      assert Habilitada(n, s, Pegar(i));
    }
    assert !Habilitada(n, s, Receber);
    forall i | 0 <= i < m ensures s.trab[i] == Parado { TodosParados(s.trab, i); }
    forall c: nat ensures Sobre(s.recebidas, c) == Um(c < n) {
      TodosParados(s.trab, 0);
      assert Ocorrencias(s, c) == Um(c < k);
    }
  }

  /** Steps still possible, at most. */
  function Medida(s: Estado): nat { 3 * |s.fila| + 2 * Ocupados(s.trab) + |s.resultados| }

  lemma PassoDesce(n: nat, s: Estado, x: Acao)
    requires Habilitada(n, s, x)
    ensures Medida(Aplicar(n, s, x)) < Medida(s)
  {
    if !x.Receber? { TrocarTrab(s.trab, x.i, Aplicar(n, s, x).trab[x.i], Parado); }
  }

  lemma {:induction false} RunCurto(n: nat, m: nat, es: seq<Estado>, xs: seq<Acao>, i: nat)
    requires Execucao(n, m, es, xs) && i < |es|
    ensures i + Medida(es[i]) <= 3 * (n + m)
  {
    if i == 0 {
      TodosLivres(m, Parado);
    } else {
      RunCurto(n, m, es, xs, i - 1);
      PassoDesce(n, es[i - 1], xs[i - 1]);
    }
  }

  /** A run that no step continues. */
  ghost predicate Completa(n: nat, m: nat, es: seq<Estado>, xs: seq<Acao>) {
    Execucao(n, m, es, xs) && forall x :: !Habilitada(n, es[|xs|], x)
  }

  /** Every run is finite, and with at least one worker it ends with every cell reported
      exactly once, every worker stopped by one sentinel and both queues empty. */
  lemma Progresso(n: nat, m: nat, es: seq<Estado>, xs: seq<Acao>)
    requires Execucao(n, m, es, xs)
    ensures |xs| <= 3 * (n + m)
    ensures 0 < m && Completa(n, m, es, xs) ==> Terminado(n, m, es[|xs|])
  {
    RunCurto(n, m, es, xs, |xs|);
    var k := ExecucaoInv(n, m, es, xs, |xs|);
    if 0 < m && Completa(n, m, es, xs) { SemImpasse(n, m, es[|xs|], k); }
  }

  /** The collector's loop completes in every run if and only if there is a worker or there
      is nothing to do. */
  lemma ColetorTermina(n: nat, m: nat)
    ensures (forall es: seq<Estado>, xs: seq<Acao> :: Completa(n, m, es, xs) ==> |es[|xs|].recebidas| == n) <==> (0 < m || n == 0)
  {
    if 0 < m || n == 0 {
      forall es: seq<Estado>, xs: seq<Acao> | Completa(n, m, es, xs) ensures |es[|xs|].recebidas| == n {
        Progresso(n, m, es, xs);
        var k := ExecucaoInv(n, m, es, xs, |xs|);
      }
    } else {
      assert Completa(n, m, [Inicial(n, m)], []);
    }
  }
}
