/** The compression policy of bench/perfil_dataset.py: the monthly net value of a policy for
    one class of files, the evaluation of asynchronous recompression, and the choice among
    them.  Money and rates are exact reals. */
module Politica {
  import opened Base

  const GB_H_POR_MBPS: real := 3.6

  /** The client's parameters; `cpuHash` is what hashing a gigabyte costs. */
  datatype Parametros = Parametros(volume: real, ret: real, meses: real, preco: real, movimento: real, passagens: real,
                                   leituras: real, idade: real, cpuHash: real)

  /** A class of files: its share of the volume, and the fractions that are duplicates and
      non-base members of families. */
  datatype Classe = Classe(share: real, dup: real, fam: real)

  /** A codec on this class: the fraction it saves, and what compressing and decompressing a
      gigabyte with it cost. */
  datatype Codec = Codec(s: real, comp: real, dec: real)

  datatype Sincrono = Guardado | Zstd3

  /** A policy; `assinc` is the index of a candidate for recompression. */
  datatype Politica = Politica(sinc: Sincrono, assinc: Option<nat>)

  /** The costs and gains of a policy, per month. */
  datatype Avaliacao = Avaliacao(arm: real, armAs: real, mov: real, cpu: real, hash: real, delta: real, cpuAs: real)
  {
    function Liquido(): real { arm + armAs + mov - cpu - (hash + delta + cpuAs) }
  }

  /** The evaluation of one recompression candidate. */
  datatype Assincrona = Assincrona(ganhoMes: real, repack: real, mEstrela: Option<real>, vida: real, valor: real, paga: bool)

  /** Everything a choice depends on. */
  datatype Caso = Caso(P: Parametros, c: Classe, z3: Codec, cands: seq<Codec>, rd: Option<real>, usarDedup: bool, usarDelta: bool)
  {
    /** What is divided by is positive. */
    predicate Valid() { 0.0 < P.ret && 0.0 < P.meses }

    /** Prices and volumes are not negative, and at most everything is a duplicate. */
    predicate Economico() {
      && 0.0 <= P.volume && 0.0 <= c.share && 0.0 <= P.leituras && c.dup <= 1.0 && 0.0 <= z3.dec
      && forall i :: 0 <= i < |cands| ==> 0.0 <= cands[i].comp
    }

    function Gb(): real { P.volume / 1000000000.0 * c.share }
    function Retido(): real { P.ret * Gb() }
    function Dup(): real { if usarDedup then c.dup else 0.0 }
    function Phi(): real { if usarDelta && rd.Some? then c.fam else 0.0 }
    function FatorDelta(): real { if rd.Some? && Phi() > 0.0 then 1.0 - Phi() * (1.0 - rd.value) else 1.0 }
    function Vida(): real { if P.meses - P.idade > 0.0 then P.meses - P.idade else 0.0 }

    predicate Aceita(pol: Politica) { pol.assinc.Some? ==> pol.assinc.value < |cands| }
  }

  /** cpu_gb: what a gigabyte costs at a throughput in megabytes per second. */
  function CpuGb(preco: real, mbps: real, ef: real): real
    requires 0.0 < mbps && 0.0 < ef
  {
    assert 0.0 < mbps * ef;
    preco / (mbps * ef * GB_H_POR_MBPS)
  }

  /** In an hour a core gets through 3.6 gigabytes for every megabyte per second. */
  lemma CpuPorHora(preco: real, mbps: real, ef: real)
    requires 0.0 < mbps && 0.0 < ef
    ensures CpuGb(preco, mbps, ef) * (3.6 * mbps * ef) == preco
  {
    assert 0.0 < mbps * ef;
    assert mbps * ef * GB_H_POR_MBPS == 3.6 * mbps * ef;
  }

  /** A codec from its measured throughputs. */
  function DeVazoes(s: real, mbpsComp: real, mbpsDec: real, preco: real, ef: real): Codec
    requires 0.0 < mbpsComp && 0.0 < mbpsDec && 0.0 < ef
  {
    Codec(s, CpuGb(preco, mbpsComp, ef), CpuGb(preco, mbpsDec, ef))
  }

  /** The three terms of linha_modelo_cliente: storage, movement and processor time. */
  function Armazenagem(s: real, retido: real, preco: real, meses: real): real { s * retido * preco * meses }

  function Movimentacao(s: real, gb: real, movimento: real, passagens: real): real { s * gb * movimento * passagens }

  function Processamento(gb: real, comp: real, leituras: real, dec: real): real { gb * comp + gb * leituras * dec }

  /** linha_modelo_cliente. */
  function Linha(k: Caso, sArm: real, sMov: real, comprime: bool): (real, real, real)
    requires k.Valid()
  {
    (Armazenagem(sArm, k.Retido(), k.P.preco, k.P.meses),
     Movimentacao(sMov, k.Gb(), k.P.movimento, k.P.passagens),
     if !comprime then 0.0 else Processamento(k.Gb(), k.z3.comp, k.P.leituras, k.z3.dec))
  }

  /** What recompressing a gigabyte costs: reading it back and compressing it again. */
  function Repack(k: Caso, d: Codec): real
  {
    (1.0 - k.Dup()) * (k.z3.dec + d.comp)
  }

  /** Reads per retained gigabyte and month. */
  function Taxa(k: Caso): real
    requires k.Valid()
  {
    assert 0.0 < k.P.ret * k.P.meses;
    k.P.leituras / (k.P.ret * k.P.meses)
  }

  /** How much dearer a read becomes. */
  function LeituraExtra(k: Caso, d: Codec): real
  {
    d.dec - k.z3.dec
  }

  /** What storage a recompressed gigabyte saves per month. */
  function Ganho(k: Caso, d: Codec): real {
    (d.s - k.z3.s) * (1.0 - k.Dup()) * k.FatorDelta() * k.P.preco
  }

  /** The recompression terms of avaliar_classe, for a candidate. */
  function Recomprimir(k: Caso, d: Codec): (real, real)
    requires k.Valid()
  {
    var esc := (1.0 - k.Dup()) * k.FatorDelta();
    ((d.s - k.z3.s) * esc * k.Retido() * k.Vida() * k.P.preco,
     k.Retido() * Repack(k, d) + k.Retido() * Taxa(k) * LeituraExtra(k, d) * k.Vida())
  }

  /** The fraction of storage a synchronous policy saves. */
  function EconomiaArm(k: Caso, sinc: Sincrono): real {
    match sinc
    case Guardado => 1.0 - (1.0 - k.Dup()) * (1.0 - 0.0) * 1.0
    case Zstd3 => 1.0 - (1.0 - k.Dup()) * (1.0 - k.z3.s) * k.FatorDelta()
  }

  function CpuHash(k: Caso): real
    requires k.Valid()
  {
    if k.usarDedup then k.Gb() * k.P.cpuHash else 0.0
  }

  function CpuDelta(k: Caso, sinc: Sincrono): real
    requires k.Valid()
  {
    if sinc.Zstd3? && k.Phi() > 0.0 then k.Gb() * (1.0 - k.Dup()) * k.Phi() * k.z3.comp else 0.0
  }

  /** The part of avaliar_classe that does not depend on recompression. */
  function SemRecompressao(k: Caso, sinc: Sincrono): Avaliacao
    requires k.Valid()
  {
    var (arm, mov, cpu) := Linha(k, EconomiaArm(k, sinc), if sinc.Guardado? then 0.0 else k.z3.s, sinc.Zstd3?);
    Avaliacao(arm, 0.0, mov, cpu, CpuHash(k), CpuDelta(k, sinc), 0.0)
  }

  /** avaliar_classe. */
  function AvaliarClasse(k: Caso, pol: Politica): Avaliacao
    requires k.Valid() && k.Aceita(pol)
  {
    var b := SemRecompressao(k, pol.sinc);
    if pol.sinc.Zstd3? && pol.assinc.Some? then
      var (armAs, cpuAs) := Recomprimir(k, k.cands[pol.assinc.value]);
      b.(armAs := armAs, cpuAs := cpuAs)
    else b
  }

  /** The figures reported for a candidate: ds is what it saves beyond zstd-3. */
  function Relatar(ds: real, ganhoMes: real, extra: real, repack: real, vida: real): Assincrona {
    var denom := ganhoMes - extra;
    var mEstrela := if denom > 0.0 && ds > 0.0 then Some(repack / denom) else None;
    var valor := denom * vida - repack;
    Assincrona(ganhoMes, repack, mEstrela, vida, valor, mEstrela.Some? && mEstrela.value < vida && valor > 0.0)
  }

  /** One turn of the loop of avaliar_assincrono. */
  function AvaliarUm(k: Caso, d: Codec): Assincrona
    requires k.Valid()
  {
    Relatar(d.s - k.z3.s, Ganho(k, d), Taxa(k) * LeituraExtra(k, d), Repack(k, d), k.Vida())
  }

  /** avaliar_assincrono. */
  function AvaliarAssincrono(k: Caso): (av: seq<Assincrona>)
    requires k.Valid()
    ensures |av| == |k.cands| && forall i :: 0 <= i < |av| ==> av[i] == AvaliarUm(k, k.cands[i])
  {
    seq(|k.cands|, i requires 0 <= i < |k.cands| => AvaliarUm(k, k.cands[i]))
  }

  /** max(bons, key=valor) over the first n candidates: the first of the best that pay. */
  function Melhor(av: seq<Assincrona>, n: nat): (m: Option<nat>)
    requires n <= |av|
    ensures m.None? <==> forall i :: 0 <= i < n ==> !av[i].paga
    ensures m.Some? ==> m.value < n && av[m.value].paga
    ensures m.Some? ==> forall i :: 0 <= i < n && av[i].paga ==> av[i].valor <= av[m.value].valor
    ensures m.Some? ==> forall i :: 0 <= i < m.value && av[i].paga ==> av[i].valor < av[m.value].valor
  {
    if n == 0 then None
    else
      var m := Melhor(av, n - 1);
      if av[n - 1].paga && (m.None? || av[n - 1].valor > av[m.value].valor) then Some(n - 1) else m
  }

  const GUARDADO := Politica(Guardado, None)
  const ZSTD3 := Politica(Zstd3, None)

  /** liquido_usd_mes of a policy. */
  function Valor(k: Caso, pol: Politica): real
    requires k.Valid() && k.Aceita(pol)
  {
    AvaliarClasse(k, pol).Liquido()
  }

  /** The figures a choice is made from: the net values of storing and of zstd-3, what zstd-3
      saves, the gigabytes retained, and for each candidate what it saves and its evaluation. */
  datatype Numeros = Numeros(guardado: real, zstd3: real, s3: real, retido: real, ganhos: seq<real>, av: seq<Assincrona>)

  function NumerosDe(k: Caso): Numeros
    requires k.Valid()
  {
    Numeros(Valor(k, GUARDADO), Valor(k, ZSTD3), k.z3.s, k.Retido(),
            seq(|k.cands|, i requires 0 <= i < |k.cands| => k.cands[i].s), AvaliarAssincrono(k))
  }

  /** escolher_politica. */
  function Escolher(n: Numeros): Politica {
    if !(n.zstd3 > n.guardado) || n.s3 <= 0.0 then GUARDADO
    else
      var m := Melhor(n.av, |n.av|);
      if m.Some? then Politica(Zstd3, m) else ZSTD3
  }

  // ---------------------------------------------------------------- the evaluations agree

  /** A value per retained gigabyte, over all gigabytes retained. */
  function Total(retido: real, porGb: real): real { retido * porGb }

  /** The net value of zstd-3 and, on top of it, of a recompression. */
  function ComRecompressao(zstd3: real, retido: real, porGb: real): real { zstd3 + Total(retido, porGb) }

  lemma Fatorar(ds: real, d1: real, fd: real, r: real, l: real, p: real, repack: real, taxa: real, dcd: real)
    ensures ds * (d1 * fd) * r * l * p - (r * repack + r * taxa * dcd * l)
         == Total(r, (ds * d1 * fd * p - taxa * dcd) * l - repack)
  {
  }

  lemma RecomprimirVale(k: Caso, d: Codec)
    requires k.Valid()
    ensures Recomprimir(k, d).0 - Recomprimir(k, d).1 == Total(k.Retido(), AvaliarUm(k, d).valor)
  {
    hide Caso.Dup, Caso.FatorDelta, Caso.Retido, Caso.Vida, LeituraExtra, Repack, Taxa;
    Fatorar(d.s - k.z3.s, 1.0 - k.Dup(), k.FatorDelta(), k.Retido(), k.Vida(), k.P.preco, Repack(k, d), Taxa(k), LeituraExtra(k, d));
  }

  lemma SomaDaRecompressao(b: Avaliacao, x: real, y: real)
    requires b.armAs == b.cpuAs == 0.0
    ensures b.(armAs := x, cpuAs := y).Liquido() == b.Liquido() + (x - y)
  {
  }

  /** Recompressing to candidate i is worth, on top of zstd-3 alone, its value per retained
      gigabyte times the gigabytes retained. */
  lemma ValorDaRecompressao(k: Caso, i: nat)
    requires k.Valid() && i < |k.cands|
    ensures Valor(k, Politica(Zstd3, Some(i))) ==
      ComRecompressao(Valor(k, ZSTD3), k.Retido(), AvaliarAssincrono(k)[i].valor)
  {
    var d := k.cands[i];
    RecomprimirVale(k, d);
    SomaDaRecompressao(SemRecompressao(k, Zstd3), Recomprimir(k, d).0, Recomprimir(k, d).1);
  }

  // ---------------------------------------------------------------- what "pays" means

  lemma QuocienteNaoNegativo(a: real, b: real)
    requires 0.0 <= a && 0.0 < b
    ensures 0.0 <= a / b
  {
  }

  lemma ProdutoNaoNegativo(a: real, b: real)
    requires 0.0 <= a && 0.0 <= b
    ensures 0.0 <= a * b
  {
  }

  /** A recompression costs something or nothing, never less. */
  lemma RepackNaoNegativo(k: Caso, d: Codec)
    requires k.Economico() && 0.0 <= d.comp
    ensures 0.0 <= Repack(k, d)
  {
    ProdutoNaoNegativo(1.0 - k.Dup(), k.z3.dec + d.comp);
  }

  /** The break-even time is within the remaining life exactly when the value is positive. */
  lemma EquilibrioDentroDaVida(repack: real, denom: real, vida: real)
    requires denom > 0.0
    ensures repack / denom < vida <==> denom * vida - repack > 0.0
  {
    var m := repack / denom;
    assert m * denom == repack;
    if m < vida {
      assert (vida - m) * denom > 0.0;
    } else {
      assert (m - vida) * denom >= 0.0;
    }
  }

  lemma SemDenominador(repack: real, denom: real, vida: real)
    requires denom <= 0.0 && 0.0 <= repack && 0.0 <= vida
    ensures denom * vida - repack <= 0.0
  {
    ProdutoNaoNegativo(-denom, vida);
    assert (-denom) * vida == -(denom * vida);
  }

  /** A candidate is reported to pay exactly when it saves more than zstd-3 and its value is
      positive; and where a break-even time exists, it lies within the remaining life exactly
      when the value is positive. */
  lemma QuandoPaga(k: Caso, d: Codec)
    requires k.Valid() && k.Economico() && 0.0 <= d.comp
    ensures var a := AvaliarUm(k, d);
      && (a.paga <==> d.s > k.z3.s && a.valor > 0.0)
      && (a.mEstrela.Some? ==> (a.mEstrela.value < a.vida <==> a.valor > 0.0))
  {
    hide Ganho, LeituraExtra, Repack, Taxa;
    RepackNaoNegativo(k, d);
    RelatoPaga(d.s - k.z3.s, Ganho(k, d), Taxa(k) * LeituraExtra(k, d), Repack(k, d), k.Vida());
  }

  lemma RelatoPaga(ds: real, ganhoMes: real, extra: real, repack: real, vida: real)
    requires 0.0 <= repack && 0.0 <= vida
    ensures var a := Relatar(ds, ganhoMes, extra, repack, vida);
      && (a.paga <==> ds > 0.0 && a.valor > 0.0)
      && (a.mEstrela.Some? ==> (a.mEstrela.value < vida <==> a.valor > 0.0))
  {
    if ganhoMes - extra > 0.0 {
      EquilibrioDentroDaVida(repack, ganhoMes - extra, vida);
    } else {
      SemDenominador(repack, ganhoMes - extra, vida);
    }
  }

  // ---------------------------------------------------------------- what a policy costs

  /** A class's share of the volume, in gigabytes. */
  function Gigabytes(k: Caso): real { k.P.volume * k.c.share / 1000000000.0 }

  /** What is left after duplicates, where they are looked for. */
  function Resto(k: Caso): real { if k.usarDedup then 1.0 - k.c.dup else 1.0 }

  /** The members of families, where deltas are used and their size was measured. */
  function Membros(k: Caso): real { if k.usarDelta && k.rd.Some? then k.c.fam else 0.0 }

  /** Their deltas take the measured fraction of their space. */
  function ComDeltas(k: Caso): real { if Membros(k) > 0.0 then 1.0 - Membros(k) + Membros(k) * k.rd.value else 1.0 }

  /** The space that a codec leaves which saves s. */
  function Espaco(k: Caso, s: real): real { Resto(k) * ComDeltas(k) * (1.0 - s) }

  /** The months after the recompression, and those before it. */
  function Depois(k: Caso): real { if k.P.idade < k.P.meses then k.P.meses - k.P.idade else 0.0 }

  function Antes(k: Caso): real { k.P.meses - Depois(k) }

  /** Storing the fraction f of what is retained for m months. */
  function CustoGuarda(k: Caso, f: real, m: real): real { Gigabytes(k) * k.P.ret * k.P.preco * f * m }

  /** Moving what a codec leaves that saves s. */
  function CustoMovimento(k: Caso, s: real): real { Gigabytes(k) * (1.0 - s) * k.P.movimento * k.P.passagens }

  /** The reads that fall in m of the months, at a price. */
  function CustoLeituras(k: Caso, dec: real, m: real): real
    requires k.Valid()
  {
    Gigabytes(k) * k.P.leituras * dec * m / k.P.meses
  }

  function CustoResumos(k: Caso): real { if k.usarDedup then Gigabytes(k) * k.P.cpuHash else 0.0 }

  /** What zstd-3 costs whatever happens later: movement, compression, hashing, and deltas. */
  function CustoSincrono(k: Caso): real {
    CustoMovimento(k, k.z3.s) + Gigabytes(k) * k.z3.comp + CustoResumos(k)
    + if Membros(k) > 0.0 then Gigabytes(k) * Resto(k) * Membros(k) * k.z3.comp else 0.0
  }

  /** All that is retained and not duplicate is read back and compressed again. */
  function CustoRecompressao(k: Caso, d: Codec): real { Gigabytes(k) * k.P.ret * Resto(k) * (k.z3.dec + d.comp) }

  /** A month's bill of a policy, from the parameters alone.  With a recompression the space and
      the reads are those of zstd-3 until then and those of the new codec from then on. */
  function Custo(k: Caso, pol: Politica): real
    requires k.Valid() && k.Aceita(pol)
  {
    if pol.sinc.Guardado? then CustoGuarda(k, Resto(k), k.P.meses) + CustoMovimento(k, 0.0) + CustoResumos(k)
    else if pol.assinc.None? then
      CustoGuarda(k, Espaco(k, k.z3.s), k.P.meses) + CustoSincrono(k) + CustoLeituras(k, k.z3.dec, k.P.meses)
    else
      var d := k.cands[pol.assinc.value];
      CustoGuarda(k, Espaco(k, k.z3.s), Antes(k)) + CustoGuarda(k, Espaco(k, d.s), Depois(k)) + CustoSincrono(k)
      + CustoLeituras(k, k.z3.dec, Antes(k)) + CustoLeituras(k, d.dec, Depois(k)) + CustoRecompressao(k, d)
  }

  /** What it costs to keep and move everything as it is. */
  function CustoBruto(k: Caso): real { CustoGuarda(k, 1.0, k.P.meses) + CustoMovimento(k, 0.0) }

  /** The quantities of the evaluation are those of the bill. */
  lemma Quantidades(k: Caso)
    requires k.Valid()
    ensures Gigabytes(k) == k.Gb() && Resto(k) == 1.0 - k.Dup() && Membros(k) == k.Phi()
    ensures ComDeltas(k) == k.FatorDelta() && CustoResumos(k) == CpuHash(k) && Depois(k) == k.Vida()
  {
    GbEh(k);
    assert Membros(k) > 0.0 ==> Membros(k) * k.rd.value == Membros(k) - Membros(k) * (1.0 - k.rd.value);
  }

  lemma GbEh(k: Caso)
    ensures k.Gb() == Gigabytes(k)
  {
  }

  lemma GuardaPoupa(k: Caso, f: real, s: real)
    requires s == 1.0 - f && k.Gb() == Gigabytes(k)
    ensures Armazenagem(s, k.Retido(), k.P.preco, k.P.meses) == CustoGuarda(k, 1.0, k.P.meses) - CustoGuarda(k, f, k.P.meses)
  {
    hide Caso.Gb, Gigabytes;
    var u := Gigabytes(k) * k.P.ret * k.P.preco;
    assert Armazenagem(s, k.Retido(), k.P.preco, k.P.meses) == u * (1.0 - f) * k.P.meses;
    assert u * (1.0 - f) * k.P.meses == u * 1.0 * k.P.meses - u * f * k.P.meses;
  }

  lemma MovimentoPoupa(k: Caso, s: real)
    requires k.Gb() == Gigabytes(k)
    ensures Movimentacao(s, k.Gb(), k.P.movimento, k.P.passagens) == CustoMovimento(k, 0.0) - CustoMovimento(k, s)
  {
    hide Caso.Gb, Gigabytes;
  }

  lemma LeiturasDeTodos(k: Caso, dec: real)
    requires k.Valid() && k.Gb() == Gigabytes(k)
    ensures CustoLeituras(k, dec, k.P.meses) == k.Gb() * k.P.leituras * dec
  {
    hide Caso.Gb, Gigabytes;
    var x := Gigabytes(k) * k.P.leituras * dec;
    assert x * k.P.meses / k.P.meses == x;
  }

  lemma GuardadoCusta(k: Caso)
    requires k.Valid()
    ensures Valor(k, GUARDADO) == CustoBruto(k) - Custo(k, GUARDADO)
  {
    hide Armazenagem, Movimentacao, CustoGuarda, CustoMovimento, Gigabytes, Resto, Membros, ComDeltas, CustoResumos, Depois;
    hide Caso.Gb, Caso.Dup, CpuHash, Caso.Retido;
    Quantidades(k);
    assert EconomiaArm(k, Guardado) == 1.0 - Resto(k);
    GuardaPoupa(k, Resto(k), EconomiaArm(k, Guardado));
    MovimentoPoupa(k, 0.0);
  }

  lemma EconomiaDeZstd3(k: Caso)
    requires Resto(k) == 1.0 - k.Dup() && ComDeltas(k) == k.FatorDelta()
    ensures EconomiaArm(k, Zstd3) == 1.0 - Espaco(k, k.z3.s)
  {
    hide Resto, ComDeltas, Caso.Dup, Caso.FatorDelta;
    var x, y, z := Resto(k), ComDeltas(k), 1.0 - k.z3.s;
    assert x * z * y == x * y * z;
  }

  lemma DeltasCustam(k: Caso)
    requires k.Valid()
    ensures CpuDelta(k, Zstd3) == if Membros(k) > 0.0 then Gigabytes(k) * Resto(k) * Membros(k) * k.z3.comp else 0.0
  {
    hide Gigabytes, Resto, Membros, Caso.Gb, Caso.Dup, Caso.Phi;
    Quantidades(k);
  }

  lemma Zstd3Custa(k: Caso)
    requires k.Valid()
    ensures Valor(k, ZSTD3) == CustoBruto(k) - Custo(k, ZSTD3)
  {
    hide Armazenagem, Movimentacao, CustoGuarda, CustoMovimento, CustoLeituras, Gigabytes, Resto, Membros, ComDeltas, CustoResumos;
    hide Caso.Gb, Caso.Phi, Caso.Dup, Caso.FatorDelta, CpuHash, Caso.Retido, Espaco, EconomiaArm, CpuDelta, Depois;
    Quantidades(k);
    EconomiaDeZstd3(k);
    GuardaPoupa(k, Espaco(k, k.z3.s), EconomiaArm(k, Zstd3));
    MovimentoPoupa(k, k.z3.s);
    LeiturasDeTodos(k, k.z3.dec);
    DeltasCustam(k);
  }

  /** Storage saved by a recompression. */
  lemma RecompressaoPoupa(k: Caso, d: Codec)
    requires k.Valid()
    ensures Recomprimir(k, d).0 == CustoGuarda(k, Espaco(k, k.z3.s), k.P.meses)
      - CustoGuarda(k, Espaco(k, k.z3.s), Antes(k)) - CustoGuarda(k, Espaco(k, d.s), Depois(k))
  {
    hide Gigabytes, Resto, Membros, ComDeltas, Depois, Caso.Gb, Caso.Phi, Caso.Dup, Caso.FatorDelta, Caso.Vida;
    Quantidades(k);
    var u, e, L := Gigabytes(k) * k.P.ret * k.P.preco, Resto(k) * ComDeltas(k), Depois(k);
    EspacoPoupado(u, e, k.z3.s, d.s, k.P.meses, L);
    assert Recomprimir(k, d).0 == u * ((d.s - k.z3.s) * e * L);
  }

  lemma EspacoPoupado(u: real, e: real, s3: real, sd: real, m: real, L: real)
    ensures u * ((sd - s3) * e * L) == u * (e * (1.0 - s3)) * m - u * (e * (1.0 - s3)) * (m - L) - u * (e * (1.0 - sd)) * L
  {
  }

  /** Reads at two prices, the second in L of T months. */
  lemma LeiturasMudam(ret: real, T: real, g: real, n: real, x: real, y: real, L: real)
    requires 0.0 < ret && 0.0 < T && 0.0 < ret * T
    ensures ret * g * (n / (ret * T)) * (y - x) * L == g * n * x * (T - L) / T + g * n * y * L / T - g * n * x * T / T
  {
    var taxa := n / (ret * T);
    var a, b, c := g * n * x * (T - L) / T, g * n * y * L / T, g * n * x * T / T;
    assert taxa * (ret * T) == n;
    assert a * T == g * n * x * (T - L) && b * T == g * n * y * L && c * T == g * n * x * T;
    var v := ret * g * taxa * (y - x) * L;
    assert v * T == g * (taxa * (ret * T)) * (y - x) * L;
    assert (v - (a + b - c)) * T == 0.0;
  }

  lemma RecompressaoCusta(k: Caso, d: Codec)
    requires k.Valid()
    ensures Recomprimir(k, d).1 == CustoRecompressao(k, d)
      + CustoLeituras(k, k.z3.dec, Antes(k)) + CustoLeituras(k, d.dec, Depois(k)) - CustoLeituras(k, k.z3.dec, k.P.meses)
  {
    hide Gigabytes, Resto, Membros, ComDeltas, Depois, Caso.Gb, Caso.Phi, Caso.Dup, Caso.FatorDelta, Caso.Vida;
    Quantidades(k);
    assert 0.0 < k.P.ret * k.P.meses;
    LeiturasMudam(k.P.ret, k.P.meses, Gigabytes(k), k.P.leituras, k.z3.dec, d.dec, Depois(k));
  }

  /** The net value of every policy is what it saves: the bill for keeping everything as it is
      less the policy's own. */
  lemma ValorEhEconomia(k: Caso, pol: Politica)
    requires k.Valid() && k.Aceita(pol)
    ensures Valor(k, pol) == CustoBruto(k) - Custo(k, pol)
  {
    hide SemRecompressao, Recomprimir, CustoBruto, CustoGuarda, CustoMovimento, CustoLeituras, CustoSincrono, CustoRecompressao;
    hide Espaco, Antes, Depois, Resto, CustoResumos;
    GuardadoCusta(k);
    Zstd3Custa(k);
    if pol.sinc.Zstd3? && pol.assinc.Some? {
      var d := k.cands[pol.assinc.value];
      RecompressaoPoupa(k, d);
      RecompressaoCusta(k, d);
      SemRecompressaoNada(k, Zstd3);
      SomaDaRecompressao(SemRecompressao(k, Zstd3), Recomprimir(k, d).0, Recomprimir(k, d).1);
    }
  }

  /** What is reported of a candidate, per retained gigabyte: the recompression's cost, what a
      month of storage saves, the months left, and a break-even time at which the savings,
      dearer reads counted, have paid the cost. */
  lemma Relatorio(k: Caso, d: Codec)
    requires k.Valid()
    ensures var a := AvaliarUm(k, d);
      && Gigabytes(k) * k.P.ret * a.repack == CustoRecompressao(k, d)
      && Gigabytes(k) * k.P.ret * a.ganhoMes == CustoGuarda(k, Espaco(k, k.z3.s), 1.0) - CustoGuarda(k, Espaco(k, d.s), 1.0)
      && a.vida == Depois(k)
      && (a.mEstrela.Some? ==> (a.ganhoMes - Taxa(k) * LeituraExtra(k, d)) * a.mEstrela.value == a.repack)
  {
    hide Gigabytes, Resto, Membros, ComDeltas, Depois, Caso.Gb, Caso.Phi, Caso.Dup, Caso.FatorDelta, Caso.Vida, Taxa;
    Quantidades(k);
    var u, e := Gigabytes(k) * k.P.ret, Resto(k) * ComDeltas(k);
    assert AvaliarUm(k, d).ganhoMes == (d.s - k.z3.s) * e * k.P.preco;
    assert u * ((d.s - k.z3.s) * e * k.P.preco) == u * k.P.preco * (e * (1.0 - k.z3.s)) * 1.0 - u * k.P.preco * (e * (1.0 - d.s)) * 1.0;
  }

  lemma SemRecompressaoNada(k: Caso, sinc: Sincrono)
    requires k.Valid()
    ensures SemRecompressao(k, sinc).armAs == SemRecompressao(k, sinc).cpuAs == 0.0
  {
  }

  // ---------------------------------------------------------------- the figures of a case

  lemma RetidoNaoNegativo(k: Caso)
    requires k.Valid() && k.Economico()
    ensures 0.0 <= k.Retido()
  {
    ProdutoNaoNegativo(k.P.volume / 1000000000.0, k.c.share);
    ProdutoNaoNegativo(k.P.ret, k.Gb());
  }

  /** What the figures of every case obey. */
  ghost predicate Coerentes(n: Numeros) {
    && 0.0 <= n.retido && |n.ganhos| == |n.av|
    && forall i :: 0 <= i < |n.av| ==> (n.av[i].paga <==> n.ganhos[i] > n.s3 && n.av[i].valor > 0.0)
  }

  /** The net value of a policy, read off the figures. */
  function ValorEm(n: Numeros, pol: Politica): real
    requires pol.assinc.Some? ==> pol.assinc.value < |n.av|
  {
    if pol.sinc.Guardado? then n.guardado
    else if pol.assinc.None? then n.zstd3
    else ComRecompressao(n.zstd3, n.retido, n.av[pol.assinc.value].valor)
  }

  lemma NumerosCoerentes(k: Caso)
    requires k.Valid() && k.Economico()
    ensures Coerentes(NumerosDe(k))
  {
    RetidoNaoNegativo(k);
    forall i | 0 <= i < |k.cands|
      ensures AvaliarUm(k, k.cands[i]).paga <==> k.cands[i].s > k.z3.s && AvaliarUm(k, k.cands[i]).valor > 0.0
    {
      QuandoPaga(k, k.cands[i]);
    }
  }

  lemma ConcordaGuardado(k: Caso, pol: Politica)
    requires k.Valid() && k.Aceita(pol) && pol.sinc.Guardado?
    ensures Valor(k, pol) == Valor(k, GUARDADO)
  {
  }

  lemma ConcordaZstd3(k: Caso, pol: Politica)
    requires k.Valid() && pol.sinc.Zstd3? && pol.assinc.None?
    ensures Valor(k, pol) == Valor(k, ZSTD3)
  {
    assert pol == ZSTD3;
  }

  lemma ConcordaAssincrona(k: Caso, pol: Politica)
    requires k.Valid() && k.Aceita(pol) && pol.sinc.Zstd3? && pol.assinc.Some?
    ensures Valor(k, pol) ==
      ComRecompressao(Valor(k, ZSTD3), k.Retido(), AvaliarAssincrono(k)[pol.assinc.value].valor)
  {
    assert pol == Politica(Zstd3, Some(pol.assinc.value));
    ValorDaRecompressao(k, pol.assinc.value);
  }

  /** The evaluation of any policy agrees with the figures the choice is made from. */
  lemma AvaliacoesConcordam(k: Caso, pol: Politica)
    requires k.Valid() && k.Aceita(pol)
    ensures Valor(k, pol) == ValorEm(NumerosDe(k), pol)
  {
    hide SemRecompressao, AvaliarUm;
    if pol.sinc.Guardado? {
      ConcordaGuardado(k, pol);
      assert ValorEm(NumerosDe(k), pol) == NumerosDe(k).guardado;
    } else if pol.assinc.None? {
      ConcordaZstd3(k, pol);
      assert ValorEm(NumerosDe(k), pol) == NumerosDe(k).zstd3;
    } else {
      ConcordaAssincrona(k, pol);
    }
  }

  predicate Cabe(n: Numeros, pol: Politica) { pol.assinc.Some? ==> pol.assinc.value < |n.av| }

  // ---------------------------------------------------------------- the choice

  /** The value per gigabyte of the recompression chosen, zero if none. */
  function Escolhido(n: Numeros): (v: real)
    requires Coerentes(n)
    ensures 0.0 <= v && forall i :: 0 <= i < |n.av| && n.av[i].paga ==> n.av[i].valor <= v
  {
    var m := Melhor(n.av, |n.av|);
    if m.Some? then n.av[m.value].valor else 0.0
  }

  lemma ValorDaEscolha(n: Numeros)
    requires Coerentes(n) && Escolher(n).sinc.Zstd3?
    ensures ValorEm(n, Escolher(n)) == (if Escolher(n) == ZSTD3 then n.zstd3 else ComRecompressao(n.zstd3, n.retido, Escolhido(n)))
    ensures Escolher(n) == ZSTD3 ==> Escolhido(n) == 0.0
    ensures n.zstd3 > n.guardado && n.s3 > 0.0
  {
  }

  lemma MaiorProduto(r: real, v: real, w: real)
    requires 0.0 <= r && v <= w
    ensures Total(r, v) <= Total(r, w)
  {
    ProdutoNaoNegativo(r, w - v);
    assert r * (w - v) == r * w - r * v;
  }

  /** When zstd-3 is kept the choice beats storing, and it is the best of plain zstd-3 and of
      all candidates that save more than it does. */
  lemma MelhorDosCandidatos(n: Numeros, pol: Politica)
    requires Coerentes(n) && Escolher(n).sinc.Zstd3? && Cabe(n, pol)
    requires pol.sinc.Zstd3? && pol.assinc.Some? ==> n.ganhos[pol.assinc.value] > n.s3
    ensures ValorEm(n, pol) <= ValorEm(n, Escolher(n))
  {
    ValorDaEscolha(n);
    var v := Escolhido(n);
    MaiorProduto(n.retido, 0.0, v);
    if pol.sinc.Zstd3? && pol.assinc.Some? {
      MaiorProduto(n.retido, n.av[pol.assinc.value].valor, v);
    }
  }

  /** The choice is never worse than storing uncompressed. */
  lemma NaoPiorQueGuardado(n: Numeros)
    requires Coerentes(n)
    ensures ValorEm(n, Escolher(n)) >= ValorEm(n, GUARDADO)
  {
    if Escolher(n).sinc.Zstd3? { MelhorDosCandidatos(n, GUARDADO); }
  }

  /** The choice is not worse than plain zstd-3, except in the one case in which the code
      refuses a zstd-3 that pays: when it saves nothing by itself and still beats storing, by
      way of the deltas. */
  lemma QuandoNaoPiorQueZstd3(n: Numeros)
    requires Coerentes(n)
    ensures ValorEm(n, Escolher(n)) >= ValorEm(n, ZSTD3) <==> !(n.s3 <= 0.0 && n.zstd3 > n.guardado)
  {
    if Escolher(n).sinc.Zstd3? { MelhorDosCandidatos(n, ZSTD3); }
  }

  /** The same of every case, in the terms of its evaluation. */
  lemma EscolhaAvaliada(k: Caso)
    requires k.Valid() && k.Economico()
    ensures var pol := Escolher(NumerosDe(k));
      && k.Aceita(pol) && Valor(k, pol) >= Valor(k, GUARDADO)
      && (Valor(k, pol) >= Valor(k, ZSTD3) <==> !(k.z3.s <= 0.0 && Valor(k, ZSTD3) > Valor(k, GUARDADO)))
  {
    hide SemRecompressao, AvaliarUm;
    var n := NumerosDe(k);
    NumerosCoerentes(k);
    NaoPiorQueGuardado(n);
    QuandoNaoPiorQueZstd3(n);
    AvaliacoesConcordam(k, Escolher(n));
  }

  lemma NoCaso(k: Caso, pol: Politica)
    requires k.Valid() && k.Aceita(pol) && Cabe(NumerosDe(k), pol)
    requires ValorEm(NumerosDe(k), pol) <= ValorEm(NumerosDe(k), Escolher(NumerosDe(k)))
    ensures k.Aceita(Escolher(NumerosDe(k))) && Valor(k, pol) <= Valor(k, Escolher(NumerosDe(k)))
  {
    hide SemRecompressao, AvaliarUm;
    AvaliacoesConcordam(k, pol);
    AvaliacoesConcordam(k, Escolher(NumerosDe(k)));
  }

  /** When zstd-3 is kept, no policy is worth more than the choice, save perhaps recompression
      to a candidate that saves no more than zstd-3. */
  lemma MelhorDoCaso(k: Caso, pol: Politica)
    requires k.Valid() && k.Economico() && k.Aceita(pol) && Escolher(NumerosDe(k)).sinc.Zstd3?
    requires pol.sinc.Zstd3? && pol.assinc.Some? ==> k.cands[pol.assinc.value].s > k.z3.s
    ensures k.Aceita(Escolher(NumerosDe(k))) && Valor(k, pol) <= Valor(k, Escolher(NumerosDe(k)))
  {
    hide SemRecompressao, AvaliarUm;
    NumerosCoerentes(k);
    MelhorDosCandidatos(NumerosDe(k), pol);
    NoCaso(k, pol);
  }

  /** Which policy is chosen: storing exactly if zstd-3 is worth no more or saves nothing; else
      zstd-3, recompressed exactly if some candidate saves more than zstd-3 and has a positive
      value, and then to the first of those of the highest value. */
  lemma EscolhaExata(k: Caso)
    requires k.Valid() && k.Economico()
    ensures var pol := Escolher(NumerosDe(k));
      && (pol.sinc.Guardado? <==> Valor(k, ZSTD3) <= Valor(k, GUARDADO) || k.z3.s <= 0.0)
      && (pol.sinc.Guardado? ==> pol.assinc.None?)
      && (pol.sinc.Zstd3? ==> (pol.assinc.Some? <==> exists i :: 0 <= i < |k.cands| && Compensa(k, i)))
      && (pol.assinc.Some? ==>
            && pol.assinc.value < |k.cands| && Compensa(k, pol.assinc.value)
            && (forall i :: 0 <= i < |k.cands| && Compensa(k, i) ==> ValorDe(k, i) <= ValorDe(k, pol.assinc.value))
            && (forall i :: 0 <= i < pol.assinc.value && Compensa(k, i) ==> ValorDe(k, i) < ValorDe(k, pol.assinc.value)))
  {
    hide SemRecompressao, AvaliarUm, Valor;
    var n := NumerosDe(k);
    var m := Melhor(n.av, |n.av|);
    assert n.zstd3 == Valor(k, ZSTD3) && n.guardado == Valor(k, GUARDADO) && |n.av| == |k.cands|;
    forall i | 0 <= i < |k.cands| ensures (n.av[i].paga <==> Compensa(k, i)) && n.av[i].valor == ValorDe(k, i) {
      QuandoPaga(k, k.cands[i]);
    }
  }

  /** What recompressing a retained gigabyte to candidate i is worth. */
  function ValorDe(k: Caso, i: nat): real
    requires k.Valid() && i < |k.cands|
  {
    AvaliarUm(k, k.cands[i]).valor
  }

  predicate Compensa(k: Caso, i: nat)
    requires k.Valid() && i < |k.cands|
  {
    k.cands[i].s > k.z3.s && ValorDe(k, i) > 0.0
  }

  // ---------------------------------------------------------------- candidates that save nothing more

  lemma GanhoNaoPositivo(perda: real, d1: real, fd: real, p: real)
    requires 0.0 <= perda && 0.0 <= d1 && 0.0 <= fd && 0.0 <= p
    ensures (-perda) * d1 * fd * p <= 0.0
  {
    ProdutoNaoNegativo(perda, d1);
    ProdutoNaoNegativo(perda * d1, fd);
    ProdutoNaoNegativo(perda * d1 * fd, p);
    assert (-perda) * d1 == -(perda * d1);
    assert -(perda * d1) * fd == -(perda * d1 * fd);
  }

  lemma DivisorMaior(a: real, x: real, y: real)
    requires 0.0 <= a && 0.0 < x <= y
    ensures a / y <= a / x
  {
    var q, r := a / y, a / x;
    QuocienteNaoNegativo(a, y);
    assert q * y == a && r * x == a;
    MaiorProduto(q, x, y);
    assert q * x <= r * x;
    ComparaFator(q, r, x);
  }

  lemma ComparaFator(q: real, r: real, x: real)
    requires 0.0 < x && q * x <= r * x
    ensures q <= r
  {
  }

  /** Work at a price that is not negative does not cost less than nothing. */
  lemma CpuNaoNegativa(preco: real, mbps: real, ef: real)
    requires 0.0 < mbps && 0.0 < ef && 0.0 <= preco
    ensures 0.0 <= CpuGb(preco, mbps, ef)
  {
    assert 0.0 < mbps * ef;
    QuocienteNaoNegativo(preco, mbps * ef * GB_H_POR_MBPS);
  }

  /** A slower decompressor costs more. */
  lemma MaisLentoCustaMais(preco: real, lento: real, rapido: real, ef: real)
    requires 0.0 <= preco && 0.0 < lento <= rapido && 0.0 < ef
    ensures CpuGb(preco, rapido, ef) <= CpuGb(preco, lento, ef)
  {
    assert 0.0 < lento * ef;
    MaiorProduto(ef, lento, rapido);
    DivisorMaior(preco, lento * ef * GB_H_POR_MBPS, rapido * ef * GB_H_POR_MBPS);
  }

  lemma RelatoSemGanho(ds: real, ganhoMes: real, extra: real, repack: real, vida: real)
    requires ganhoMes <= 0.0 && 0.0 <= extra && 0.0 <= repack && 0.0 <= vida
    ensures Relatar(ds, ganhoMes, extra, repack, vida).valor <= 0.0
  {
    SemDenominador(repack, ganhoMes - extra, vida);
  }

  lemma GanhoDe(k: Caso, d: Codec)
    requires k.Economico() && 0.0 <= k.P.preco && 0.0 <= k.FatorDelta() && d.s <= k.z3.s
    ensures Ganho(k, d) <= 0.0
  {
    GanhoNaoPositivo(k.z3.s - d.s, 1.0 - k.Dup(), k.FatorDelta(), k.P.preco);
  }

  lemma ExtraDe(k: Caso, d: Codec)
    requires k.Valid() && k.Economico() && k.z3.dec <= d.dec
    ensures 0.0 <= Taxa(k) * LeituraExtra(k, d)
  {
    assert 0.0 < k.P.ret * k.P.meses;
    QuocienteNaoNegativo(k.P.leituras, k.P.ret * k.P.meses);
    ProdutoNaoNegativo(Taxa(k), LeituraExtra(k, d));
  }

  /** A candidate that saves no more than zstd-3 and decompresses no cheaper is not worth it. */
  lemma SemGanhoNaoCompensa(k: Caso, d: Codec)
    requires k.Valid() && k.Economico() && 0.0 <= k.P.preco && 0.0 <= k.FatorDelta()
    requires d.s <= k.z3.s && k.z3.dec <= d.dec && 0.0 <= d.comp
    ensures AvaliarUm(k, d).valor <= 0.0
  {
    GanhoDe(k, d);
    ExtraDe(k, d);
    RepackNaoNegativo(k, d);
    RelatoSemGanho(d.s - k.z3.s, Ganho(k, d), Taxa(k) * LeituraExtra(k, d), Repack(k, d), k.Vida());
  }

  /** If the candidates that save no more than zstd-3 are not worth it, the choice is the best
      policy of all. */
  lemma MelhorDeTodas(n: Numeros, pol: Politica)
    requires Coerentes(n) && Escolher(n).sinc.Zstd3? && Cabe(n, pol)
    requires forall i :: 0 <= i < |n.av| && n.ganhos[i] <= n.s3 ==> n.av[i].valor <= 0.0
    ensures ValorEm(n, pol) <= ValorEm(n, Escolher(n))
  {
    if pol.sinc.Zstd3? && pol.assinc.Some? && n.ganhos[pol.assinc.value] <= n.s3 {
      MaiorProduto(n.retido, n.av[pol.assinc.value].valor, 0.0);
      MelhorDosCandidatos(n, ZSTD3);
    } else {
      MelhorDosCandidatos(n, pol);
    }
  }

  /** So it is whenever no such candidate decompresses cheaper than zstd-3. */
  lemma MelhorSemMaisBaratos(k: Caso, pol: Politica)
    requires k.Valid() && k.Economico() && 0.0 <= k.P.preco && 0.0 <= k.FatorDelta() && k.Aceita(pol)
    requires forall i :: 0 <= i < |k.cands| && k.cands[i].s <= k.z3.s ==> k.z3.dec <= k.cands[i].dec
    requires Escolher(NumerosDe(k)).sinc.Zstd3?
    ensures k.Aceita(Escolher(NumerosDe(k))) && Valor(k, pol) <= Valor(k, Escolher(NumerosDe(k)))
  {
    hide SemRecompressao, AvaliarUm;
    var n := NumerosDe(k);
    NumerosCoerentes(k);
    forall i | 0 <= i < |n.av| && n.ganhos[i] <= n.s3 ensures n.av[i].valor <= 0.0 {
      SemGanhoNaoCompensa(k, k.cands[i]);
    }
    MelhorDeTodas(n, pol);
    NoCaso(k, pol);
  }

  /** A codec as measured: the fraction it saves and its throughputs. */
  datatype Medida = Medida(s: real, mbpsComp: real, mbpsDec: real)
  {
    predicate Valid() { 0.0 < mbpsComp && 0.0 < mbpsDec }

    /** The codec at a given price of processor time. */
    function Codec(preco: real, ef: real): Codec
      requires Valid() && 0.0 < ef
    {
      DeVazoes(s, mbpsComp, mbpsDec, preco, ef)
    }
  }

  /** The case's codecs have the measured throughputs, at a price per core-hour. */
  ghost predicate Medido(k: Caso, z3: Medida, cands: seq<Medida>, preco: real, ef: real) {
    && 0.0 <= preco && 0.0 < ef && z3.Valid() && |cands| == |k.cands| && k.z3 == z3.Codec(preco, ef)
    && forall i :: 0 <= i < |cands| ==> cands[i].Valid() && k.cands[i] == cands[i].Codec(preco, ef)
  }

  /** In terms of throughputs: if no candidate that saves no more than zstd-3 decompresses
      faster, the choice is the best policy of all. */
  lemma MelhorSemMaisRapidos(k: Caso, pol: Politica, z3: Medida, cands: seq<Medida>, preco: real, ef: real)
    requires k.Valid() && 0.0 <= k.P.preco && 0.0 <= k.FatorDelta() && k.Aceita(pol)
    requires 0.0 <= k.P.volume && 0.0 <= k.c.share && 0.0 <= k.P.leituras && k.c.dup <= 1.0
    requires Medido(k, z3, cands, preco, ef)
    requires forall i :: 0 <= i < |cands| && cands[i].s <= z3.s ==> cands[i].mbpsDec <= z3.mbpsDec
    requires Escolher(NumerosDe(k)).sinc.Zstd3?
    ensures k.Aceita(Escolher(NumerosDe(k))) && Valor(k, pol) <= Valor(k, Escolher(NumerosDe(k)))
  {
    hide SemRecompressao, AvaliarUm;
    CpuNaoNegativa(preco, z3.mbpsDec, ef);
    forall i | 0 <= i < |k.cands|
      ensures 0.0 <= k.cands[i].comp && (k.cands[i].s <= k.z3.s ==> k.z3.dec <= k.cands[i].dec)
    {
      assert k.cands[i] == cands[i].Codec(preco, ef);
      CpuNaoNegativa(preco, cands[i].mbpsComp, ef);
      if cands[i].s <= z3.s { MaisLentoCustaMais(preco, cands[i].mbpsDec, z3.mbpsDec, ef); }
    }
    MelhorSemMaisBaratos(k, pol);
  }

  // ---------------------------------------------------------------- the exceptional case

  lemma ProdutoNaoPositivo(a: real, b: real)
    requires a <= 0.0 && 0.0 <= b
    ensures a * b <= 0.0
  {
    ProdutoNaoNegativo(-a, b);
    assert (-a) * b == -(a * b);
  }

  /** Without deltas, a zstd-3 that saves nothing saves no storage either. */
  lemma EconomiaSemDeltas(k: Caso)
    requires k.Economico() && k.Phi() <= 0.0 && k.z3.s <= 0.0
    ensures EconomiaArm(k, Zstd3) <= EconomiaArm(k, Guardado)
  {
    ProdutoNaoPositivo(k.z3.s, 1.0 - k.Dup());
    assert (1.0 - k.Dup()) * (1.0 - k.z3.s) == (1.0 - k.Dup()) - k.z3.s * (1.0 - k.Dup());
  }

  /** Prices are not negative anywhere. */
  predicate Precos(k: Caso) {
    0.0 <= k.P.preco && 0.0 <= k.P.movimento && 0.0 <= k.P.passagens && 0.0 <= k.z3.comp
  }

  lemma MenosArmazenamento(x: real, y: real, r: real, p: real, t: real)
    requires x <= y && 0.0 <= r && 0.0 <= p && 0.0 <= t
    ensures Armazenagem(x, r, p, t) <= Armazenagem(y, r, p, t)
  {
    ProdutoNaoNegativo(y - x, r);
    ProdutoNaoNegativo((y - x) * r, p);
    ProdutoNaoNegativo((y - x) * r * p, t);
    assert (y - x) * r == y * r - x * r;
    assert (y * r - x * r) * p == y * r * p - x * r * p;
  }

  lemma NaoGanha(s: real, gb: real, m: real, ps: real)
    requires s <= 0.0 && 0.0 <= gb && 0.0 <= m && 0.0 <= ps
    ensures Movimentacao(s, gb, m, ps) <= 0.0 == Movimentacao(0.0, gb, m, ps)
  {
    ProdutoNaoPositivo(s, gb);
    ProdutoNaoPositivo(s * gb, m);
    ProdutoNaoPositivo(s * gb * m, ps);
  }

  lemma CustoDaLinha(gb: real, comp: real, leituras: real, dec: real)
    requires 0.0 <= gb && 0.0 <= comp && 0.0 <= leituras && 0.0 <= dec
    ensures 0.0 <= Processamento(gb, comp, leituras, dec)
  {
    ProdutoNaoNegativo(gb, comp);
    ProdutoNaoNegativo(gb, leituras);
    ProdutoNaoNegativo(gb * leituras, dec);
  }

  lemma LiquidoMenor(x: Avaliacao, y: Avaliacao)
    requires x.arm <= y.arm && x.armAs == y.armAs && x.mov <= y.mov && y.cpu <= x.cpu
    requires x.hash == y.hash && x.delta == y.delta && x.cpuAs == y.cpuAs
    ensures x.Liquido() <= y.Liquido()
  {
  }

  lemma GbNaoNegativo(k: Caso)
    requires k.Economico()
    ensures 0.0 <= k.Gb()
  {
    ProdutoNaoNegativo(k.P.volume / 1000000000.0, k.c.share);
  }

  lemma TermosSemDeltas(k: Caso, x: Avaliacao, y: Avaliacao)
    requires k.Valid() && k.Economico() && Precos(k) && k.Phi() <= 0.0 && k.z3.s <= 0.0
    requires x == SemRecompressao(k, Zstd3) && y == SemRecompressao(k, Guardado)
    ensures x.arm <= y.arm && x.mov <= y.mov && y.cpu <= x.cpu
  {
    GbNaoNegativo(k);
    RetidoNaoNegativo(k);
    EconomiaSemDeltas(k);
    MenosArmazenamento(EconomiaArm(k, Zstd3), EconomiaArm(k, Guardado), k.Retido(), k.P.preco, k.P.meses);
    NaoGanha(k.z3.s, k.Gb(), k.P.movimento, k.P.passagens);
    CustoDaLinha(k.Gb(), k.z3.comp, k.P.leituras, k.z3.dec);
  }

  /** Without deltas, a zstd-3 that saves nothing never beats storing. */
  lemma SemDeltasNaoCompensa(k: Caso)
    requires k.Valid() && k.Economico() && Precos(k) && k.Phi() <= 0.0 && k.z3.s <= 0.0
    ensures Valor(k, ZSTD3) <= Valor(k, GUARDADO)
  {
    var x, y := SemRecompressao(k, Zstd3), SemRecompressao(k, Guardado);
    TermosSemDeltas(k, x, y);
    LiquidoMenor(x, y);
  }

  /** So the choice is never worse than plain zstd-3 where zstd-3 saves something by itself or
      deltas are not in play. */
  lemma NaoPiorQueZstd3(k: Caso)
    requires k.Valid() && k.Economico() && Precos(k) && (k.z3.s > 0.0 || k.Phi() <= 0.0)
    ensures k.Aceita(Escolher(NumerosDe(k))) && Valor(k, Escolher(NumerosDe(k))) >= Valor(k, ZSTD3)
  {
    hide SemRecompressao, AvaliarUm;
    EscolhaAvaliada(k);
    if k.z3.s <= 0.0 { SemDeltasNaoCompensa(k); }
  }

  /** A case of a gigabyte a month, kept for a month and read once, at unit price. */
  predicate Unitario(k: Caso) {
    && k.Valid() && !k.usarDedup && k.P.movimento == 0.0
    && k.Gb() == k.Retido() == k.P.preco == k.P.meses == k.P.leituras == 1.0
  }

  lemma LinhaUnitaria(k: Caso, sArm: real, sMov: real, comprime: bool)
    requires Unitario(k)
    ensures Linha(k, sArm, sMov, comprime) == (sArm, 0.0, if comprime then k.z3.comp + k.z3.dec else 0.0)
  {
  }

  lemma ValorUnitario(k: Caso, sinc: Sincrono)
    requires Unitario(k)
    ensures Valor(k, Politica(sinc, None)) ==
      EconomiaArm(k, sinc) - (if sinc.Zstd3? then k.z3.comp + k.z3.dec else 0.0) - CpuDelta(k, sinc)
  {
    hide EconomiaArm, CpuDelta, Linha;
    LinhaUnitaria(k, EconomiaArm(k, sinc), if sinc.Guardado? then 0.0 else k.z3.s, sinc.Zstd3?);
  }

  lemma CasoDeFamilias() returns (k: Caso)
    ensures Unitario(k) && k.Economico() && Precos(k) && 0.0 < k.z3.comp && 0.0 < k.z3.dec
    ensures k.rd.Some? && 0.0 < k.rd.value < 1.0 && 0.0 < k.c.fam < 1.0 && k.z3.s <= 0.0
    ensures EconomiaArm(k, Guardado) == 0.0 && EconomiaArm(k, Zstd3) == 0.25 && k.z3.comp + k.z3.dec == 0.1
    ensures CpuDelta(k, Guardado) == 0.0 && CpuDelta(k, Zstd3) == 0.025
  {
    var P := Parametros(1000000000.0, 1.0, 1.0, 1.0, 0.0, 0.0, 1.0, 0.0, 0.0);
    k := Caso(P, Classe(1.0, 0.0, 0.5), Codec(0.0, 0.05, 0.05), [], Some(0.5), false, true);
    assert k.Gb() == 1.0 && k.FatorDelta() == 0.75;
  }

  lemma ValoresDeFamilias(k: Caso)
    requires Unitario(k) && EconomiaArm(k, Guardado) == 0.0 && EconomiaArm(k, Zstd3) == 0.25
    requires k.z3.comp + k.z3.dec == 0.1 && CpuDelta(k, Guardado) == 0.0 && CpuDelta(k, Zstd3) == 0.025
    ensures Valor(k, GUARDADO) == 0.0 && Valor(k, ZSTD3) == 0.125
  {
    hide AvaliarClasse, EconomiaArm, CpuDelta;
    ValorUnitario(k, Guardado);
    ValorUnitario(k, Zstd3);
    assert GUARDADO == Politica(Guardado, None) && ZSTD3 == Politica(Zstd3, None);
  }

  /** With deltas it may be worse: half of a class are members of families whose deltas take
      half the space; zstd-3 saves nothing by itself, costs something, and still beats storing. */
  lemma Zstd3Recusado() returns (k: Caso)
    ensures k.Valid() && k.Economico() && Precos(k) && 0.0 < k.z3.comp && 0.0 < k.z3.dec && 0.0 < k.P.leituras
    ensures k.rd.Some? && 0.0 < k.rd.value < 1.0 && 0.0 < k.c.fam < 1.0
    ensures k.z3.s <= 0.0 && Valor(k, ZSTD3) > Valor(k, GUARDADO)
  {
    hide AvaliarClasse;
    k := CasoDeFamilias();
    ValoresDeFamilias(k);
  }
}
