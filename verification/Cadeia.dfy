/** Chains of transforms, as cmd_transformadas of bench/openzl_bench.py applies them:
    forward, through a compressor and back, then the inverses in reverse order. */
module Cadeia {
  import opened Base
  import Transformadas
  import Csv

  /** A link of a chain; the CSV link uses the default delimiter, a comma. */
  datatype Elo = TabelaCsv | Delta(w: nat) | Split(w: nat)
  {
    predicate Valid() { TabelaCsv? || 0 < w }

    /** The forward transform; None where it does not apply. */
    function Direta(x: seq<byte>): Option<seq<byte>>
      requires Valid()
    {
      match this
      case TabelaCsv => Csv.TCsv(x, [44]).value
      case Delta(w) => Some(Transformadas.TDelta(x, w))
      case Split(w) => Some(Transformadas.TSplit(x, w))
    }
  }

  ghost predicate TodosValidos(elos: seq<Elo>) { forall i :: 0 <= i < |elos| ==> elos[i].Valid() }

  /** The chain applied forward. */
  function Direta(elos: seq<Elo>, x: seq<byte>): Option<seq<byte>>
    requires TodosValidos(elos)
  {
    if elos == [] then Some(x) else
    match elos[0].Direta(x)
    case None => None
    case Some(y) => Direta(elos[1..], y)
  }

  lemma {:induction false} DiretaSnoc(elos: seq<Elo>, e: Elo, x: seq<byte>)
    requires TodosValidos(elos) && e.Valid()
    ensures Direta(elos + [e], x) == match Direta(elos, x) case None => None case Some(y) => e.Direta(y)
  {
    if elos == [] {
      assert [e][1..] == [];
      match e.Direta(x) case None => case Some(y) => assert Direta([], y) == Some(y);
    } else {
      assert (elos + [e])[1..] == elos[1..] + [e];
      match elos[0].Direta(x) case None => case Some(y) => DiretaSnoc(elos[1..], e, y);
    }
  }

  /** One inverse: gives back the input that the link was applied to. */
  method Inversa(e: Elo, y: seq<byte>, ghost x: seq<byte>) returns (r: seq<byte>)
    requires e.Valid() && e.Direta(x) == Some(y)
    ensures r == x
  {
    match e
    case TabelaCsv =>
      Csv.IdaEVolta(x, [44], y);
      var v := Csv.TCsvInv(y);
      r := v.value;
    case Delta(w) =>
      r := Transformadas.TDeltaInv(y, w);
      Transformadas.DeltaInjetiva(r, x, w);
    case Split(w) =>
      r := Transformadas.TSplitInv(y, w);
      Transformadas.SplitInjetiva(r, x, w);
  }

  /** A chain that stops early does not apply. */
  lemma {:induction false} DiretaPrefixo(elos: seq<Elo>, k: nat, x: seq<byte>)
    requires TodosValidos(elos) && k <= |elos| && Direta(elos[..k], x) == None
    ensures Direta(elos, x) == None
    decreases |elos| - k
  {
    hide Transformadas.TDelta, Transformadas.TSplit, Csv.TCsv;
    if k < |elos| {
      assert elos[..k + 1] == elos[..k] + [elos[k]];
      DiretaSnoc(elos[..k], elos[k], x);
      DiretaPrefixo(elos, k + 1, x);
    } else {
      assert elos[..k] == elos;
    }
  }

  /** `etapas` are the successive values of the data along the chain. */
  ghost predicate Percurso(elos: seq<Elo>, etapas: seq<seq<byte>>)
    requires TodosValidos(elos)
  {
    |etapas| == |elos| + 1 && forall j :: 0 <= j < |elos| ==> elos[j].Direta(etapas[j]) == Some(etapas[j + 1])
  }

  lemma MaisUmElo(elos: seq<Elo>, i: nat, dados: seq<byte>, x: seq<byte>, etapas: seq<seq<byte>>)
    requires TodosValidos(elos) && i < |elos| && Direta(elos[..i], dados) == Some(x)
    requires Percurso(elos[..i], etapas) && etapas[i] == x
    ensures var y := elos[i].Direta(x);
      if y == None then Direta(elos, dados) == None
      else Direta(elos[..i + 1], dados) == y && Percurso(elos[..i + 1], etapas + [y.value])
  {
    hide Transformadas.TDelta, Transformadas.TSplit, Csv.TCsv;
    DiretaSnoc(elos[..i], elos[i], dados);
    assert elos[..i + 1] == elos[..i] + [elos[i]];
    if elos[i].Direta(x) == None {
      DiretaPrefixo(elos, i + 1, dados);
    } else {
      PercursoMais(elos[..i], elos[i], etapas);
    }
  }

  lemma PercursoMais(elos: seq<Elo>, e: Elo, etapas: seq<seq<byte>>)
    requires TodosValidos(elos) && e.Valid() && Percurso(elos, etapas) && e.Direta(etapas[|elos|]).Some?
    ensures TodosValidos(elos + [e]) && Percurso(elos + [e], etapas + [e.Direta(etapas[|elos|]).value])
  {
    hide Transformadas.TDelta, Transformadas.TSplit, Csv.TCsv;
  }

  /** The forward loop, which stops at a link that does not apply. */
  method Aplicar(elos: seq<Elo>, dados: seq<byte>) returns (r: Option<seq<byte>>, ghost etapas: seq<seq<byte>>)
    requires TodosValidos(elos)
    ensures r == Direta(elos, dados)
    ensures r.Some? ==> Percurso(elos, etapas) && etapas[0] == dados && etapas[|elos|] == r.value
  {
    var x, i := dados, 0;
    etapas := [dados];
    while i < |elos|
      invariant 0 <= i <= |elos| && Direta(elos[..i], dados) == Some(x)
      invariant Percurso(elos[..i], etapas) && etapas[0] == dados && etapas[i] == x
    {
      MaisUmElo(elos, i, dados, x, etapas);
      var y := elos[i].Direta(x);
      if y == None {
        return None, etapas;
      }
      x := y.value;
      etapas := etapas + [x];
      i := i + 1;
    }
    assert elos[..i] == elos;
    r := Some(x);
  }

  /** The backward loop: the inverses in reverse order. */
  method Desfazer(elos: seq<Elo>, y: seq<byte>, ghost etapas: seq<seq<byte>>) returns (rec: seq<byte>)
    requires TodosValidos(elos) && Percurso(elos, etapas) && etapas[|elos|] == y
    ensures rec == etapas[0]
  {
    rec := y;
    var i := |elos|;
    while i > 0
      invariant 0 <= i <= |elos| && rec == etapas[i]
    {
      i := i - 1;
      rec := Inversa(elos[i], rec, etapas[i]);
    }
  }

  /** The candidate loop of cmd_transformadas for one chain: not applicable when a link is
      not, and bit-exact whenever it is applicable, for any codec that is an inverse pair. */
  method Candidata(elos: seq<Elo>, dados: seq<byte>, comp: seq<byte> -> seq<byte>, decomp: seq<byte> -> seq<byte>)
    returns (aplicavel: bool, rec: seq<byte>)
    requires TodosValidos(elos)
    requires forall x :: decomp(comp(x)) == x
    ensures aplicavel == Direta(elos, dados).Some?
    ensures aplicavel ==> rec == dados
  {
    var x, etapas := Aplicar(elos, dados);
    if x == None {
      return false, [];
    }
    aplicavel := true;
    rec := Desfazer(elos, decomp(comp(x.value)), etapas);
  }

  /** The chains that are tried: on a table, on words, and none. */
  lemma Cadeias(x: seq<byte>, w: nat)
    requires 0 < w
    ensures Direta([], x) == Some(x)
    ensures Direta([Split(w)], x) == Some(Transformadas.TSplit(x, w))
    ensures Direta([Delta(w)], x) == Some(Transformadas.TDelta(x, w))
    ensures Direta([Delta(w), Split(w)], x) == Some(Transformadas.TSplit(Transformadas.TDelta(x, w), w))
    ensures Direta([TabelaCsv], x) == Csv.TCsv(x, [44]).value
    ensures Direta([TabelaCsv, Delta(1)], x) == match Csv.TCsv(x, [44]).value
      case None => None case Some(y) => Some(Transformadas.TDelta(y, 1))
  {
    hide Transformadas.TDelta, Transformadas.TSplit;
    assert [Delta(w), Split(w)] == [Delta(w)] + [Split(w)] && [TabelaCsv, Delta(1)] == [TabelaCsv] + [Delta(1)];
    Unitaria(Split(w), x);
    Unitaria(Delta(w), x);
    Unitaria(TabelaCsv, x);
    DiretaSnoc([Delta(w)], Split(w), x);
    DiretaSnoc([TabelaCsv], Delta(1), x);
  }

  lemma Unitaria(e: Elo, x: seq<byte>)
    requires e.Valid()
    ensures Direta([e], x) == e.Direta(x)
  {
    hide Transformadas.TDelta, Transformadas.TSplit, Csv.TCsv;
    assert [e] == [] + [e] && Direta([], x) == Some(x);
    DiretaSnoc([], e, x);
  }

  lemma {:induction false} SemTabela(elos: seq<Elo>, x: seq<byte>)
    requires TodosValidos(elos) && TabelaCsv !in elos
    ensures Direta(elos, x).Some?
  {
    hide Transformadas.TDelta, Transformadas.TSplit;
    if elos != [] {
      assert elos[0] in elos && forall e :: e in elos[1..] ==> e in elos;
      SemTabela(elos[1..], elos[0].Direta(x).value);
    }
  }

  /** Word transforms always apply, so a chain that starts with the CSV link applies to the
      text of a table exactly when that has four rows, two columns and a constant width. */
  lemma TabelaAplicavel(ls: seq<seq<seq<byte>>>, final: bool, resto: seq<Elo>)
    requires Csv.Limpa(ls, 44, final) && TodosValidos(resto) && TabelaCsv !in resto
    ensures Direta([TabelaCsv] + resto, Csv.Texto(ls, 44, final)).Some? <==>
      |ls| >= 4 && |ls[0]| >= 2 && Csv.Retangular(ls, |ls[0]|)
  {
    hide Csv.TCsv, Csv.Texto, Csv.Limpa, Csv.Tamanhos, Csv.VarintBytes, Csv.Retangular;
    var t := Csv.Texto(ls, 44, final);
    var fs := Csv.TCsvDeTabela(ls, 44, final);
    var y := Csv.TCsv(t, [44]).value;
    assert ([TabelaCsv] + resto)[1..] == resto;
    if y.Some? { SemTabela(resto, y.value); }
  }
}
