/** dividir_em_blocos of bench/openzl_bench.py: sample data is cut into about k blocks, near
    the k-ths of its length, at a whole number of records past a header or just after a line
    end. */
module Blocos {
  import opened Base

  const NOVA_LINHA: byte := 10

  // ---------------------------------------------------------------- where cuts fall

  /** The k-ths of the length, rounded down to a whole number of records past the header. */
  function Alvo(n: nat, k: nat, alinhamento: int, base: int, i: nat): int
    requires 0 < k && 0 < alinhamento
  {
    base + (n * i / k - base) / alinhamento * alinhamento
  }

  /** Just after the first line end at or after c; the end of the data if there is none. */
  function FimDeLinha(dados: seq<byte>, c: nat): (p: nat)
    requires c <= |dados|
    ensures c <= p <= |dados| && (c < |dados| ==> c < p)
    ensures forall j :: c <= j < p - 1 ==> dados[j] != NOVA_LINHA
    ensures p < |dados| ==> dados[p - 1] == NOVA_LINHA
    decreases |dados| - c
  {
    if c == |dados| then c else if dados[c] == NOVA_LINHA then c + 1 else FimDeLinha(dados, c + 1)
  }

  lemma Alinhado(x: int, base: int, a: int) returns (c: int)
    requires 0 < a
    ensures c == base + (x - base) / a * a && x - a < c <= x && (c - base) % a == 0
  {
    var q := (x - base) / a;
    c := base + q * a;
    assert x - base == q * a + (x - base) % a;
    DivIs(q * a, a, q);
  }

  lemma Proporcao(n: nat, i: nat, k: nat)
    requires i <= k && 0 < k
    ensures 0 <= n * i / k <= n
  {
    MulMono(i, k, n);
    DivLe(0, n * i, k);
    DivLe(n * i, n * k, k);
    Inteira(n, k);
  }

  lemma Inteira(n: nat, k: nat)
    requires 0 < k
    ensures n * k / k == n
  {
    assert (n + 1) * k == n * k + k;
    DivIs(n * k, k, n);
  }

  /** Where it falls: on the i-th of the length, rounded, and never past it. */
  lemma AlvoPerto(n: nat, k: nat, alinhamento: int, base: int, i: nat)
    requires 0 < k && 0 < alinhamento && i <= k
    ensures n * i / k - alinhamento < Alvo(n, k, alinhamento, base, i) <= n * i / k <= n
    ensures (Alvo(n, k, alinhamento, base, i) - base) % alinhamento == 0
  {
    Proporcao(n, i, k);
    var c := Alinhado(n * i / k, base, alinhamento);
  }

  /** The i-th cut: at its target, but not before the cut before it, and after a line end if
      lines are to be kept whole. */
  function Pos(dados: seq<byte>, k: nat, alinhamento: int, base: int, porLinha: bool, i: nat): (p: nat)
    requires 0 < alinhamento && i <= k
    ensures p <= |dados|
  {
    if i == 0 then 0
    else if i == k then |dados|
    else
      AlvoPerto(|dados|, k, alinhamento, base, i);
      var c := Max(Alvo(|dados|, k, alinhamento, base, i), Pos(dados, k, alinhamento, base, porLinha, i - 1));
      if porLinha then FimDeLinha(dados, c) else c
  }

  lemma PosCresce(dados: seq<byte>, k: nat, alinhamento: int, base: int, porLinha: bool, i: nat)
    requires 0 < alinhamento && i < k
    ensures Pos(dados, k, alinhamento, base, porLinha, i) <= Pos(dados, k, alinhamento, base, porLinha, i + 1)
  {
  }

  lemma {:induction false} AlvoCresce(n: nat, k: nat, alinhamento: int, base: int, i: nat)
    requires 0 < k && 0 < alinhamento
    ensures Alvo(n, k, alinhamento, base, i) <= Alvo(n, k, alinhamento, base, i + 1)
  {
    assert n * (i + 1) == n * i + n;
    DivLe(n * i, n * (i + 1), k);
    DivLe(n * i / k - base, n * (i + 1) / k - base, alinhamento);
    MulMono((n * i / k - base) / alinhamento, (n * (i + 1) / k - base) / alinhamento, alinhamento);
  }

  /** Where lines do not matter every cut is at its own target. */
  lemma {:induction false} PosSemLinhas(dados: seq<byte>, k: nat, alinhamento: int, base: int, i: nat)
    requires 0 < alinhamento && 0 < i < k
    ensures Pos(dados, k, alinhamento, base, false, i) == Max(Alvo(|dados|, k, alinhamento, base, i), 0)
  {
    hide Alvo;
    if i > 1 {
      PosSemLinhas(dados, k, alinhamento, base, i - 1);
      AlvoCresce(|dados|, k, alinhamento, base, i - 1);
    }
  }

  // ---------------------------------------------------------------- the cuts

  /** dados.find(b"\n", c). */
  method AcharLinha(dados: seq<byte>, c: nat) returns (j: int)
    requires c <= |dados|
    ensures (if j != -1 then j + 1 else |dados|) == FimDeLinha(dados, c)
    ensures j != -1 ==> c <= j < |dados|
  {
    j := c;
    while j < |dados|
      invariant c <= j <= |dados| && FimDeLinha(dados, c) == FimDeLinha(dados, j)
    {
      if dados[j] == NOVA_LINHA {
        return;
      }
      j := j + 1;
    }
    j := -1;
  }

  /** One turn of the loop that places the cuts. */
  method ProximoCorte(dados: seq<byte>, k: nat, alinhamento: int, base: int, porLinha: bool, i: nat, antes: nat) returns (c: nat)
    requires 0 < i < k && 0 < alinhamento && antes == Pos(dados, k, alinhamento, base, porLinha, i - 1)
    ensures c == Pos(dados, k, alinhamento, base, porLinha, i)
  {
    var n := |dados|;
    AlvoPerto(n, k, alinhamento, base, i);
    c := Max(base + (n * i / k - base) / alinhamento * alinhamento, antes);
    if porLinha {
      var j := AcharLinha(dados, c);
      c := if j != -1 then j + 1 else n;
    }
  }

  /** The loop that places the cuts. */
  method Posicoes(dados: seq<byte>, k: nat, alinhamento: int, base: int, porLinha: bool) returns (pos: seq<nat>)
    requires 1 < k && 0 < alinhamento
    ensures |pos| == k + 1 && forall i :: 0 <= i <= k ==> pos[i] == Pos(dados, k, alinhamento, base, porLinha, i)
  {
    hide Pos;
    assert Pos(dados, k, alinhamento, base, porLinha, 0) == 0 && Pos(dados, k, alinhamento, base, porLinha, k) == |dados| by {
      PosNasPontas(dados, k, alinhamento, base, porLinha);
    }
    pos := [0];
    for i := 1 to k
      invariant |pos| == i && forall j :: 0 <= j < i ==> pos[j] == Pos(dados, k, alinhamento, base, porLinha, j)
    {
      var c := ProximoCorte(dados, k, alinhamento, base, porLinha, i, pos[i - 1]);
      pos := pos + [c];
    }
    pos := pos + [|dados|];
  }

  lemma PosNasPontas(dados: seq<byte>, k: nat, alinhamento: int, base: int, porLinha: bool)
    requires 0 < alinhamento && 0 < k
    ensures Pos(dados, k, alinhamento, base, porLinha, 0) == 0 && Pos(dados, k, alinhamento, base, porLinha, k) == |dados|
  {
  }

  // ---------------------------------------------------------------- the blocks

  /** How many blocks the first i cuts end: one for each that moves on. */
  function Quantos(dados: seq<byte>, k: nat, alinhamento: int, base: int, porLinha: bool, i: nat): nat
    requires 0 < alinhamento && i <= k
  {
    if i == 0 then 0
    else
      var p, q := Pos(dados, k, alinhamento, base, porLinha, i - 1), Pos(dados, k, alinhamento, base, porLinha, i);
      Quantos(dados, k, alinhamento, base, porLinha, i - 1) + (if q > p then 1 else 0)
  }

  /** The blocks that the first i cuts make: the data between cuts, empty pieces left out. */
  function Fatias(dados: seq<byte>, k: nat, alinhamento: int, base: int, porLinha: bool, i: nat): (bs: seq<seq<byte>>)
    requires 0 < alinhamento && i <= k
    ensures |bs| == Quantos(dados, k, alinhamento, base, porLinha, i)
  {
    if i == 0 then []
    else
      var p, q := Pos(dados, k, alinhamento, base, porLinha, i - 1), Pos(dados, k, alinhamento, base, porLinha, i);
      Fatias(dados, k, alinhamento, base, porLinha, i - 1) + (if q > p then [dados[p..q]] else [])
  }

  /** They make up the data up to the i-th cut, and none is empty. */
  lemma {:induction false} FatiasUnem(dados: seq<byte>, k: nat, alinhamento: int, base: int, porLinha: bool, i: nat)
    requires 0 < alinhamento && i <= k
    ensures Concat(Fatias(dados, k, alinhamento, base, porLinha, i)) == dados[..Pos(dados, k, alinhamento, base, porLinha, i)]
    ensures forall b :: b in Fatias(dados, k, alinhamento, base, porLinha, i) ==> b != []
  {
    hide Pos, Alvo;
    PosNoInicio(dados, k, alinhamento, base, porLinha);
    assert dados[..0] == [];
    if i > 0 {
      FatiasUnem(dados, k, alinhamento, base, porLinha, i - 1);
      PosCresce(dados, k, alinhamento, base, porLinha, i - 1);
      var p, q := Pos(dados, k, alinhamento, base, porLinha, i - 1), Pos(dados, k, alinhamento, base, porLinha, i);
      var a := Fatias(dados, k, alinhamento, base, porLinha, i - 1);
      ConcatSnoc(a, dados[p..q]);
      assert dados[..p] + dados[p..q] == dados[..q] && a + [] == a;
    }
  }

  lemma PosNoInicio(dados: seq<byte>, k: nat, alinhamento: int, base: int, porLinha: bool)
    requires 0 < alinhamento
    ensures Pos(dados, k, alinhamento, base, porLinha, 0) == 0
  {
  }

  /** p is a border between two blocks. */
  ghost predicate Borda(blocos: seq<seq<byte>>, p: nat) { exists j :: 0 < j < |blocos| && |Concat(blocos[..j])| == p }

  /** Some block ends at p. */
  ghost predicate Fim(blocos: seq<seq<byte>>, p: nat) { exists j :: 0 < j <= |blocos| && |Concat(blocos[..j])| == p }

  lemma FimMais(a: seq<seq<byte>>, x: seq<byte>, p: nat)
    ensures Fim(a + [x], p) <==> Fim(a, p) || |Concat(a + [x])| == p
  {
    hide Concat;
    var b := a + [x];
    assert b[..|b|] == b;
    if Fim(a, p) {
      var j :| 0 < j <= |a| && |Concat(a[..j])| == p;
      assert b[..j] == a[..j];
    }
    if Fim(b, p) {
      var j :| 0 < j <= |b| && |Concat(b[..j])| == p;
      if j <= |a| { assert b[..j] == a[..j]; }
    }
  }

  lemma FimOuBorda(blocos: seq<seq<byte>>, p: nat)
    requires p != |Concat(blocos)|
    ensures Fim(blocos, p) <==> Borda(blocos, p)
  {
    hide Concat;
    assert blocos[..|blocos|] == blocos;
  }

  /** One of the first i cuts is at p. */
  ghost predicate CorteAte(dados: seq<byte>, k: nat, alinhamento: int, base: int, porLinha: bool, i: nat, p: nat)
    requires 0 < alinhamento && i <= k
  {
    exists h :: 0 < h <= i && Pos(dados, k, alinhamento, base, porLinha, h) == p
  }

  lemma UltimoCorte(dados: seq<byte>, k: nat, alinhamento: int, base: int, porLinha: bool, i: nat, p: nat)
    requires 0 < alinhamento && 0 < i <= k
    ensures CorteAte(dados, k, alinhamento, base, porLinha, i, p) <==>
      CorteAte(dados, k, alinhamento, base, porLinha, i - 1, p) || Pos(dados, k, alinhamento, base, porLinha, i) == p
  {
    hide Pos;
  }

  /** The blocks end exactly at the cuts. */
  lemma {:induction false} FimEhCorte(dados: seq<byte>, k: nat, alinhamento: int, base: int, porLinha: bool, i: nat, p: nat)
    requires 0 < alinhamento && i <= k && 0 < p
    ensures Fim(Fatias(dados, k, alinhamento, base, porLinha, i), p) <==> CorteAte(dados, k, alinhamento, base, porLinha, i, p)
  {
    hide Pos, Fim, CorteAte;
    if i == 0 {
      SemCortes(dados, k, alinhamento, base, porLinha, p);
    } else {
      FimEhCorte(dados, k, alinhamento, base, porLinha, i - 1, p);
      UltimoCorte(dados, k, alinhamento, base, porLinha, i, p);
      UltimaFatia(dados, k, alinhamento, base, porLinha, i, p);
    }
  }

  lemma SemCortes(dados: seq<byte>, k: nat, alinhamento: int, base: int, porLinha: bool, p: nat)
    requires 0 < alinhamento
    ensures !Fim(Fatias(dados, k, alinhamento, base, porLinha, 0), p) && !CorteAte(dados, k, alinhamento, base, porLinha, 0, p)
  {
  }

  /** A block ends at the i-th cut if any does. */
  lemma UltimaFatia(dados: seq<byte>, k: nat, alinhamento: int, base: int, porLinha: bool, i: nat, p: nat)
    requires 0 < alinhamento && 0 < i <= k && 0 < p
    ensures Fim(Fatias(dados, k, alinhamento, base, porLinha, i), p) <==>
      Fim(Fatias(dados, k, alinhamento, base, porLinha, i - 1), p) || Pos(dados, k, alinhamento, base, porLinha, i) == p
  {
    hide Pos, Fim, Concat;
    var x, y := Pos(dados, k, alinhamento, base, porLinha, i - 1), Pos(dados, k, alinhamento, base, porLinha, i);
    var a := Fatias(dados, k, alinhamento, base, porLinha, i - 1);
    PosCresce(dados, k, alinhamento, base, porLinha, i - 1);
    FatiasUnem(dados, k, alinhamento, base, porLinha, i);
    FatiasUnem(dados, k, alinhamento, base, porLinha, i - 1);
    if y > x {
      FimMais(a, dados[x..y], p);
    } else {
      assert a + [] == a;
      FimDeTudo(a, p);
    }
  }

  lemma FimDeTudo(a: seq<seq<byte>>, p: nat)
    requires 0 < p
    ensures |Concat(a)| == p ==> Fim(a, p)
  {
    assert a[..|a|] == a;
  }

  /** p is a cut other than the two ends. */
  ghost predicate CorteInterior(dados: seq<byte>, k: nat, alinhamento: int, base: int, porLinha: bool, p: nat)
    requires 0 < alinhamento
  {
    exists h :: 0 < h < k && Pos(dados, k, alinhamento, base, porLinha, h) == p
  }

  lemma BordasDasFatias(dados: seq<byte>, k: nat, alinhamento: int, base: int, porLinha: bool, p: nat)
    requires 0 < alinhamento && 0 < k && 0 < p < |dados|
    ensures Borda(Fatias(dados, k, alinhamento, base, porLinha, k), p) <==> CorteInterior(dados, k, alinhamento, base, porLinha, p)
  {
    hide Pos, Fatias, Concat, Fim, Borda;
    FimEhCorte(dados, k, alinhamento, base, porLinha, k, p);
    FatiasUnem(dados, k, alinhamento, base, porLinha, k);
    PosNasPontas(dados, k, alinhamento, base, porLinha);
    FimOuBorda(Fatias(dados, k, alinhamento, base, porLinha, k), p);
  }

  /** dividir_em_blocos: small data, or k of one or less, stay whole; otherwise the blocks are
      the data between the cuts.  They concatenate to the data and none is empty, and their
      borders are exactly the cuts that fall inside the data. */
  method DividirEmBlocos(dados: seq<byte>, k: int, alinhamento: int, base: int, porLinha: bool) returns (blocos: seq<seq<byte>>)
    requires 0 < alinhamento
    ensures Concat(blocos) == dados
    ensures k <= 1 || |dados| < k * 4096 ==> blocos == [dados]
    ensures !(k <= 1 || |dados| < k * 4096) ==>
      && blocos == Fatias(dados, k, alinhamento, base, porLinha, k) && (forall b :: b in blocos ==> b != [])
      && forall p {:trigger Borda(blocos, p)} :: 0 < p < |dados| ==>
        (Borda(blocos, p) <==> CorteInterior(dados, k, alinhamento, base, porLinha, p))
  {
    hide Pos, Borda, CorteInterior;
    if k <= 1 || |dados| < k * 4096 {
      blocos := [dados];
      ConcatSnoc([], dados);
      assert [] + [dados] == [dados];
      return;
    }
    var pos := Posicoes(dados, k, alinhamento, base, porLinha);
    blocos := [];
    for i := 0 to k
      invariant blocos == Fatias(dados, k, alinhamento, base, porLinha, i)
    {
      if pos[i + 1] > pos[i] {
        blocos := blocos + [dados[pos[i]..pos[i + 1]]];
      }
    }
    FatiasUnem(dados, k, alinhamento, base, porLinha, k);
    PosNasPontas(dados, k, alinhamento, base, porLinha);
    assert dados[..|dados|] == dados;
    forall p: nat {:trigger Borda(blocos, p)} | 0 < p < |dados|
      ensures Borda(blocos, p) <==> CorteInterior(dados, k, alinhamento, base, porLinha, p)
    {
      BordasDasFatias(dados, k, alinhamento, base, porLinha, p);
    }
  }

  /** A cut inside the data follows a line end, or lies at a whole number of records. */
  lemma CorteCerto(dados: seq<byte>, k: nat, alinhamento: int, base: int, porLinha: bool, p: nat)
    requires 0 < alinhamento && 0 < p < |dados| && CorteInterior(dados, k, alinhamento, base, porLinha, p)
    ensures if porLinha then dados[p - 1] == NOVA_LINHA else (p - base) % alinhamento == 0
  {
    hide Alvo;
    var h :| 0 < h < k && Pos(dados, k, alinhamento, base, porLinha, h) == p;
    if !porLinha {
      PosSemLinhas(dados, k, alinhamento, base, h);
      AlvoPerto(|dados|, k, alinhamento, base, h);
    }
  }

  /** The first line end at or after `de` is just before p, or there is none and p is the end. */
  ghost predicate LinhaApos(dados: seq<byte>, de: int, p: nat) {
    && 0 <= de <= p <= |dados| && (forall j :: de <= j < p - 1 ==> dados[j] != NOVA_LINHA)
    && (p < |dados| ==> de < p && dados[p - 1] == NOVA_LINHA)
  }

  /** Only one position satisfies it. */
  lemma LinhaUnica(dados: seq<byte>, de: int, p: nat, q: nat)
    requires LinhaApos(dados, de, p) && LinhaApos(dados, de, q)
    ensures p == q
  {
  }

  /** Where lines are kept whole the i-th cut follows the first line end at or after its target
      or the cut before it, whichever is later. */
  lemma CorteNaLinha(dados: seq<byte>, k: nat, alinhamento: int, base: int, i: nat)
    requires 0 < alinhamento && 0 < i < k
    ensures var alvo, antes := Alvo(|dados|, k, alinhamento, base, i), Pos(dados, k, alinhamento, base, true, i - 1);
      LinhaApos(dados, if alvo < antes then antes else alvo, Pos(dados, k, alinhamento, base, true, i))
  {
    AlvoPerto(|dados|, k, alinhamento, base, i);
  }

  /** The same of every border between two of the blocks: it is such a cut, so it lies at or
      past the target of one of the k-ths, and no line end stands between that target, or the
      cut before, and the line end that precedes the border. */
  lemma BordaNaLinha(dados: seq<byte>, k: nat, alinhamento: int, base: int, p: nat) returns (i: nat)
    requires 0 < alinhamento && 1 < k && 0 < p < |dados|
    requires Borda(Fatias(dados, k, alinhamento, base, true, k), p)
    ensures 0 < i < k && Pos(dados, k, alinhamento, base, true, i) == p && dados[p - 1] == NOVA_LINHA
    ensures Alvo(|dados|, k, alinhamento, base, i) < p && Pos(dados, k, alinhamento, base, true, i - 1) < p
    ensures forall j :: Alvo(|dados|, k, alinhamento, base, i) <= j < p - 1 && Pos(dados, k, alinhamento, base, true, i - 1) <= j ==>
      dados[j] != NOVA_LINHA
  {
    hide Pos, Fatias, Alvo;
    BordasDasFatias(dados, k, alinhamento, base, true, p);
    i :| 0 < i < k && Pos(dados, k, alinhamento, base, true, i) == p;
    CorteNaLinha(dados, k, alinhamento, base, i);
  }

  // ---------------------------------------------------------------- how many

  lemma MaisNoQuociente(x: nat, n: nat, k: nat)
    requires 0 < k && k * 4096 <= n
    ensures x / k + 4096 <= (x + n) / k
  {
    var q, y := x / k, x + k * 4096;
    assert x == q * k + x % k;
    assert y == (q + 4096) * k + x % k && (q + 4097) * k == (q + 4096) * k + k;
    DivIs(y, k, q + 4096);
    DivLe(y, x + n, k);
  }

  lemma QuocientesSeparados(n: nat, k: nat, i: nat)
    requires 0 < k && k * 4096 <= n && i < k
    ensures 0 <= n * i / k && n * i / k + 4096 <= n * (i + 1) / k <= n
  {
    assert n * (i + 1) == n * i + n;
    MaisNoQuociente(n * i, n, k);
    Proporcao(n, i, k);
    Proporcao(n, i + 1, k);
  }

  /** The i-th target of long enough data lies well past the one before, and inside. */
  lemma AlvosSeparados(n: nat, k: nat, alinhamento: int, base: int, i: nat)
    requires 0 < k && k * 4096 <= n && 0 < alinhamento <= 4096 && i < k
    ensures n * i / k - alinhamento < Alvo(n, k, alinhamento, base, i) <= n * i / k < n
    ensures 0 <= n * i / k && n * i / k + 4096 <= n * (i + 1) / k
  {
    hide Alvo;
    AlvoPerto(n, k, alinhamento, base, i);
    QuocientesSeparados(n, k, i);
  }

  /** Data long enough to be cut, of records of at most 4096 bytes, are cut into exactly k
      blocks, each cut at its own target. */
  lemma {:induction false} ExatamenteK(dados: seq<byte>, k: nat, alinhamento: int, base: int, i: nat)
    requires 1 < k && k * 4096 <= |dados| && 0 < alinhamento <= 4096 && i <= k
    ensures |Fatias(dados, k, alinhamento, base, false, i)| == i
    ensures 0 < i < k ==> Pos(dados, k, alinhamento, base, false, i) == Alvo(|dados|, k, alinhamento, base, i) > 0
  {
    hide Alvo, Fatias;
    PosNasPontas(dados, k, alinhamento, base, false);
    if i > 0 {
      ExatamenteK(dados, k, alinhamento, base, i - 1);
      AlvosSeparados(|dados|, k, alinhamento, base, i - 1);
      if i < k {
        AlvosSeparados(|dados|, k, alinhamento, base, i);
        PosSemLinhas(dados, k, alinhamento, base, i);
      }
      assert |dados| * (i - 1) / k >= 0;
    }
  }
}
