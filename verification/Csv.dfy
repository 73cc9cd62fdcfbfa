/** The columnar CSV transform of bench/openzl_bench.py: rows become columns, field
    lengths go to a varint stream in front of the field bytes.  `TCsv` is the expression
    the source evaluates, `CsvInv` what its inverse computes on any input whatever. */
module Csv {
  import opened Base

  const LF: byte := 10

  // ---------------------------------------------------------------- split and join

  /** The first position from i on where sep occurs, -1 if there is none. */
  function Achar(s: seq<byte>, sep: seq<byte>, i: nat): (r: int)
    ensures r == -1 || (i <= r && r + |sep| <= |s| && s[r..r + |sep|] == sep)
    decreases |s| - i
  {
    if i + |sep| > |s| then -1
    else if s[i..i + |sep|] == sep then i
    else if i == |s| then -1
    else Achar(s, sep, i + 1)
  }

  /** bytes.split(sep) */
  function Dividir(s: seq<byte>, sep: seq<byte>): (ps: seq<seq<byte>>)
    requires sep != []
    ensures ps != []
    decreases |s|
  {
    var i := Achar(s, sep, 0);
    if i < 0 then [s] else [s[..i]] + Dividir(s[i + |sep|..], sep)
  }

  /** sep.join(ps) */
  function Unir(sep: seq<byte>, ps: seq<seq<byte>>): seq<byte> {
    if ps == [] then [] else if |ps| == 1 then ps[0] else ps[0] + sep + Unir(sep, ps[1..])
  }

  lemma {:induction false} UnirDividir(s: seq<byte>, sep: seq<byte>)
    requires sep != []
    ensures Unir(sep, Dividir(s, sep)) == s
    decreases |s|
  {
    var i := Achar(s, sep, 0);
    if i >= 0 {
      var resto := s[i + |sep|..];
      UnirDividir(resto, sep);
      assert ([s[..i]] + Dividir(resto, sep))[1..] == Dividir(resto, sep);
      assert s == s[..i] + s[i..i + |sep|] + resto;
    }
  }

  // ---------------------------------------------------------------- varints

  function VarintBytes(v: nat): (b: seq<byte>)
    ensures b != []
  {
    if v < 128 then [v] else [v % 128 + 128] + VarintBytes(v / 128)
  }

  function Pow128(k: nat): (m: nat)
    ensures 0 < m
  {
    if k == 0 then 1 else 128 * Pow128(k - 1)
  }

  /** Byte k holds the k-th group of seven bits, and says whether more follow. */
  lemma {:induction false} VarintGrupos(v: nat, k: nat)
    requires k < |VarintBytes(v)|
    ensures VarintBytes(v)[k] as int % 128 == v / Pow128(k) % 128
    ensures VarintBytes(v)[k] >= 128 <==> k + 1 < |VarintBytes(v)|
    decreases k
  {
    if k == 0 {
      assert v / 1 == v;
    } else {
      VarintGrupos(v / 128, k - 1);
      DivDiv(v, 128, Pow128(k - 1));
    }
  }

  /** There are as many groups as the number needs. */
  lemma {:induction false} VarintTamanho(v: nat)
    ensures var n := |VarintBytes(v)|; v < Pow128(n) && (1 < n ==> Pow128(n - 1) <= v)
    decreases v
  {
    if v >= 128 { VarintTamanho(v / 128); }
  }

  /** varint(v, saida): appends v in groups of seven bits, low group first. */
  method Varint(v: nat, saida: seq<byte>) returns (r: seq<byte>)
    ensures r == saida + VarintBytes(v)
  {
    r := saida;
    var x := v;
    while true
      invariant r + VarintBytes(x) == saida + VarintBytes(v)
      decreases x
    {
      var b: byte := x % 128;
      ghost var antes := VarintBytes(x);
      x := x / 128;
      if x == 0 {
        r := r + [b];
        return;
      }
      assert antes == [b + 128] + VarintBytes(x);
      r := r + [b + 128];
    }
  }

  /** The number whose groups start at position p, and the position after them; the source
      raises IndexError when the data ends first. */
  function LerVarint(d: seq<byte>, p: nat): (r: Option<(nat, nat)>)
    ensures r.Some? ==> p < r.value.1 <= |d|
    decreases |d| - p
  {
    if p >= |d| then None
    else if d[p] < 128 then Some((d[p] as int, p + 1))
    else match LerVarint(d, p + 1)
      case None => None
      case Some((x, q)) => Some((d[p] as int - 128 + 128 * x, q))
  }

  /** Varints are self-delimiting. */
  lemma {:induction false} LerVarintBytes(d: seq<byte>, p: nat, v: nat)
    requires At(d, p, VarintBytes(v))
    ensures LerVarint(d, p) == Some((v, p + |VarintBytes(v)|))
    decreases v
  {
    AtByte(d, p, VarintBytes(v), 0);
    if v >= 128 {
      AtSplit(d, p, [v % 128 + 128], VarintBytes(v / 128));
      LerVarintBytes(d, p + 1, v / 128);
    }
  }

  /** ler(): the loop that accumulates `v |= (b & 0x7F) << sh`; the bits are disjoint, so
      the disjunction is a sum. */
  method Ler(d: seq<byte>, p: nat) returns (r: Option<(nat, nat)>)
    ensures r == LerVarint(d, p)
  {
    var v, peso, q := 0, 1, p;
    while true
      invariant p <= q && 0 < peso && 0 <= v < peso
      invariant LerVarint(d, p) == match LerVarint(d, q)
        case None => None
        case Some((x, e)) => Some((v + peso * x, e))
      decreases |d| - q
    {
      if q >= |d| {
        return None;
      }
      var b := d[q] as int;
      q := q + 1;
      if b < 128 {
        return Some((v + peso * b, q));
      }
      Acumular(v, peso, b - 128);
      v := v + peso * (b - 128);
      peso := peso * 128;
    }
  }

  lemma Acumular(v: nat, peso: nat, b: nat)
    requires 0 < peso && v < peso && b < 128
    ensures 0 <= v + peso * b < peso * 128
    ensures forall x: int :: v + peso * (b + 128 * x) == v + peso * b + peso * 128 * x
  {
    MulMono(b + 1, 128, peso);
    assert (b + 1) * peso == peso * b + peso;
    forall x: int ensures v + peso * (b + 128 * x) == v + peso * b + peso * 128 * x {
      assert peso * (128 * x) == peso * 128 * x;
    }
  }

  // ---------------------------------------------------------------- the transform

  /** The rows of the table: lines split at the delimiter. */
  function Linhas(dados: seq<byte>, delim: seq<byte>): (ls: seq<seq<seq<byte>>>)
    requires delim != []
    ensures ls != [] && forall r :: 0 <= r < |ls| ==> ls[r] != []
  {
    var brutas := Dividir(Corpo(dados), [LF]);
    seq(|brutas|, r requires 0 <= r < |brutas| => Dividir(brutas[r], delim))
  }

  predicate TerminaEmLF(dados: seq<byte>) { dados != [] && dados[|dados| - 1] == LF }

  /** The data without its final newline. */
  function Corpo(dados: seq<byte>): seq<byte> {
    if TerminaEmLF(dados) then dados[..|dados| - 1] else dados
  }

  predicate Retangular(ls: seq<seq<seq<byte>>>, cols: nat) {
    forall r :: 0 <= r < |ls| ==> |ls[r]| == cols
  }

  function Coluna(ls: seq<seq<seq<byte>>>, cols: nat, c: nat): (col: seq<seq<byte>>)
    requires Retangular(ls, cols) && c < cols
    ensures |col| == |ls|
  {
    seq(|ls|, r requires 0 <= r < |ls| => ls[r][c])
  }

  /** The fields, column after column. */
  function Campos(ls: seq<seq<seq<byte>>>, cols: nat, k: nat): (fs: seq<seq<byte>>)
    requires Retangular(ls, cols) && k <= cols
    ensures |fs| == k * |ls|
  {
    if k == 0 then [] else
      assert k * |ls| == (k - 1) * |ls| + |ls|;
      Campos(ls, cols, k - 1) + Coluna(ls, cols, k - 1)
  }

  function Tamanhos(fs: seq<seq<byte>>): (b: seq<byte>) {
    if fs == [] then [] else VarintBytes(|fs[0]|) + Tamanhos(fs[1..])
  }

  /** t_csv: None when the data is not a table of at least four rows and two columns;
      an empty delimiter makes split raise ValueError. */
  function TCsv(dados: seq<byte>, delim: seq<byte>): Result<Option<seq<byte>>, string> {
    if delim == [] then Err("ValueError") else
      var ls := Linhas(dados, delim);
      var cols := |ls[0]|;
      if cols < 2 || |ls| < 4 || !Retangular(ls, cols) then Ok(None)
      else
        var final: byte := if TerminaEmLF(dados) then 1 else 0;
        Ok(Some(Tabela(delim[0], final, |ls|, cols, Campos(ls, cols, cols))))
  }

  /** The output: a header of three bytes, the two counts, all lengths, all fields. */
  function Tabela(delim: byte, final: byte, n: nat, cols: nat, fs: seq<seq<byte>>): seq<byte> {
    [0x43, delim, final] + (VarintBytes(n) + (VarintBytes(cols) + (Tamanhos(fs) + Concat(fs))))
  }

  // ---------------------------------------------------------------- the inverse

  /** d[i:j] with Python's clamping. */
  function Fatia(d: seq<byte>, i: nat, j: nat): seq<byte> {
    var hi := if j < |d| then j else |d|;
    if i < hi then d[i..hi] else []
  }

  /** n varints in a row. */
  function LerVarints(d: seq<byte>, p: nat, n: nat): (r: Option<(seq<nat>, nat)>)
    ensures r.Some? ==> |r.value.0| == n
    decreases n
  {
    if n == 0 then Some(([], p)) else
    match LerVarint(d, p)
    case None => None
    case Some((v, q)) =>
      match LerVarints(d, q, n - 1)
      case None => None
      case Some((vs, e)) => Some(([v] + vs, e))
  }

  /** Consecutive slices of the given lengths. */
  function Fatias(d: seq<byte>, p: nat, ts: seq<nat>): (fs: seq<seq<byte>>)
    ensures |fs| == |ts|
    decreases ts
  {
    if ts == [] then [] else [Fatia(d, p, p + ts[0])] + Fatias(d, p + ts[0], ts[1..])
  }

  /** Row r of the fields. */
  function Linha(campos: seq<seq<byte>>, n: nat, cols: nat, r: nat): (l: seq<seq<byte>>)
    requires |campos| == n * cols && r < n
    ensures |l| == cols
  {
    seq(cols, c requires 0 <= c < cols => NoCampo(n, cols, r, c); campos[c * n + r])
  }

  lemma NoCampo(n: nat, cols: nat, r: nat, c: nat)
    requires r < n && c < cols
    ensures 0 <= c * n + r < n * cols
  {
    MulMono(c + 1, cols, n);
    assert (c + 1) * n == c * n + n && cols * n == n * cols;
  }

  function Remontar(campos: seq<seq<byte>>, n: nat, cols: nat, delim: seq<byte>): (ls: seq<seq<byte>>)
    requires |campos| == n * cols
  {
    seq(n, r requires 0 <= r < n => Unir(delim, Linha(campos, n, cols, r)))
  }

  /** t_csv_inv on any bytes: IndexError when they end before the lengths do. */
  function CsvInv(dados: seq<byte>): Result<seq<byte>, string> {
    if |dados| < 3 then Err("IndexError") else
    match LerVarint(dados, 3)
    case None => Err("IndexError")
    case Some((n, p)) =>
      match LerVarint(dados, p)
      case None => Err("IndexError")
      case Some((cols, q)) => CorpoInv(dados, n, cols, q)
  }

  /** The part of the inverse that follows the two counts. */
  function CorpoInv(dados: seq<byte>, n: nat, cols: nat, q: nat): Result<seq<byte>, string>
    requires 3 <= |dados|
  {
    match LerVarints(dados, q, n * cols)
    case None => Err("IndexError")
    case Some((ts, e)) =>
      Ok(Unir([LF], Remontar(Fatias(dados, e, ts), n, cols, dados[1..2])) + if dados[2] != 0 then [LF] else [])
  }

  /** t_csv_inv: the lengths, then the fields, then the rows put together again. */
  method TCsvInv(dados: seq<byte>) returns (r: Result<seq<byte>, string>)
    ensures r == CsvInv(dados)
  {
    hide LerVarint, LerVarints, Fatias, Remontar, Unir;
    if |dados| < 3 {
      return Err("IndexError");
    }
    var delim, final := dados[1..2], dados[2] != 0;
    var cab := Ler(dados, 3);
    if cab == None { return Err("IndexError"); }
    var n, p := cab.value.0, cab.value.1;
    cab := Ler(dados, p);
    if cab == None { return Err("IndexError"); }
    var cols := cab.value.0;
    p := cab.value.1;
    var tamanhos := LerComprimentos(dados, p, n * cols);
    if tamanhos == None { return Err("IndexError"); }
    var campos := LerCampos(dados, tamanhos.value.1, tamanhos.value.0);
    var linhas := MontarLinhas(campos, n, cols, delim);
    r := Ok(Unir([LF], linhas) + if final then [LF] else []);
  }

  method LerComprimentos(dados: seq<byte>, inicio: nat, total: nat) returns (r: Option<(seq<nat>, nat)>)
    ensures r == LerVarints(dados, inicio, total)
  {
    var ts: seq<nat>, p := [], inicio;
    ghost var todos := LerVarints(dados, inicio, total);
    if todos.Some? { assert [] + todos.value.0 == todos.value.0; }
    while |ts| < total
      invariant |ts| <= total
      invariant todos == match LerVarints(dados, p, total - |ts|)
        case None => None
        case Some((vs, e)) => Some((ts + vs, e))
    {
      var t := Ler(dados, p);
      if t == None { return None; }
      ghost var adiante := LerVarints(dados, t.value.1, total - |ts| - 1);
      if adiante.Some? { assert ts + ([t.value.0] + adiante.value.0) == ts + [t.value.0] + adiante.value.0; }
      ts := ts + [t.value.0];
      p := t.value.1;
    }
    assert ts + [] == ts;
    r := Some((ts, p));
  }

  method LerCampos(dados: seq<byte>, inicio: nat, ts: seq<nat>) returns (campos: seq<seq<byte>>)
    ensures campos == Fatias(dados, inicio, ts)
  {
    campos := [];
    var p, k := inicio, 0;
    assert ts[0..] == ts;
    while k < |ts|
      invariant 0 <= k <= |ts| && inicio <= p
      invariant Fatias(dados, inicio, ts) == campos + Fatias(dados, p, ts[k..])
    {
      assert ts[k..][1..] == ts[k + 1..];
      campos := campos + [Fatia(dados, p, p + ts[k])];
      p := p + ts[k];
      k := k + 1;
    }
  }

  method MontarLinhas(campos: seq<seq<byte>>, n: nat, cols: nat, delim: seq<byte>) returns (linhas: seq<seq<byte>>)
    requires |campos| == n * cols
    ensures linhas == Remontar(campos, n, cols, delim)
  {
    linhas := [];
    while |linhas| < n
      invariant |linhas| <= n && linhas == Remontar(campos, n, cols, delim)[..|linhas|]
    {
      linhas := linhas + [Unir(delim, Linha(campos, n, cols, |linhas|))];
    }
  }

  // ---------------------------------------------------------------- the round trip

  function Comprimentos(fs: seq<seq<byte>>): (ts: seq<nat>)
    ensures |ts| == |fs|
  {
    seq(|fs|, i requires 0 <= i < |fs| => |fs[i]|)
  }

  lemma {:induction false} LerTamanhos(d: seq<byte>, p: nat, fs: seq<seq<byte>>)
    requires At(d, p, Tamanhos(fs))
    ensures LerVarints(d, p, |fs|) == Some((Comprimentos(fs), p + |Tamanhos(fs)|))
    decreases |fs|
  {
    hide LerVarint, VarintBytes, At;
    if fs != [] {
      var v := VarintBytes(|fs[0]|);
      AtSplit(d, p, v, Tamanhos(fs[1..]));
      LerVarintBytes(d, p, |fs[0]|);
      LerTamanhos(d, p + |v|, fs[1..]);
      assert [|fs[0]|] + Comprimentos(fs[1..]) == Comprimentos(fs);
    }
  }

  lemma {:induction false} FatiarConcat(d: seq<byte>, p: nat, fs: seq<seq<byte>>)
    requires At(d, p, Concat(fs))
    ensures Fatias(d, p, Comprimentos(fs)) == fs
    decreases |fs|
  {
    if fs != [] {
      AtSplit(d, p, fs[0], Concat(fs[1..]));
      FatiarConcat(d, p + |fs[0]|, fs[1..]);
      assert Comprimentos(fs)[1..] == Comprimentos(fs[1..]);
    }
  }

  lemma {:induction false} CampoDaColuna(ls: seq<seq<seq<byte>>>, cols: nat, k: nat, r: nat, c: nat)
    requires Retangular(ls, cols) && c < k <= cols && r < |ls|
    ensures 0 <= c * |ls| + r < k * |ls| && Campos(ls, cols, k)[c * |ls| + r] == ls[r][c]
    decreases k
  {
    NoCampo(|ls|, k, r, c);
    assert |ls| * k == k * |ls| == (k - 1) * |ls| + |ls|;
    if c < k - 1 { CampoDaColuna(ls, cols, k - 1, r, c); }
  }

  /** Transposing twice: the rows taken out of the columns are the rows. */
  lemma LinhaDosCampos(ls: seq<seq<seq<byte>>>, cols: nat, r: nat)
    requires Retangular(ls, cols) && r < |ls|
    ensures |Campos(ls, cols, cols)| == |ls| * cols
    ensures Linha(Campos(ls, cols, cols), |ls|, cols, r) == ls[r]
  {
    assert |ls| * cols == cols * |ls|;
    forall c | 0 <= c < cols ensures Linha(Campos(ls, cols, cols), |ls|, cols, r)[c] == ls[r][c] {
      CampoDaColuna(ls, cols, cols, r, c);
      NoCampo(|ls|, cols, r, c);
    }
  }

  /** Each row joined with the given separator. */
  function LinhasUnidas(ls: seq<seq<seq<byte>>>, sep: seq<byte>): (us: seq<seq<byte>>)
    ensures |us| == |ls|
  {
    seq(|ls|, r requires 0 <= r < |ls| => Unir(sep, ls[r]))
  }

  /** What the inverse makes of a transformed table, whatever the delimiter was: the rows
      joined with the delimiter's first byte. */
  lemma InversaDeTCsv(dados: seq<byte>, delim: seq<byte>, t: seq<byte>)
    requires delim != [] && TCsv(dados, delim) == Ok(Some(t))
    ensures CsvInv(t) == Ok(Unir([LF], LinhasUnidas(Linhas(dados, delim), [delim[0]]))
                            + if TerminaEmLF(dados) then [LF] else [])
  {
    hide Dividir, LerVarint, LerVarints, Tamanhos, VarintBytes;
    var ls := Linhas(dados, delim);
    var n, cols := |ls|, |ls[0]|;
    var fs := Campos(ls, cols, cols);
    InicioDaTabela(delim[0], if TerminaEmLF(dados) then 1 else 0,
                   VarintBytes(n) + (VarintBytes(cols) + (Tamanhos(fs) + Concat(fs))));
    LerTabela(t, n, cols, fs);
    forall r | 0 <= r < n ensures |fs| == n * cols && Linha(fs, n, cols, r) == ls[r] { LinhaDosCampos(ls, cols, r); }
    assert Remontar(fs, n, cols, [delim[0]]) == LinhasUnidas(ls, [delim[0]]);
  }

  lemma InicioDaTabela(delim: byte, final: byte, resto: seq<byte>)
    ensures var t := [0x43, delim, final] + resto;
      t[1..2] == [delim] && t[2] == final && At(t, 3, resto)
  {
  }

  /** The inverse finds the counts and the fields it was given. */
  lemma LerTabela(t: seq<byte>, n: nat, cols: nat, fs: seq<seq<byte>>)
    requires 3 <= |t| && |fs| == cols * n
    requires At(t, 3, VarintBytes(n) + (VarintBytes(cols) + (Tamanhos(fs) + Concat(fs))))
    ensures |fs| == n * cols
    ensures CsvInv(t) == Ok(Unir([LF], Remontar(fs, n, cols, t[1..2])) + if t[2] != 0 then [LF] else [])
  {
    var resto := Tamanhos(fs) + Concat(fs);
    var p := LerUm(t, 3, n, VarintBytes(cols) + resto);
    var q := LerUm(t, p, cols, resto);
    LerCorpo(t, n, cols, fs, q);
  }

  lemma LerUm(t: seq<byte>, p: nat, v: nat, resto: seq<byte>) returns (q: nat)
    requires At(t, p, VarintBytes(v) + resto)
    ensures q == p + |VarintBytes(v)| && LerVarint(t, p) == Some((v, q)) && At(t, q, resto)
  {
    q := p + |VarintBytes(v)|;
    AtSplit(t, p, VarintBytes(v), resto);
    LerVarintBytes(t, p, v);
  }

  lemma LerCorpo(t: seq<byte>, n: nat, cols: nat, fs: seq<seq<byte>>, q: nat)
    requires 3 <= |t| && |fs| == cols * n && At(t, q, Tamanhos(fs) + Concat(fs))
    ensures |fs| == n * cols
    ensures CorpoInv(t, n, cols, q) ==
      Ok(Unir([LF], Remontar(fs, n, cols, t[1..2])) + if t[2] != 0 then [LF] else [])
  {
    hide LerVarints, Fatias, Remontar, Unir, Tamanhos, Concat, At;
    assert cols * n == n * cols;
    AtSplit(t, q, Tamanhos(fs), Concat(fs));
    LerTamanhos(t, q, fs);
    FatiarConcat(t, q + |Tamanhos(fs)|, fs);
  }

  /** With the delimiter it was split at, the table is put together as it was. */
  lemma UnirLinhas(dados: seq<byte>, delim: seq<byte>)
    requires delim != []
    ensures Unir([LF], LinhasUnidas(Linhas(dados, delim), delim)) + (if TerminaEmLF(dados) then [LF] else []) == dados
  {
    hide Unir, Dividir;
    var brutas := Dividir(Corpo(dados), [LF]);
    forall r | 0 <= r < |brutas| ensures Unir(delim, Dividir(brutas[r], delim)) == brutas[r] {
      UnirDividir(brutas[r], delim);
    }
    assert LinhasUnidas(Linhas(dados, delim), delim) == brutas;
    UnirDividir(Corpo(dados), [LF]);
  }

  lemma {:induction false} SeparadorMenor(ps: seq<seq<byte>>, a: seq<byte>, b: seq<byte>)
    requires |a| < |b|
    ensures |Unir(a, ps)| <= |Unir(b, ps)| && (|ps| >= 2 ==> |Unir(a, ps)| < |Unir(b, ps)|)
  {
    if |ps| >= 2 { SeparadorMenor(ps[1..], a, b); }
  }

  lemma {:induction false} PecasMenores(sep: seq<byte>, a: seq<seq<byte>>, b: seq<seq<byte>>)
    requires |a| == |b| > 0 && forall i :: 0 <= i < |a| ==> |a[i]| < |b[i]|
    ensures |Unir(sep, a)| < |Unir(sep, b)|
  {
    if |a| >= 2 { PecasMenores(sep, a[1..], b[1..]); }
  }

  /** The round trip.  Whenever t_csv applies, its inverse gives the data back if and only
      if the delimiter is a single byte: the output records only its first byte, so with a
      longer delimiter every row comes back shorter. */
  lemma IdaEVolta(dados: seq<byte>, delim: seq<byte>, t: seq<byte>)
    requires TCsv(dados, delim) == Ok(Some(t))
    ensures CsvInv(t) == Ok(dados) <==> |delim| == 1
  {
    hide Unir, Dividir, CsvInv;
    InversaDeTCsv(dados, delim, t);
    UnirLinhas(dados, delim);
    if |delim| == 1 {
      assert [delim[0]] == delim;
    } else {
      var ls := Linhas(dados, delim);
      forall r | 0 <= r < |ls| ensures |Unir([delim[0]], ls[r])| < |Unir(delim, ls[r])| {
        SeparadorMenor(ls[r], [delim[0]], delim);
      }
      PecasMenores([LF], LinhasUnidas(ls, [delim[0]]), LinhasUnidas(ls, delim));
    }
  }

  // ---------------------------------------------------------------- delimiters of any length

  /** sep stands at position j of s. */
  predicate Ocorre(s: seq<byte>, sep: seq<byte>, j: nat) { j + |sep| <= |s| && s[j..j + |sep|] == sep }

  lemma {:induction false} AcharPrimeiro(s: seq<byte>, sep: seq<byte>, i: nat, r: nat)
    requires i <= r && Ocorre(s, sep, r) && forall j :: i <= j < r ==> !Ocorre(s, sep, j)
    ensures Achar(s, sep, i) == r
    decreases r - i
  {
    if i < r {
      assert !Ocorre(s, sep, i);
      AcharPrimeiro(s, sep, i + 1, r);
    }
  }

  lemma {:induction false} NaoAchar(s: seq<byte>, sep: seq<byte>, i: nat)
    requires forall j :: i <= j ==> !Ocorre(s, sep, j)
    ensures Achar(s, sep, i) == -1
    decreases |s| - i
  {
    assert !Ocorre(s, sep, i);
    if i + |sep| <= |s| && i < |s| { NaoAchar(s, sep, i + 1); }
  }

  lemma DividirPrimeira(p: seq<byte>, resto: seq<byte>, x: byte)
    requires x !in p
    ensures Dividir(p, [x]) == [p]
    ensures Dividir(p + ([x] + resto), [x]) == [p] + Dividir(resto, [x])
  {
    hide Ocorre;
    var s := p + ([x] + resto);
    NaoAntes(p, p, x);
    NaoAntes(p, s, x);
    NaoAchar(p, [x], 0);
    LogoDepois(p, resto, x);
    AcharPrimeiro(s, [x], 0, |p|);
    assert s[..|p|] == p && s[|p| + 1..] == resto;
  }

  lemma NaoAntes(p: seq<byte>, s: seq<byte>, x: byte)
    requires x !in p && p <= s
    ensures forall j: nat :: j < |p| || |s| <= j ==> !Ocorre(s, [x], j)
  {
    forall j: nat | j < |p| ensures !Ocorre(s, [x], j) {
      assert s[j..j + 1][0] == p[j];
    }
  }

  lemma LogoDepois(p: seq<byte>, resto: seq<byte>, x: byte)
    ensures Ocorre(p + ([x] + resto), [x], |p|)
  {
  }

  lemma DividirDelim(delim: seq<byte>)
    requires delim != []
    ensures Dividir(delim, delim) == [[], []]
  {
    AcharPrimeiro(delim, delim, 0, 0);
    NaoAchar([], delim, 0);
    assert delim[|delim|..] == [] && delim[..0] == [];
  }

  /** Four rows of two empty fields, for any delimiter without a line end. */
  lemma QuatroLinhas(delim: seq<byte>) returns (dados: seq<byte>, t: seq<byte>)
    requires delim != [] && LF !in delim
    ensures TCsv(dados, delim) == Ok(Some(t))
  {
    hide Dividir, Tabela, Campos;
    var um := delim;
    var dois := delim + ([LF] + um);
    var tres := delim + ([LF] + dois);
    dados := delim + ([LF] + tres);
    DividirPrimeira(delim, um, LF);
    DividirPrimeira(delim, dois, LF);
    DividirPrimeira(delim, tres, LF);
    DividirDelim(delim);
    assert dados[|dados| - 1] == delim[|delim| - 1] && !TerminaEmLF(dados);
    var ls := Linhas(dados, delim);
    assert |ls| == 4 && forall r :: 0 <= r < 4 ==> ls[r] == [[], []];
    t := TCsv(dados, delim).value.value;
  }

  lemma {:induction false} PecasSemLF(s: seq<byte>)
    ensures forall r :: 0 <= r < |Dividir(s, [LF])| ==> LF !in Dividir(s, [LF])[r]
    decreases |s|
  {
    hide Achar, Dividir;
    var i := Achar(s, [LF], 0);
    AcharSemAntes(s, 0);
    DividirPasso(s, [LF]);
    if i < 0 {
      assert LF !in s;
    } else {
      assert LF !in s[..i];
      PecasSemLF(s[i + 1..]);
    }
  }

  lemma DividirPasso(s: seq<byte>, sep: seq<byte>)
    requires sep != []
    ensures var i := Achar(s, sep, 0);
      Dividir(s, sep) == if i < 0 then [s] else [s[..i]] + Dividir(s[i + |sep|..], sep)
  {
    hide Achar;
  }

  lemma {:induction false} AcharSemAntes(s: seq<byte>, i: nat)
    requires i <= |s|
    ensures var r := Achar(s, [LF], i); forall j :: i <= j < (if r < 0 then |s| else r) ==> s[j] != LF
    decreases |s| - i
  {
    if i < |s| && s[i..i + 1] != [LF] { AcharSemAntes(s, i + 1); }
  }

  lemma SemDelim(linha: seq<byte>, delim: seq<byte>)
    requires LF !in linha && LF in delim
    ensures Dividir(linha, delim) == [linha]
  {
    var d :| 0 <= d < |delim| && delim[d] == LF;
    forall j: nat ensures !Ocorre(linha, delim, j) {
      if j + |delim| <= |linha| { assert linha[j..j + |delim|][d] == linha[j + d]; }
    }
    NaoAchar(linha, delim, 0);
  }

  /** t_csv applies to some data exactly when its delimiter holds no line end; so it does for
      delimiters of two bytes or more, whose round trip fails. */
  lemma QuandoAplica(delim: seq<byte>)
    requires delim != []
    ensures (exists dados, t :: TCsv(dados, delim) == Ok(Some(t))) <==> LF !in delim
  {
    if LF !in delim {
      var dados, t := QuatroLinhas(delim);
    } else {
      forall dados, t ensures TCsv(dados, delim) != Ok(Some(t)) {
        PecasSemLF(Corpo(dados));
        SemDelim(Dividir(Corpo(dados), [LF])[0], delim);
      }
    }
  }

  // ---------------------------------------------------------------- from the table's side

  /** Splitting undoes joining where no piece holds the separator. */
  lemma {:induction false} DividirUnir(ps: seq<seq<byte>>, x: byte)
    requires ps != [] && forall i :: 0 <= i < |ps| ==> x !in ps[i]
    ensures Dividir(Unir([x], ps), [x]) == ps
  {
    hide Dividir;
    if |ps| == 1 {
      DividirPrimeira(ps[0], [], x);
    } else {
      var resto := Unir([x], ps[1..]);
      DividirUnir(ps[1..], x);
      DividirPrimeira(ps[0], resto, x);
      assert Unir([x], ps) == ps[0] + ([x] + resto);
    }
  }

  lemma {:induction false} UnirSem(ps: seq<seq<byte>>, sep: byte, x: byte)
    requires sep != x && forall i :: 0 <= i < |ps| ==> x !in ps[i]
    ensures x !in Unir([sep], ps)
  {
    if |ps| >= 2 { UnirSem(ps[1..], sep, x); }
  }

  lemma {:induction false} UltimoDaUniao(ps: seq<seq<byte>>, sep: seq<byte>)
    requires ps != [] && ps[|ps| - 1] != []
    ensures Unir(sep, ps) != []
    ensures var u, p := Unir(sep, ps), ps[|ps| - 1]; u[|u| - 1] == p[|p| - 1]
  {
    if |ps| >= 2 { UltimoDaUniao(ps[1..], sep); }
  }

  /** The text of a table: fields joined by the delimiter, lines by line ends, and perhaps a
      line end after the last line. */
  function Texto(ls: seq<seq<seq<byte>>>, delim: byte, final: bool): seq<byte> {
    Unir([LF], LinhasUnidas(ls, [delim])) + if final then [LF] else []
  }

  /** Rows of fields without delimiter and line end.  Without a final line end the last line
      is not empty: a text that ends in a line end is that of the rows before it. */
  ghost predicate Limpa(ls: seq<seq<seq<byte>>>, delim: byte, final: bool) {
    && delim != LF && ls != [] && (forall r :: 0 <= r < |ls| ==> LinhaLimpa(ls[r], delim))
    && (final || |ls| == 1 || ls[|ls| - 1] != [[]])
  }

  ghost predicate LinhaLimpa(l: seq<seq<byte>>, delim: byte) {
    l != [] && forall c :: 0 <= c < |l| ==> delim !in l[c] && LF !in l[c]
  }

  lemma UltimaLinhaVazia(ls: seq<seq<seq<byte>>>, delim: byte)
    requires |ls| > 1 && ls[|ls| - 1] == [[]]
    ensures Texto(ls, delim, false) == Texto(ls[..|ls| - 1], delim, true)
  {
    var us := LinhasUnidas(ls, [delim]);
    assert LinhasUnidas(ls[..|ls| - 1], [delim]) == us[..|ls| - 1];
    UnirUltimaVazia(us);
  }

  lemma {:induction false} UnirUltimaVazia(us: seq<seq<byte>>)
    requires |us| > 1 && us[|us| - 1] == []
    ensures Unir([LF], us) == Unir([LF], us[..|us| - 1]) + [LF]
  {
    if |us| > 2 {
      UnirUltimaVazia(us[1..]);
      assert us[..|us| - 1][1..] == us[1..][..|us| - 2];
    }
  }

  lemma LinhasDoTexto(ls: seq<seq<seq<byte>>>, delim: byte, final: bool)
    requires Limpa(ls, delim, final)
    ensures TerminaEmLF(Texto(ls, delim, final)) == final
    ensures Dividir(Corpo(Texto(ls, delim, final)), [LF]) == LinhasUnidas(ls, [delim])
  {
    hide Unir, Dividir;
    var us, t := LinhasUnidas(ls, [delim]), Texto(ls, delim, final);
    forall r | 0 <= r < |ls| ensures LF !in us[r] {
      assert LinhaLimpa(ls[r], delim);
      UnirSem(ls[r], delim, LF);
    }
    DividirUnir(us, LF);
    if final {
      assert t[..|t| - 1] == Unir([LF], us);
    } else {
      SemLinhaFinal(ls, delim);
      assert t == Unir([LF], us);
    }
  }

  lemma SemLinhaFinal(ls: seq<seq<seq<byte>>>, delim: byte)
    requires Limpa(ls, delim, false)
    ensures !TerminaEmLF(Unir([LF], LinhasUnidas(ls, [delim])))
  {
    var us, l := LinhasUnidas(ls, [delim]), ls[|ls| - 1];
    assert LinhaLimpa(l, delim);
    UnirSem(l, delim, LF);
    if us[|us| - 1] != [] {
      UltimoDaUniao(us, [LF]);
    } else {
      UniaoVazia(l, delim);
    }
  }

  lemma UniaoVazia(l: seq<seq<byte>>, delim: byte)
    requires l != [] && Unir([delim], l) == []
    ensures l == [[]]
  {
  }

  /** The rows that t_csv sees in the text of a table are the table's. */
  lemma TabelaDoTexto(ls: seq<seq<seq<byte>>>, delim: byte, final: bool)
    requires Limpa(ls, delim, final)
    ensures Linhas(Texto(ls, delim, final), [delim]) == ls
  {
    hide Unir, Dividir, Corpo, Texto;
    LinhasDoTexto(ls, delim, final);
    forall r | 0 <= r < |ls| ensures Dividir(LinhasUnidas(ls, [delim])[r], [delim]) == ls[r] {
      assert LinhaLimpa(ls[r], delim);
      DividirUnir(ls[r], delim);
    }
  }

  /** t_csv on the text of a table: it applies exactly to four rows or more of two columns or
      more, all of the same number of fields.  The output is the mark 0x43, the delimiter, one
      or zero for the final line end, the numbers of rows and columns, then the lengths of all
      fields and the fields, column after column. */
  lemma TCsvDeTabela(ls: seq<seq<seq<byte>>>, delim: byte, final: bool) returns (fs: seq<seq<byte>>)
    requires Limpa(ls, delim, final)
    ensures var n, cols := |ls|, |ls[0]|;
      if n >= 4 && cols >= 2 && Retangular(ls, cols) then
        && |fs| == cols * n
        && (forall r, c :: 0 <= r < n && 0 <= c < cols ==> NaColuna(fs, ls, cols, r, c))
        && TCsv(Texto(ls, delim, final), [delim]) == Ok(Some([0x43, delim, if final then 1 else 0]
             + (VarintBytes(n) + (VarintBytes(cols) + (Tamanhos(fs) + Concat(fs))))))
      else TCsv(Texto(ls, delim, final), [delim]) == Ok(None)
  {
    hide Unir, Dividir, Corpo, Texto, Linhas, Campos, Tamanhos, VarintBytes;
    TabelaDoTexto(ls, delim, final);
    LinhasDoTexto(ls, delim, final);
    var n, cols := |ls|, |ls[0]|;
    fs := [];
    if n >= 4 && cols >= 2 && Retangular(ls, cols) {
      fs := Campos(ls, cols, cols);
      forall r, c | 0 <= r < n && 0 <= c < cols ensures NaColuna(fs, ls, cols, r, c) {
        CampoDaColuna(ls, cols, cols, r, c);
      }
    }
  }

  /** Field c of row r stands at place r of column c. */
  predicate NaColuna(fs: seq<seq<byte>>, ls: seq<seq<seq<byte>>>, cols: nat, r: nat, c: nat)
    requires Retangular(ls, cols) && r < |ls| && c < cols
  {
    0 <= c * |ls| + r < |fs| && fs[c * |ls| + r] == ls[r][c]
  }

  // ---------------------------------------------------------------- data cut short

  lemma {:induction false} LerVarintCortado(d: seq<byte>, p: nat, k: nat)
    requires k <= |d| && LerVarint(d, p).Some?
    ensures LerVarint(d[..k], p) == if LerVarint(d, p).value.1 <= k then LerVarint(d, p) else None
    decreases |d| - p
  {
    if d[p] >= 128 { LerVarintCortado(d, p + 1, k); }
  }

  lemma {:induction false} LerVarintsAvanca(d: seq<byte>, p: nat, n: nat)
    requires LerVarints(d, p, n).Some?
    ensures var e := LerVarints(d, p, n).value.1; p <= e && (n == 0 <==> p == e) && (0 < n ==> e <= |d|)
    decreases n
  {
    if n > 0 { LerVarintsAvanca(d, LerVarint(d, p).value.1, n - 1); }
  }

  lemma {:induction false} LerVarintsCortados(d: seq<byte>, p: nat, n: nat, k: nat)
    requires p <= k <= |d| && LerVarints(d, p, n).Some?
    ensures LerVarints(d[..k], p, n) == if LerVarints(d, p, n).value.1 <= k then LerVarints(d, p, n) else None
    decreases n
  {
    if n > 0 {
      var q := LerVarint(d, p).value.1;
      LerVarintCortado(d, p, k);
      LerVarintsAvanca(d, q, n - 1);
      if q <= k { LerVarintsCortados(d, q, n - 1, k); }
    }
  }

  /** Where the lengths end in data that the inverse accepts. */
  function FimDosTamanhos(d: seq<byte>): (e: nat)
    requires CsvInv(d).Ok?
  {
    var (n, p) := LerVarint(d, 3).value;
    var (cols, q) := LerVarint(d, p).value;
    LerVarints(d, q, n * cols).value.1
  }

  /** What begins such data is accepted as well if and only if it reaches to the end of the
      lengths: fields cut short are no error, lengths cut short raise IndexError. */
  lemma InversaDeCortado(d: seq<byte>, k: nat)
    requires CsvInv(d).Ok? && k <= |d|
    ensures if k < FimDosTamanhos(d) then CsvInv(d[..k]) == Err("IndexError") else CsvInv(d[..k]).Ok?
  {
    hide LerVarint, LerVarints, Fatias, Remontar, Unir;
    var (n, p) := LerVarint(d, 3).value;
    var (cols, q) := LerVarint(d, p).value;
    LerVarintsAvanca(d, q, n * cols);
    if 3 <= k {
      LerVarintCortado(d, 3, k);
      if p <= k {
        LerVarintCortado(d, p, k);
        if q <= k { LerVarintsCortados(d, q, n * cols, k); }
      }
    }
  }

  /** In the output of t_csv the fields follow the lengths and end the data. */
  lemma FimDosTamanhosDeTCsv(dados: seq<byte>, delim: seq<byte>, t: seq<byte>)
    requires delim != [] && TCsv(dados, delim) == Ok(Some(t))
    ensures CsvInv(t).Ok? && var ls := Linhas(dados, delim);
      Retangular(ls, |ls[0]|) && FimDosTamanhos(t) + |Concat(Campos(ls, |ls[0]|, |ls[0]|))| == |t|
  {
    hide At, LerVarint, LerVarints, Fatias, Remontar, Unir, Linhas, Campos, CorpoInv, CsvInv, Tamanhos, Concat, VarintBytes;
    var ls := Linhas(dados, delim);
    var n, cols := |ls|, |ls[0]|;
    var fs := Campos(ls, cols, cols);
    var resto := Tamanhos(fs) + Concat(fs);
    InversaDeTCsv(dados, delim, t);
    InicioDaTabela(delim[0], if TerminaEmLF(dados) then 1 else 0, VarintBytes(n) + (VarintBytes(cols) + resto));
    var p := LerUm(t, 3, n, VarintBytes(cols) + resto);
    var q := LerUm(t, p, cols, resto);
    AtSplit(t, q, Tamanhos(fs), Concat(fs));
    LerTamanhos(t, q, fs);
    assert cols * n == n * cols;
    TamanhoDaTabela(delim[0], if TerminaEmLF(dados) then 1 else 0, n, cols, fs);
  }

  lemma TamanhoDaTabela(delim: byte, final: byte, n: nat, cols: nat, fs: seq<seq<byte>>)
    ensures |Tabela(delim, final, n, cols, fs)| ==
      3 + |VarintBytes(n)| + |VarintBytes(cols)| + |Tamanhos(fs)| + |Concat(fs)|
  {
  }

  /** An input that does not come back. */
  lemma DoisBytes() returns (dados: seq<byte>, delim: seq<byte>, t: seq<byte>)
    ensures |delim| == 2 && TCsv(dados, delim) == Ok(Some(t)) && CsvInv(t) != Ok(dados)
  {
    delim := [44, 44];
    dados, t := QuatroLinhas(delim);
    IdaEVolta(dados, delim, t);
  }
}
