/** The CBOR decoder of bench/openzl_bench.py against the encoding of sections 3.1 and 3.2
    of RFC 8949.  `Dec` is the decoder as a function, with the Python exceptions it raises;
    the recursive method with its loops is proved equal to it. */
module Cbor {
  import opened Base

  // ---------------------------------------------------------------- Python values

  /** What the decoder returns.  A dict is the list of its entries in insertion order. */
  datatype Valor = Int(n: int) | Bytes(b: seq<byte>) | Texto(t: string) | Lista(xs: Valores)
                 | Dict(ps: Entradas) | Bool(v: bool) | Nulo
  datatype Valores = VNil | VCons(head: Valor, tail: Valores)
  datatype Entradas = ENil | ECons(k: Valor, v: Valor, tail: Entradas)

  datatype Erro = IndexError | StructError | ValueError | TypeError

  /** Lists and dicts cannot be dict keys. */
  predicate Hashable(k: Valor) { !k.Lista? && !k.Dict? }

  /** Python's == on hashable values: True is 1 and False is 0. */
  predicate PyEq(a: Valor, b: Valor) {
    a == b || (a.Bool? && b.Int? && b.n == (if a.v then 1 else 0))
           || (a.Int? && b.Bool? && a.n == (if b.v then 1 else 0))
  }

  /** out[k] = v: an equal key keeps its place and its first spelling. */
  function Inserir(d: Entradas, k: Valor, v: Valor): Entradas {
    match d
    case ENil => ECons(k, v, ENil)
    case ECons(k', v', t) => if PyEq(k', k) then ECons(k', v, t) else ECons(k', v', Inserir(t, k, v))
  }

  function Anexar(xs: Valores, x: Valor): Valores {
    match xs
    case VNil => VCons(x, VNil)
    case VCons(y, t) => VCons(y, Anexar(t, x))
  }

  // ---------------------------------------------------------------- the decoder

  function BigEndian(b: seq<byte>): nat {
    if b == [] then 0 else 256 * BigEndian(b[..|b| - 1]) + b[|b| - 1] as int
  }

  /** The argument of a head: a number, or nothing for additional information 31. */
  datatype Argumento = Num(n: nat) | Indefinido

  /** The argument that follows the initial byte, and the position after it. */
  function LerArgumento(b: seq<byte>, i: nat, ai: nat): (r: Result<(Argumento, nat), Erro>)
    ensures r.Ok? ==> i <= r.value.1
  {
    if ai < 24 then Ok((Num(ai), i))
    else if ai == 24 then if i < |b| then Ok((Num(b[i] as int), i + 1)) else Err(IndexError)
    else if ai <= 27 then
      var w := if ai == 25 then 2 else if ai == 26 then 4 else 8;
      if i + w <= |b| then Ok((Num(BigEndian(b[i..i + w])), i + w)) else Err(StructError)
    else if ai == 31 then Ok((Indefinido, i))
    else Err(ValueError)
  }

  /** b[i : i + n] with Python's clamping: a string cut short is not an error. */
  function Fatia(b: seq<byte>, i: nat, n: nat): seq<byte> {
    var hi := Min(i + n, |b|);
    if i < hi then b[i..hi] else []
  }

  function Rank(b: seq<byte>, i: nat): nat { if i < |b| then |b| - i else 0 }

  /** decodificar_cbor(b, i), with `txt` for bytes.decode("utf-8", "replace"). */
  function Dec(txt: seq<byte> -> string, b: seq<byte>, i: nat): (r: Result<(Valor, nat), Erro>)
    ensures r.Ok? ==> i < |b| && i < r.value.1
    decreases Rank(b, i), 0
  {
    if i >= |b| then Err(IndexError) else
    match LerArgumento(b, i + 1, b[i] as int % 32)
    case Err(e) => Err(e)
    case Ok((arg, j)) => DecCorpo(txt, b, j, b[i] as int / 32, b[i] as int % 32, arg)
  }

  /** What follows a head of major type mt, whose argument ended at j. */
  function DecCorpo(txt: seq<byte> -> string, b: seq<byte>, j: nat, mt: nat, ai: nat, arg: Argumento): (r: Result<(Valor, nat), Erro>)
    ensures r.Ok? ==> j <= r.value.1
    decreases Rank(b, j), 3, 0
  {
    if mt == 0 then Ok((if arg.Num? then Int(arg.n) else Nulo, j))
    else if mt == 1 then if arg.Num? then Ok((Int(-1 - arg.n), j)) else Err(TypeError)
    else if mt == 2 then if arg.Num? then Ok((Bytes(Fatia(b, j, arg.n)), j + arg.n)) else Err(TypeError)
    else if mt == 3 then if arg.Num? then Ok((Texto(txt(Fatia(b, j, arg.n))), j + arg.n)) else Err(TypeError)
    else if mt == 4 then
      FimLista(if arg.Num? then DecItens(txt, b, j, arg.n, VNil) else DecAteQuebra(txt, b, j, VNil))
    else if mt == 5 then
      FimDict(if arg.Num? then DecPares(txt, b, j, arg.n, ENil) else DecParesAteQuebra(txt, b, j, ENil))
    else if mt == 6 then Dec(txt, b, j)
    else Ok((if ai == 20 then Bool(false) else if ai == 21 then Bool(true)
             else if ai == 22 || arg == Indefinido then Nulo else Int(arg.n), j))
  }

  function FimLista(r: Result<(Valores, nat), Erro>): Result<(Valor, nat), Erro> {
    match r case Err(e) => Err(e) case Ok((xs, e)) => Ok((Lista(xs), e))
  }
  function FimDict(r: Result<(Entradas, nat), Erro>): Result<(Valor, nat), Erro> {
    match r case Err(e) => Err(e) case Ok((ps, e)) => Ok((Dict(ps), e))
  }

  /** n items, added to `out`. */
  function DecItens(txt: seq<byte> -> string, b: seq<byte>, i: nat, n: nat, out: Valores): (r: Result<(Valores, nat), Erro>)
    ensures r.Ok? ==> i <= r.value.1
    decreases Rank(b, i), 1, n
  {
    if n == 0 then Ok((out, i)) else
    match Dec(txt, b, i)
    case Err(e) => Err(e)
    case Ok((x, j)) => DecItens(txt, b, j, n - 1, Anexar(out, x))
  }

  /** Items up to the break byte. */
  function DecAteQuebra(txt: seq<byte> -> string, b: seq<byte>, i: nat, out: Valores): (r: Result<(Valores, nat), Erro>)
    ensures r.Ok? ==> i < r.value.1
    decreases Rank(b, i), 1
  {
    if i >= |b| then Err(IndexError)
    else if b[i] == 0xFF then Ok((out, i + 1))
    else match Dec(txt, b, i)
      case Err(e) => Err(e)
      case Ok((x, j)) => DecAteQuebra(txt, b, j, Anexar(out, x))
  }

  /** One key, its value, and the insertion. */
  function DecPar(txt: seq<byte> -> string, b: seq<byte>, i: nat, out: Entradas): (r: Result<(Entradas, nat), Erro>)
    ensures r.Ok? ==> i < |b| && i < r.value.1
    decreases Rank(b, i), 1
  {
    match Dec(txt, b, i)
    case Err(e) => Err(e)
    case Ok((k, j)) =>
      match Dec(txt, b, j)
      case Err(e) => Err(e)
      case Ok((v, e)) => if Hashable(k) then Ok((Inserir(out, k, v), e)) else Err(TypeError)
  }

  function DecPares(txt: seq<byte> -> string, b: seq<byte>, i: nat, n: nat, out: Entradas): (r: Result<(Entradas, nat), Erro>)
    ensures r.Ok? ==> i <= r.value.1
    decreases Rank(b, i), 2, n
  {
    if n == 0 then Ok((out, i)) else
    match DecPar(txt, b, i, out)
    case Err(e) => Err(e)
    case Ok((ps, j)) => DecPares(txt, b, j, n - 1, ps)
  }

  function DecParesAteQuebra(txt: seq<byte> -> string, b: seq<byte>, i: nat, out: Entradas): (r: Result<(Entradas, nat), Erro>)
    ensures r.Ok? ==> i < r.value.1
    decreases Rank(b, i), 2
  {
    if i >= |b| then Err(IndexError)
    else if b[i] == 0xFF then Ok((out, i + 1))
    else match DecPar(txt, b, i, out)
      case Err(e) => Err(e)
      case Ok((ps, j)) => DecParesAteQuebra(txt, b, j, ps)
  }

  /** The decoder itself: recursion for nested items, loops over containers. */
  method DecodificarCbor(txt: seq<byte> -> string, b: seq<byte>, i: nat) returns (r: Result<(Valor, nat), Erro>)
    ensures r == Dec(txt, b, i)
    decreases Rank(b, i), 0
  {
    if i >= |b| { return Err(IndexError); }
    var mt, ai := b[i] as int / 32, b[i] as int % 32;
    var a := LerArgumento(b, i + 1, ai);
    if a.Err? { return Err(a.error); }
    var arg, j := a.value.0, a.value.1;
    if mt == 0 {
      return Ok((if arg.Num? then Int(arg.n) else Nulo, j));
    }
    if mt <= 3 {
      if arg == Indefinido { return Err(TypeError); }
      return Ok((if mt == 1 then Int(-1 - arg.n) else if mt == 2 then Bytes(Fatia(b, j, arg.n))
                 else Texto(txt(Fatia(b, j, arg.n))), if mt == 1 then j else j + arg.n));
    }
    if mt == 4 {
      r := LerLista(txt, b, j, arg);
    } else if mt == 5 {
      r := LerDict(txt, b, j, arg);
    } else if mt == 6 {
      r := DecodificarCbor(txt, b, j);
    } else {
      r := Ok((if ai == 20 then Bool(false) else if ai == 21 then Bool(true)
               else if ai == 22 || arg == Indefinido then Nulo else Int(arg.n), j));
    }
  }

  /** The array branch. */
  method LerLista(txt: seq<byte> -> string, b: seq<byte>, i: nat, arg: Argumento) returns (r: Result<(Valor, nat), Erro>)
    ensures r == FimLista(if arg.Num? then DecItens(txt, b, i, arg.n, VNil) else DecAteQuebra(txt, b, i, VNil))
    decreases Rank(b, i), 1
  {
    var out, j := VNil, i;
    if arg == Indefinido {
      while true
        invariant i <= j && DecAteQuebra(txt, b, i, VNil) == DecAteQuebra(txt, b, j, out)
        decreases Rank(b, j)
      {
        if j >= |b| { return Err(IndexError); }
        if b[j] == 0xFF { return Ok((Lista(out), j + 1)); }
        var x := DecodificarCbor(txt, b, j);
        if x.Err? { return Err(x.error); }
        out, j := Anexar(out, x.value.0), x.value.1;
      }
    }
    var k := 0;
    while k < arg.n
      invariant 0 <= k <= arg.n && i <= j
      invariant DecItens(txt, b, i, arg.n, VNil) == DecItens(txt, b, j, arg.n - k, out)
    {
      var x := DecodificarCbor(txt, b, j);
      if x.Err? { return Err(x.error); }
      out, j := Anexar(out, x.value.0), x.value.1;
      k := k + 1;
    }
    r := Ok((Lista(out), j));
  }

  /** The map branch. */
  method LerDict(txt: seq<byte> -> string, b: seq<byte>, i: nat, arg: Argumento) returns (r: Result<(Valor, nat), Erro>)
    ensures r == FimDict(if arg.Num? then DecPares(txt, b, i, arg.n, ENil) else DecParesAteQuebra(txt, b, i, ENil))
    decreases Rank(b, i), 2
  {
    var out, j := ENil, i;
    if arg == Indefinido {
      while true
        invariant i <= j && DecParesAteQuebra(txt, b, i, ENil) == DecParesAteQuebra(txt, b, j, out)
        decreases Rank(b, j)
      {
        if j >= |b| { return Err(IndexError); }
        if b[j] == 0xFF { return Ok((Dict(out), j + 1)); }
        var p := LerPar(txt, b, j, out);
        if p.Err? { return Err(p.error); }
        out, j := p.value.0, p.value.1;
      }
    }
    var k := 0;
    while k < arg.n
      invariant 0 <= k <= arg.n && i <= j
      invariant DecPares(txt, b, i, arg.n, ENil) == DecPares(txt, b, j, arg.n - k, out)
    {
      var p := LerPar(txt, b, j, out);
      if p.Err? { return Err(p.error); }
      out, j := p.value.0, p.value.1;
      k := k + 1;
    }
    r := Ok((Dict(out), j));
  }

  /** k, i = decode; v, i = decode; out[k] = v */
  method LerPar(txt: seq<byte> -> string, b: seq<byte>, i: nat, out: Entradas) returns (r: Result<(Entradas, nat), Erro>)
    ensures r == DecPar(txt, b, i, out)
    decreases Rank(b, i), 1
  {
    var k := DecodificarCbor(txt, b, i);
    if k.Err? { return Err(k.error); }
    var v := DecodificarCbor(txt, b, k.value.1);
    if v.Err? { return Err(v.error); }
    r := if Hashable(k.value.0) then Ok((Inserir(out, k.value.0, v.value.0), v.value.1)) else Err(TypeError);
  }

  // ---------------------------------------------------------------- the encoding

  /** A well-formed data item together with the choices its encoder made: the width in
      bytes of each head's argument (0: inside the initial byte), definite or indefinite
      length.  Text is given by its bytes. */
  datatype Item = Natural(w: nat, n: nat) | Negativo(w: nat, n: nat)
                | Octetos(w: nat, s: seq<byte>) | Letras(w: nat, s: seq<byte>)
                | Vetor(w: nat, xs: Itens) | VetorAberto(xs: Itens)
                | Mapa(w: nat, ps: Pares) | MapaAberto(ps: Pares)
                | Etiqueta(w: nat, n: nat, x: Item) | Booleano(v: bool) | Vazio
  datatype Itens = INil | ICons(head: Item, tail: Itens)
  datatype Pares = PNil | PCons(k: Item, v: Item, tail: Pares)

  function Tamanho(xs: Itens): nat { match xs case INil => 0 case ICons(_, t) => 1 + Tamanho(t) }
  function Quantos(ps: Pares): nat { match ps case PNil => 0 case PCons(_, _, t) => 1 + Quantos(t) }

  /** n can be the argument of a head of width w. */
  predicate Cabe(w: nat, n: nat) {
    if w == 0 then n < 24 else w in {1, 2, 4, 8} && n < Pow256(w)
  }

  function ToBigEndian(n: nat, w: nat): (b: seq<byte>)
    ensures |b| == w
  {
    if w == 0 then [] else ToBigEndian(n / 256, w - 1) + [n % 256]
  }

  /** The additional information that announces an argument of width w. */
  function Info(w: nat, n: nat): nat
    requires Cabe(w, n)
  {
    if w == 0 then n else if w == 1 then 24 else if w == 2 then 25 else if w == 4 then 26 else 27
  }

  function Cabeca(mt: nat, w: nat, n: nat): (b: seq<byte>)
    requires mt < 8 && Cabe(w, n)
    ensures b != []
  {
    [mt * 32 + Info(w, n)] + ToBigEndian(n, w)
  }

  predicate BemFormado(x: Item) {
    match x
    case Natural(w, n) => Cabe(w, n)
    case Negativo(w, n) => Cabe(w, n)
    case Octetos(w, s) => Cabe(w, |s|)
    case Letras(w, s) => Cabe(w, |s|)
    case Vetor(w, xs) => Cabe(w, Tamanho(xs)) && BemFormados(xs)
    case VetorAberto(xs) => BemFormados(xs)
    case Mapa(w, ps) => Cabe(w, Quantos(ps)) && ParesBemFormados(ps)
    case MapaAberto(ps) => ParesBemFormados(ps)
    case Etiqueta(w, n, y) => Cabe(w, n) && BemFormado(y)
    case Booleano(_) => true
    case Vazio => true
  }
  predicate BemFormados(xs: Itens) { match xs case INil => true case ICons(x, t) => BemFormado(x) && BemFormados(t) }
  predicate ParesBemFormados(ps: Pares) {
    match ps case PNil => true case PCons(k, v, t) => BemFormado(k) && BemFormado(v) && ParesBemFormados(t)
  }

  function Enc(x: Item): (b: seq<byte>)
    requires BemFormado(x)
    ensures b != []
  {
    match x
    case Natural(w, n) => Cabeca(0, w, n)
    case Negativo(w, n) => Cabeca(1, w, n)
    case Octetos(w, s) => Cabeca(2, w, |s|) + s
    case Letras(w, s) => Cabeca(3, w, |s|) + s
    case Vetor(w, xs) => Cabeca(4, w, Tamanho(xs)) + EncItens(xs)
    case VetorAberto(xs) => [0x9F] + (EncItens(xs) + [0xFF])
    case Mapa(w, ps) => Cabeca(5, w, Quantos(ps)) + EncPares(ps)
    case MapaAberto(ps) => [0xBF] + (EncPares(ps) + [0xFF])
    case Etiqueta(w, n, y) => Cabeca(6, w, n) + Enc(y)
    case Booleano(v) => if v then [0xF5] else [0xF4]
    case Vazio => [0xF6]
  }
  function EncItens(xs: Itens): seq<byte>
    requires BemFormados(xs)
  {
    match xs case INil => [] case ICons(x, t) => Enc(x) + EncItens(t)
  }
  function EncPares(ps: Pares): seq<byte>
    requires ParesBemFormados(ps)
  {
    match ps case PNil => [] case PCons(k, v, t) => Enc(k) + (Enc(v) + EncPares(t))
  }

  /** No item begins with the break byte, so indefinite containers end where they should. */
  lemma NenhumItemComecaComQuebra(x: Item)
    requires BemFormado(x)
    ensures Enc(x)[0] != 0xFF
  {
  }

  // ---------------------------------------------------------------- the encoding against the standard

  /** Section 3 of RFC 8949: the head's argument is in network byte order. */
  lemma {:induction false} ByteBigEndian(n: nat, w: nat, k: nat)
    requires k < w
    ensures ToBigEndian(n, w)[k] == n / Pow256(w - 1 - k) % 256
  {
    if k < w - 1 {
      ByteBigEndian(n / 256, w - 1, k);
      DivDiv(n, 256, Pow256(w - 2 - k));
    } else {
      assert n / 1 == n;
    }
  }

  /** The initial byte: the major type in the high three bits, and in the low five the argument
      itself or 24, 25, 26, 27 for an argument in the next 1, 2, 4, 8 bytes. */
  lemma CabecaDaNorma(mt: nat, w: nat, n: nat)
    requires mt < 8 && Cabe(w, n)
    ensures |Cabeca(mt, w, n)| == 1 + w && Cabeca(mt, w, n)[0] as int / 32 == mt
    ensures Cabeca(mt, w, n)[0] as int % 32 ==
      (match w case 0 => n case 1 => 24 case 2 => 25 case 4 => 26 case _ => 27)
  {
    hide Pow256, ToBigEndian;
  }

  lemma ArgumentoDaNorma(mt: nat, w: nat, n: nat, k: nat)
    requires mt < 8 && Cabe(w, n) && k < w
    ensures 1 + k < |Cabeca(mt, w, n)| && Cabeca(mt, w, n)[1 + k] == n / Pow256(w - 1 - k) % 256
  {
    hide Pow256, ToBigEndian, Info;
    ByteBigEndian(n, w, k);
  }

  /** Section 3.1: the major types.  Sections 3.2.2 and 3.3: open containers and the simple
      values false, true and null. */
  lemma TiposDaNorma(x: Item)
    requires BemFormado(x)
    ensures Enc(x)[0] as int / 32 ==
      match x
      case Natural(_, _) => 0 case Negativo(_, _) => 1 case Octetos(_, _) => 2 case Letras(_, _) => 3
      case Vetor(_, _) => 4 case VetorAberto(_) => 4 case Mapa(_, _) => 5 case MapaAberto(_) => 5
      case Etiqueta(_, _, _) => 6 case Booleano(_) => 7 case Vazio => 7
    ensures x.VetorAberto? || x.MapaAberto? ==> Enc(x)[0] as int % 32 == 31 && Enc(x)[|Enc(x)| - 1] == 0xFF
    ensures x.Booleano? || x.Vazio? ==> Enc(x) == [224 + if x == Vazio then 22 else if x == Booleano(true) then 21 else 20]
  {
  }

  /** Section 3.1: items in order, each key immediately followed by its value. */
  lemma {:induction false} CorposDaNorma(x: Item, xs: Itens, k: Item, v: Item, ps: Pares)
    requires BemFormado(x) && BemFormados(xs) && BemFormado(k) && BemFormado(v) && ParesBemFormados(ps)
    ensures EncItens(ICons(x, xs)) == Enc(x) + EncItens(xs) && EncItens(INil) == []
    ensures EncPares(PCons(k, v, ps)) == Enc(k) + (Enc(v) + EncPares(ps)) && EncPares(PNil) == []
  {
  }

  // ---------------------------------------------------------------- what an item means to Python

  /** The Python value built from an item, tags dropped; TypeError for an unhashable key. */
  function Construir(txt: seq<byte> -> string, x: Item): Result<Valor, Erro> {
    match x
    case Natural(_, n) => Ok(Int(n))
    case Negativo(_, n) => Ok(Int(-1 - n))
    case Octetos(_, s) => Ok(Bytes(s))
    case Letras(_, s) => Ok(Texto(txt(s)))
    case Vetor(_, xs) => ComoLista(ConstruirItens(txt, xs, VNil))
    case VetorAberto(xs) => ComoLista(ConstruirItens(txt, xs, VNil))
    case Mapa(_, ps) => ComoDict(ConstruirPares(txt, ps, ENil))
    case MapaAberto(ps) => ComoDict(ConstruirPares(txt, ps, ENil))
    case Etiqueta(_, _, y) => Construir(txt, y)
    case Booleano(v) => Ok(Bool(v))
    case Vazio => Ok(Nulo)
  }
  function ComoLista(r: Result<Valores, Erro>): Result<Valor, Erro> {
    match r case Err(e) => Err(e) case Ok(xs) => Ok(Lista(xs))
  }
  function ComoDict(r: Result<Entradas, Erro>): Result<Valor, Erro> {
    match r case Err(e) => Err(e) case Ok(ps) => Ok(Dict(ps))
  }
  function ConstruirItens(txt: seq<byte> -> string, xs: Itens, out: Valores): Result<Valores, Erro> {
    match xs
    case INil => Ok(out)
    case ICons(x, t) =>
      match Construir(txt, x) case Err(e) => Err(e) case Ok(v) => ConstruirItens(txt, t, Anexar(out, v))
  }
  /** The first pair of ps. */
  function ConstruirPar(txt: seq<byte> -> string, ps: Pares, out: Entradas): Result<Entradas, Erro>
    requires ps.PCons?
    decreases ps, 0
  {
    match Construir(txt, ps.k)
    case Err(e) => Err(e)
    case Ok(kk) =>
      match Construir(txt, ps.v)
      case Err(e) => Err(e)
      case Ok(vv) => if Hashable(kk) then Ok(Inserir(out, kk, vv)) else Err(TypeError)
  }
  function ConstruirPares(txt: seq<byte> -> string, ps: Pares, out: Entradas): Result<Entradas, Erro>
    decreases ps, 1
  {
    if ps.PNil? then Ok(out) else
    match ConstruirPar(txt, ps, out) case Err(e) => Err(e) case Ok(d) => ConstruirPares(txt, ps.tail, d)
  }

  /** The outcome of decoding an encoding of `len` bytes at i that builds r. */
  function Fim<T>(r: Result<T, Erro>, e: nat): Result<(T, nat), Erro> {
    match r case Err(x) => Err(x) case Ok(v) => Ok((v, e))
  }

  // ---------------------------------------------------------------- decoding inverts encoding

  lemma {:induction false} LerBigEndian(n: nat, w: nat)
    requires n < Pow256(w)
    ensures BigEndian(ToBigEndian(n, w)) == n
  {
    if w > 0 {
      LerBigEndian(n / 256, w - 1);
      var b := ToBigEndian(n, w);
      assert b[..|b| - 1] == ToBigEndian(n / 256, w - 1);
    }
  }

  /** The head of an item is read back, and what follows it stands at the returned position. */
  lemma LerCabeca(b: seq<byte>, i: nat, mt: nat, w: nat, n: nat, resto: seq<byte>) returns (j: nat)
    requires mt < 8 && Cabe(w, n) && At(b, i, Cabeca(mt, w, n) + resto)
    ensures i < j <= |b| && At(b, j, resto) && j + |resto| == i + |Cabeca(mt, w, n) + resto|
    ensures b[i] as int / 32 == mt && b[i] as int % 32 == Info(w, n)
    ensures LerArgumento(b, i + 1, Info(w, n)) == Ok((Num(n), j))
  {
    hide BigEndian;
    j := i + 1 + w;
    var bs := ToBigEndian(n, w);
    assert Cabeca(mt, w, n) + resto == [mt * 32 + Info(w, n)] + (bs + resto);
    AtByte(b, i, Cabeca(mt, w, n) + resto, 0);
    AtSplit(b, i, [mt * 32 + Info(w, n)], bs + resto);
    AtSplit(b, i + 1, bs, resto);
    if w > 0 { LerBigEndian(n, w); }
    if w == 1 { AtByte(b, i + 1, bs, 0); assert bs == ToBigEndian(n / 256, 0) + [n % 256]; }
  }

  /** An item with a head and a body is decoded by its body. */
  lemma DecPelaCabeca(txt: seq<byte> -> string, b: seq<byte>, i: nat, mt: nat, w: nat, n: nat, resto: seq<byte>) returns (j: nat)
    requires mt < 8 && Cabe(w, n) && At(b, i, Cabeca(mt, w, n) + resto)
    ensures i < j && At(b, j, resto) && j + |resto| == i + |Cabeca(mt, w, n) + resto|
    ensures Dec(txt, b, i) == DecCorpo(txt, b, j, mt, Info(w, n), Num(n))
  {
    j := LerCabeca(b, i, mt, w, n, resto);
  }

  lemma DecAberto(txt: seq<byte> -> string, b: seq<byte>, i: nat, mt: nat, resto: seq<byte>)
    requires mt < 8 && At(b, i, [mt * 32 + 31] + resto)
    ensures At(b, i + 1, resto) && Dec(txt, b, i) == DecCorpo(txt, b, i + 1, mt, 31, Indefinido)
  {
    AtByte(b, i, [mt * 32 + 31] + resto, 0);
    AtSplit(b, i, [mt * 32 + 31], resto);
  }

  lemma FatiaDe(b: seq<byte>, j: nat, s: seq<byte>)
    requires At(b, j, s)
    ensures Fatia(b, j, |s|) == s
  {
  }

  /** Decoding inverts encoding: wherever an encoding stands, whatever follows it, the
      decoder builds the item's value and stops at the encoding's end. */
  lemma {:induction false} DecInverteEnc(txt: seq<byte> -> string, b: seq<byte>, i: nat, x: Item)
    requires BemFormado(x) && At(b, i, Enc(x))
    ensures Dec(txt, b, i) == Fim(Construir(txt, x), i + |Enc(x)|)
    decreases x, 1
  {
    hide At, Cabe, Cabeca, Dec, DecAteQuebra, DecItens, DecPares, DecParesAteQuebra, Fatia, Info;
    if x.Vetor? || x.VetorAberto? {
      ListaInverte(txt, b, i, x);
    } else if x.Mapa? || x.MapaAberto? {
      DictInverte(txt, b, i, x);
    } else if x.Etiqueta? {
      var j := DecPelaCabeca(txt, b, i, 6, x.w, x.n, Enc(x.x));
      DecInverteEnc(txt, b, j, x.x);
    } else if x.Booleano? || x.Vazio? {
      SimplesInverte(txt, b, i, x);
    } else {
      EscalarInverte(txt, b, i, x);
    }
  }

  /** Numbers and strings: a head, and the bytes of a string. */
  lemma EscalarInverte(txt: seq<byte> -> string, b: seq<byte>, i: nat, x: Item)
    requires BemFormado(x) && At(b, i, Enc(x))
    requires x.Natural? || x.Negativo? || x.Octetos? || x.Letras?
    ensures Dec(txt, b, i) == Fim(Construir(txt, x), i + |Enc(x)|)
  {
    hide At, Cabe, Cabeca, Dec, DecAteQuebra, DecItens, DecPares, DecParesAteQuebra, Fatia, Info;
    match x
    case Natural(w, n) =>
      assert Enc(x) == Cabeca(0, w, n) + [];
      var j := DecPelaCabeca(txt, b, i, 0, w, n, []);
    case Negativo(w, n) =>
      assert Enc(x) == Cabeca(1, w, n) + [];
      var j := DecPelaCabeca(txt, b, i, 1, w, n, []);
    case Octetos(w, s) =>
      var j := DecPelaCabeca(txt, b, i, 2, w, |s|, s);
      FatiaDe(b, j, s);
    case Letras(w, s) =>
      var j := DecPelaCabeca(txt, b, i, 3, w, |s|, s);
      FatiaDe(b, j, s);
  }

  /** The simple values are their initial bytes. */
  lemma SimplesInverte(txt: seq<byte> -> string, b: seq<byte>, i: nat, x: Item)
    requires BemFormado(x) && At(b, i, Enc(x)) && (x.Booleano? || x.Vazio?)
    ensures Dec(txt, b, i) == Fim(Construir(txt, x), i + |Enc(x)|)
  {
    hide DecAteQuebra, DecItens, DecPares, DecParesAteQuebra, Fatia;
    AtByte(b, i, Enc(x), 0);
  }

  lemma {:induction false} ListaInverte(txt: seq<byte> -> string, b: seq<byte>, i: nat, x: Item)
    requires BemFormado(x) && At(b, i, Enc(x)) && (x.Vetor? || x.VetorAberto?)
    ensures Dec(txt, b, i) == Fim(Construir(txt, x), i + |Enc(x)|)
    decreases x, 0
  {
    hide Cabe, Cabeca, Dec, DecAteQuebra, DecItens, DecPares, DecParesAteQuebra, Fatia, Info, EncItens, ConstruirItens;
    if x.Vetor? {
      var j := DecPelaCabeca(txt, b, i, 4, x.w, Tamanho(x.xs), EncItens(x.xs));
      DecItensInverte(txt, b, j, x.xs, VNil);
    } else {
      assert Enc(x) == [4 * 32 + 31] + (EncItens(x.xs) + [0xFF]);
      DecAberto(txt, b, i, 4, EncItens(x.xs) + [0xFF]);
      DecAteQuebraInverte(txt, b, i + 1, x.xs, VNil);
    }
  }

  lemma {:induction false} DictInverte(txt: seq<byte> -> string, b: seq<byte>, i: nat, x: Item)
    requires BemFormado(x) && At(b, i, Enc(x)) && (x.Mapa? || x.MapaAberto?)
    ensures Dec(txt, b, i) == Fim(Construir(txt, x), i + |Enc(x)|)
    decreases x, 0
  {
    hide Cabe, Cabeca, Dec, DecAteQuebra, DecItens, DecPares, DecParesAteQuebra, Fatia, Info, EncPares, ConstruirPares;
    if x.Mapa? {
      var j := DecPelaCabeca(txt, b, i, 5, x.w, Quantos(x.ps), EncPares(x.ps));
      DecParesInverte(txt, b, j, x.ps, ENil);
    } else {
      assert Enc(x) == [5 * 32 + 31] + (EncPares(x.ps) + [0xFF]);
      DecAberto(txt, b, i, 5, EncPares(x.ps) + [0xFF]);
      DecParesAteQuebraInverte(txt, b, i + 1, x.ps, ENil);
    }
  }

  /** One item followed by more. */
  lemma {:induction false} DecItemInverte(txt: seq<byte> -> string, b: seq<byte>, i: nat, x: Item, resto: seq<byte>) returns (j: nat)
    requires BemFormado(x) && At(b, i, Enc(x) + resto)
    ensures j == i + |Enc(x)| && j + |resto| == i + |Enc(x) + resto|
    ensures i < |b| && b[i] != 0xFF && Dec(txt, b, i) == Fim(Construir(txt, x), j) && At(b, j, resto)
    decreases x, 2
  {
    hide At, Construir, Dec, Enc;
    j := i + |Enc(x)|;
    AtSplit(b, i, Enc(x), resto);
    AtByte(b, i, Enc(x), 0);
    NenhumItemComecaComQuebra(x);
    DecInverteEnc(txt, b, i, x);
  }

  lemma {:induction false} DecItensInverte(txt: seq<byte> -> string, b: seq<byte>, i: nat, xs: Itens, out: Valores)
    requires BemFormados(xs) && At(b, i, EncItens(xs))
    ensures DecItens(txt, b, i, Tamanho(xs), out) == Fim(ConstruirItens(txt, xs, out), i + |EncItens(xs)|)
    decreases xs
  {
    hide Anexar, At, Construir, Dec, Enc;
    if xs.ICons? {
      var v := Construir(txt, xs.head);
      var j := DecItemInverte(txt, b, i, xs.head, EncItens(xs.tail));
      if v.Ok? { DecItensInverte(txt, b, j, xs.tail, Anexar(out, v.value)); }
    }
  }

  lemma {:induction false} DecAteQuebraInverte(txt: seq<byte> -> string, b: seq<byte>, i: nat, xs: Itens, out: Valores)
    requires BemFormados(xs) && At(b, i, EncItens(xs) + [0xFF])
    ensures DecAteQuebra(txt, b, i, out) == Fim(ConstruirItens(txt, xs, out), i + |EncItens(xs)| + 1)
    decreases xs
  {
    hide Anexar, Construir, Dec, Enc;
    if xs.INil? {
      assert EncItens(xs) == [];
      AtByte(b, i, EncItens(xs) + [0xFF], 0);
    } else {
      var v, resto := Construir(txt, xs.head), EncItens(xs.tail) + [0xFF];
      assert EncItens(xs) + [0xFF] == Enc(xs.head) + resto;
      var j := DecItemInverte(txt, b, i, xs.head, resto);
      if v.Ok? { DecAteQuebraInverte(txt, b, j, xs.tail, Anexar(out, v.value)); }
    }
  }

  /** One key and its value, followed by more. */
  lemma {:induction false} DecParInverte(txt: seq<byte> -> string, b: seq<byte>, i: nat, ps: Pares, out: Entradas, resto: seq<byte>)
    returns (j: nat)
    requires ps.PCons? && BemFormado(ps.k) && BemFormado(ps.v) && At(b, i, Enc(ps.k) + (Enc(ps.v) + resto))
    ensures j == i + |Enc(ps.k)| + |Enc(ps.v)| && At(b, j, resto)
    ensures i < |b| && b[i] != 0xFF && DecPar(txt, b, i, out) == Fim(ConstruirPar(txt, ps, out), j)
    decreases ps, 0
  {
    hide At, Construir, Dec, Enc;
    var m := DecItemInverte(txt, b, i, ps.k, Enc(ps.v) + resto);
    j := DecItemInverte(txt, b, m, ps.v, resto);
  }

  lemma {:induction false} DecParesInverte(txt: seq<byte> -> string, b: seq<byte>, i: nat, ps: Pares, out: Entradas)
    requires ParesBemFormados(ps) && At(b, i, EncPares(ps))
    ensures DecPares(txt, b, i, Quantos(ps), out) == Fim(ConstruirPares(txt, ps, out), i + |EncPares(ps)|)
    decreases ps, 1
  {
    hide At, ConstruirPar, DecPar, Enc;
    if ps.PCons? {
      var d := ConstruirPar(txt, ps, out);
      var j := DecParInverte(txt, b, i, ps, out, EncPares(ps.tail));
      if d.Ok? { DecParesInverte(txt, b, j, ps.tail, d.value); }
    }
  }

  lemma {:induction false} DecParesAteQuebraInverte(txt: seq<byte> -> string, b: seq<byte>, i: nat, ps: Pares, out: Entradas)
    requires ParesBemFormados(ps) && At(b, i, EncPares(ps) + [0xFF])
    ensures DecParesAteQuebra(txt, b, i, out) == Fim(ConstruirPares(txt, ps, out), i + |EncPares(ps)| + 1)
    decreases ps, 1
  {
    hide ConstruirPar, DecPar, Enc;
    if ps.PNil? {
      assert EncPares(ps) == [];
      AtByte(b, i, EncPares(ps) + [0xFF], 0);
    } else {
      var d, resto := ConstruirPar(txt, ps, out), EncPares(ps.tail) + [0xFF];
      assert EncPares(ps) + [0xFF] == Enc(ps.k) + (Enc(ps.v) + resto);
      var j := DecParInverte(txt, b, i, ps, out, resto);
      if d.Ok? { DecParesAteQuebraInverte(txt, b, j, ps.tail, d.value); }
    }
  }

  // ---------------------------------------------------------------- other input

  lemma {:induction false} BigEndianByte(b: seq<byte>, k: nat)
    requires k < |b|
    ensures BigEndian(b) / Pow256(|b| - 1 - k) % 256 == b[k]
    decreases |b|
  {
    var n, c := |b| - 1, b[..|b| - 1];
    assert BigEndian(b) % 256 == b[n] && BigEndian(b) / 256 == BigEndian(c);
    if k < n {
      BigEndianByte(c, k);
      DivDiv(BigEndian(b), 256, Pow256(n - 1 - k));
    } else {
      assert BigEndian(b) / 1 == BigEndian(b);
    }
  }

  /** A floating-point head of 2, 4 or 8 bytes: the decoder returns its bits as an integer, the
      first byte highest, and goes on after them; cut short it raises StructError. */
  lemma DecFlutuante(txt: seq<byte> -> string, b: seq<byte>, i: nat, w: nat)
    requires i < |b| && w in {2, 4, 8} && b[i] == (if w == 2 then 0xF9 else if w == 4 then 0xFA else 0xFB)
    ensures i + 1 + w <= |b| ==> Dec(txt, b, i) == Ok((Int(BigEndian(b[i + 1..i + 1 + w])), i + 1 + w))
    ensures |b| < i + 1 + w ==> Dec(txt, b, i) == Err(StructError)
  {
    hide BigEndian, DecAteQuebra, DecItens, DecPares, DecParesAteQuebra;
  }

  /** Simple values: false, true and null, any other by its number, in the initial byte or in
      the byte after 0xF8; a break outside a container reads as null. */
  lemma DecSimples(txt: seq<byte> -> string, b: seq<byte>, i: nat)
    requires i < |b| && b[i] >= 0xE0
    ensures b[i] < 0xF8 ==> Dec(txt, b, i) == Ok((
      if b[i] == 0xF4 then Bool(false) else if b[i] == 0xF5 then Bool(true) else if b[i] == 0xF6 then Nulo
      else Int(b[i] as int - 0xE0), i + 1))
    ensures b[i] == 0xF8 ==> Dec(txt, b, i) == if i + 1 < |b| then Ok((Int(b[i + 1] as int), i + 2)) else Err(IndexError)
    ensures b[i] == 0xFF ==> Dec(txt, b, i) == Ok((Nulo, i + 1))
  {
    hide BigEndian, DecAteQuebra, DecItens, DecPares, DecParesAteQuebra;
  }

  /** Heads that are refused: no byte left, additional information 28 to 30, an argument cut
      short, and negative numbers and strings of indefinite length; a natural number of
      indefinite length, though, reads as null. */
  lemma DecRecusa(txt: seq<byte> -> string, b: seq<byte>, i: nat)
    ensures |b| <= i ==> Dec(txt, b, i) == Err(IndexError)
    ensures i < |b| && 28 <= b[i] as int % 32 <= 30 ==> Dec(txt, b, i) == Err(ValueError)
    ensures i + 1 == |b| && b[i] as int % 32 == 24 ==> Dec(txt, b, i) == Err(IndexError)
    ensures i < |b| && 25 <= b[i] as int % 32 <= 27
      && |b| < i + 1 + (if b[i] as int % 32 == 25 then 2 else if b[i] as int % 32 == 26 then 4 else 8)
      ==> Dec(txt, b, i) == Err(StructError)
    ensures i < |b| && 1 <= b[i] as int / 32 <= 3 && b[i] as int % 32 == 31 ==> Dec(txt, b, i) == Err(TypeError)
    ensures i < |b| && b[i] == 0x1F ==> Dec(txt, b, i) == Ok((Nulo, i + 1))
  {
    hide BigEndian, DecAteQuebra, DecItens, DecPares, DecParesAteQuebra;
  }

  /** A string that runs past the end of the data is not refused: it is what there is, and the
      position returned is that of its announced end. */
  lemma DecCortada(txt: seq<byte> -> string, b: seq<byte>, i: nat, w: nat, n: nat)
    requires Cabe(w, n) && |b| < i + 1 + w + n
    ensures At(b, i, Cabeca(2, w, n)) ==> i + 1 + w <= |b| && Dec(txt, b, i) == Ok((Bytes(b[i + 1 + w..]), i + 1 + w + n))
    ensures At(b, i, Cabeca(3, w, n)) ==> i + 1 + w <= |b| && Dec(txt, b, i) == Ok((Texto(txt(b[i + 1 + w..])), i + 1 + w + n))
  {
    if At(b, i, Cabeca(2, w, n)) { StringCortada(txt, b, i, 2, w, n); }
    if At(b, i, Cabeca(3, w, n)) { StringCortada(txt, b, i, 3, w, n); }
  }

  lemma StringCortada(txt: seq<byte> -> string, b: seq<byte>, i: nat, mt: nat, w: nat, n: nat)
    requires 2 <= mt <= 3 && Cabe(w, n) && |b| < i + 1 + w + n && At(b, i, Cabeca(mt, w, n))
    ensures i + 1 + w <= |b| && Dec(txt, b, i) ==
      Ok((if mt == 2 then Bytes(b[i + 1 + w..]) else Texto(txt(b[i + 1 + w..])), i + 1 + w + n))
  {
    hide BigEndian, DecAteQuebra, DecItens, DecPares, DecParesAteQuebra, Dec, Cabe, At, Cabeca, Info;
    AtCabeca(b, i, mt, w, n);
    assert Cabeca(mt, w, n) + [] == Cabeca(mt, w, n);
    var j := DecPelaCabeca(txt, b, i, mt, w, n, []);
    assert j == i + 1 + w;
    assert Fatia(b, j, n) == b[j..];
  }

  /** The data end after the given items. */
  ghost predicate AcabaEm(b: seq<byte>, i: nat, s: seq<byte>) { At(b, i, s) && i + |s| == |b| }

  lemma {:induction false} ItensFaltam(txt: seq<byte> -> string, b: seq<byte>, i: nat, xs: Itens, n: nat, out: Valores)
    requires BemFormados(xs) && AcabaEm(b, i, EncItens(xs)) && ConstruirItens(txt, xs, out).Ok?
    ensures Tamanho(xs) < n ==> DecItens(txt, b, i, n, out) == Err(IndexError)
    ensures DecAteQuebra(txt, b, i, out) == Err(IndexError)
    decreases xs
  {
    hide Anexar, At, Construir, Enc;
    if xs.INil? {
      assert EncItens(xs) == [];
    } else {
      var v, resto := Construir(txt, xs.head).value, EncItens(xs.tail);
      assert EncItens(xs) == Enc(xs.head) + resto;
      var j := DecItemInverte(txt, b, i, xs.head, resto);
      ItensFaltam(txt, b, j, xs.tail, if n == 0 then 0 else n - 1, Anexar(out, v));
    }
  }

  lemma {:induction false} ParesFaltam(txt: seq<byte> -> string, b: seq<byte>, i: nat, ps: Pares, n: nat, out: Entradas)
    requires ParesBemFormados(ps) && AcabaEm(b, i, EncPares(ps)) && ConstruirPares(txt, ps, out).Ok?
    ensures Quantos(ps) < n ==> DecPares(txt, b, i, n, out) == Err(IndexError)
    ensures DecParesAteQuebra(txt, b, i, out) == Err(IndexError)
    decreases ps
  {
    hide At, ConstruirPar, DecPar, Enc;
    if ps.PNil? {
      assert EncPares(ps) == [];
      ParNoFim(txt, b, i, out);
    } else {
      var d, resto := ConstruirPar(txt, ps, out).value, EncPares(ps.tail);
      assert EncPares(ps) == Enc(ps.k) + (Enc(ps.v) + resto);
      var j := DecParInverte(txt, b, i, ps, out, resto);
      ParesFaltam(txt, b, j, ps.tail, if n == 0 then 0 else n - 1, d);
    }
  }

  lemma ParNoFim(txt: seq<byte> -> string, b: seq<byte>, i: nat, out: Entradas)
    requires |b| <= i
    ensures DecPar(txt, b, i, out) == Err(IndexError)
  {
  }

  /** An array or map whose data end before its announced length, or before the break byte,
      raises IndexError, if what is there could be built. */
  lemma DecIncompleto(txt: seq<byte> -> string, b: seq<byte>, i: nat, w: nat, n: nat, xs: Itens, ps: Pares)
    requires Cabe(w, n) && BemFormados(xs) && ParesBemFormados(ps)
    requires ConstruirItens(txt, xs, VNil).Ok? && ConstruirPares(txt, ps, ENil).Ok?
    ensures AcabaEm(b, i, Cabeca(4, w, n) + EncItens(xs)) && Tamanho(xs) < n ==> Dec(txt, b, i) == Err(IndexError)
    ensures AcabaEm(b, i, Cabeca(5, w, n) + EncPares(ps)) && Quantos(ps) < n ==> Dec(txt, b, i) == Err(IndexError)
    ensures AcabaEm(b, i, [0x9F] + EncItens(xs)) || AcabaEm(b, i, [0xBF] + EncPares(ps)) ==> Dec(txt, b, i) == Err(IndexError)
  {
    hide Cabe, Cabeca, Dec, DecAteQuebra, DecItens, DecPares, DecParesAteQuebra, Info, EncItens, EncPares, ConstruirItens, ConstruirPares;
    if AcabaEm(b, i, Cabeca(4, w, n) + EncItens(xs)) && Tamanho(xs) < n {
      var j := DecPelaCabeca(txt, b, i, 4, w, n, EncItens(xs));
      ItensFaltam(txt, b, j, xs, n, VNil);
    }
    if AcabaEm(b, i, Cabeca(5, w, n) + EncPares(ps)) && Quantos(ps) < n {
      var j := DecPelaCabeca(txt, b, i, 5, w, n, EncPares(ps));
      ParesFaltam(txt, b, j, ps, n, ENil);
    }
    if AcabaEm(b, i, [0x9F] + EncItens(xs)) {
      DecAberto(txt, b, i, 4, EncItens(xs));
      ItensFaltam(txt, b, i + 1, xs, 0, VNil);
    }
    if AcabaEm(b, i, [0xBF] + EncPares(ps)) {
      DecAberto(txt, b, i, 5, EncPares(ps));
      ParesFaltam(txt, b, i + 1, ps, 0, ENil);
    }
  }

  lemma AtCabeca(b: seq<byte>, i: nat, mt: nat, w: nat, n: nat)
    requires mt < 8 && Cabe(w, n) && At(b, i, Cabeca(mt, w, n))
    ensures |Cabeca(mt, w, n)| == 1 + w && i + 1 + w <= |b|
  {
  }

  // ---------------------------------------------------------------- when the value is the item's own

  /** The item's value in the data model of the encoding: maps keep all their pairs. */
  function Ideal(txt: seq<byte> -> string, x: Item): Valor {
    match x
    case Natural(_, n) => Int(n)
    case Negativo(_, n) => Int(-1 - n)
    case Octetos(_, s) => Bytes(s)
    case Letras(_, s) => Texto(txt(s))
    case Vetor(_, xs) => Lista(IdealItens(txt, xs))
    case VetorAberto(xs) => Lista(IdealItens(txt, xs))
    case Mapa(_, ps) => Dict(IdealPares(txt, ps))
    case MapaAberto(ps) => Dict(IdealPares(txt, ps))
    case Etiqueta(_, _, y) => Ideal(txt, y)
    case Booleano(v) => Bool(v)
    case Vazio => Nulo
  }
  function IdealItens(txt: seq<byte> -> string, xs: Itens): Valores {
    match xs case INil => VNil case ICons(x, t) => VCons(Ideal(txt, x), IdealItens(txt, t))
  }
  function IdealPares(txt: seq<byte> -> string, ps: Pares): Entradas {
    match ps case PNil => ENil case PCons(k, v, t) => ECons(Ideal(txt, k), Ideal(txt, v), IdealPares(txt, t))
  }

  predicate TemChave(d: Entradas, k: Valor) {
    match d case ENil => false case ECons(k', _, t) => PyEq(k', k) || TemChave(t, k)
  }

  /** Every map in the item has keys that are hashable and different under Python's ==. */
  predicate Fiel(txt: seq<byte> -> string, x: Item) {
    match x
    case Vetor(_, xs) => FielItens(txt, xs)
    case VetorAberto(xs) => FielItens(txt, xs)
    case Mapa(_, ps) => FielPares(txt, ps, ENil)
    case MapaAberto(ps) => FielPares(txt, ps, ENil)
    case Etiqueta(_, _, y) => Fiel(txt, y)
    case _ => true
  }
  predicate FielItens(txt: seq<byte> -> string, xs: Itens) {
    match xs case INil => true case ICons(x, t) => Fiel(txt, x) && FielItens(txt, t)
  }
  /** `antes` are the entries before these pairs. */
  predicate FielPares(txt: seq<byte> -> string, ps: Pares, antes: Entradas) {
    match ps
    case PNil => true
    case PCons(k, v, t) =>
      Hashable(Ideal(txt, k)) && Fiel(txt, v) && !TemChave(antes, Ideal(txt, k)) &&
      FielPares(txt, t, Inserir(antes, Ideal(txt, k), Ideal(txt, v)))
  }

  function Juntos(a: Valores, b: Valores): Valores { match a case VNil => b case VCons(x, t) => VCons(x, Juntos(t, b)) }
  function Unidas(a: Entradas, b: Entradas): Entradas { match a case ENil => b case ECons(k, v, t) => ECons(k, v, Unidas(t, b)) }
  function Conta(d: Entradas): nat { match d case ENil => 0 case ECons(_, _, t) => 1 + Conta(t) }
  function ContaV(d: Valores): nat { match d case VNil => 0 case VCons(_, t) => 1 + ContaV(t) }

  lemma InserirNova(d: Entradas, k: Valor, v: Valor)
    ensures Conta(Inserir(d, k, v)) == Conta(d) + if TemChave(d, k) then 0 else 1
    ensures !TemChave(d, k) ==> Inserir(d, k, v) == Unidas(d, ECons(k, v, ENil))
  {
  }

  /** What out[k] finds, k being compared as Python does. */
  function Busca(d: Entradas, k: Valor): Option<Valor> {
    match d case ENil => None case ECons(k', v, t) => if PyEq(k', k) then Some(v) else Busca(t, k)
  }

  /** After out[k] = v the dict has v for k and for keys equal to it, and what it had for every
      other key. */
  lemma {:induction d} InserirBusca(d: Entradas, k: Valor, v: Valor, x: Valor)
    ensures Busca(Inserir(d, k, v), x) == if PyEq(k, x) then Some(v) else Busca(d, x)
  {
  }

  lemma UnidasAssoc(a: Entradas, b: Entradas, c: Entradas)
    ensures Unidas(Unidas(a, b), c) == Unidas(a, Unidas(b, c))
    ensures Conta(Unidas(a, b)) == Conta(a) + Conta(b)
  {
  }

  lemma JuntosAssoc(a: Valores, x: Valor, c: Valores)
    ensures Juntos(Anexar(a, x), c) == Juntos(a, VCons(x, c))
  {
  }

  lemma {:induction a} UnidasInjetiva(a: Entradas, b: Entradas, c: Entradas)
    requires Unidas(a, b) == Unidas(a, c)
    ensures b == c
  {
  }

  /** A scalar key is built as itself; any other is refused. */
  lemma {:induction false} ChaveEscalar(txt: seq<byte> -> string, k: Item)
    ensures Hashable(Ideal(txt, k)) ==> Construir(txt, k) == Ok(Ideal(txt, k)) && Fiel(txt, k)
    ensures !Hashable(Ideal(txt, k)) && Construir(txt, k).Ok? ==> !Hashable(Construir(txt, k).value)
  {
    if k.Etiqueta? { ChaveEscalar(txt, k.x); }
  }

  lemma {:induction false} ItensDesdeVazio(txt: seq<byte> -> string, xs: Itens, out: Valores)
    ensures ConstruirItens(txt, xs, out) == match ConstruirItens(txt, xs, VNil)
      case Err(e) => Err(e) case Ok(r) => Ok(Juntos(out, r))
    decreases xs
  {
    if xs.ICons? && Construir(txt, xs.head).Ok? {
      var v := Construir(txt, xs.head).value;
      ItensDesdeVazio(txt, xs.tail, Anexar(out, v));
      ItensDesdeVazio(txt, xs.tail, VCons(v, VNil));
      var r := ConstruirItens(txt, xs.tail, VNil);
      if r.Ok? { JuntosAssoc(out, v, r.value); }
    } else if xs.INil? {
      JuntosVazio(out);
    }
  }

  lemma JuntosVazio(out: Valores) ensures Juntos(out, VNil) == out {}
  lemma UnidasVazia(out: Entradas) ensures Unidas(out, ENil) == out {}

  /** Building never adds more entries than there are pairs; if it adds that many, what was
      there before is untouched. */
  lemma {:induction false} ParesAcrescentam(txt: seq<byte> -> string, ps: Pares, out: Entradas) returns (c: Entradas)
    requires ConstruirPares(txt, ps, out).Ok?
    ensures var r := ConstruirPares(txt, ps, out).value;
      && Conta(r) <= Conta(out) + Quantos(ps)
      && (Conta(r) == Conta(out) + Quantos(ps) ==> r == Unidas(out, c))
    decreases ps
  {
    if ps.PNil? {
      c := ENil;
      UnidasVazia(out);
    } else {
      var k, v := Construir(txt, ps.k).value, Construir(txt, ps.v).value;
      InserirNova(out, k, v);
      c := ParesAcrescentam(txt, ps.tail, Inserir(out, k, v));
      UnidasAssoc(out, ECons(k, v, ENil), c);
      c := ECons(k, v, c);
    }
  }

  /** The value built is the item's own if and only if the item is `Fiel`. */
  lemma {:induction false} ConstruirFiel(txt: seq<byte> -> string, x: Item)
    ensures Construir(txt, x) == Ok(Ideal(txt, x)) <==> Fiel(txt, x)
    decreases x
  {
    match x
    case Vetor(_, xs) => ItensFieis(txt, xs);
    case VetorAberto(xs) => ItensFieis(txt, xs);
    case Mapa(_, ps) => ParesFieis(txt, ps, ENil);
    case MapaAberto(ps) => ParesFieis(txt, ps, ENil);
    case Etiqueta(_, _, y) => ConstruirFiel(txt, y);
    case _ =>
  }

  lemma {:induction false} ItensFieis(txt: seq<byte> -> string, xs: Itens)
    ensures ConstruirItens(txt, xs, VNil) == Ok(IdealItens(txt, xs)) <==> FielItens(txt, xs)
    decreases xs
  {
    if xs.ICons? {
      ConstruirFiel(txt, xs.head);
      ItensFieis(txt, xs.tail);
      if Construir(txt, xs.head).Ok? { ItensDesdeVazio(txt, xs.tail, VCons(Construir(txt, xs.head).value, VNil)); }
    }
  }

  lemma {:induction false} ParesFieis(txt: seq<byte> -> string, ps: Pares, out: Entradas)
    ensures ConstruirPares(txt, ps, out) == Ok(Unidas(out, IdealPares(txt, ps))) <==> FielPares(txt, ps, out)
    decreases ps
  {
    if ps.PNil? {
      UnidasVazia(out);
      return;
    }
    ChaveEscalar(txt, ps.k);
    ConstruirFiel(txt, ps.v);
    var k, i, v := Ideal(txt, ps.k), Ideal(txt, ps.v), Construir(txt, ps.v);
    if Hashable(k) && v.Ok? {
      var d, resto := Inserir(out, k, v.value), IdealPares(txt, ps.tail);
      assert ConstruirPar(txt, ps, out) == Ok(d) && IdealPares(txt, ps) == ECons(k, i, resto);
      InserirNova(out, k, v.value);
      UnidasAssoc(out, ECons(k, i, resto), ENil);
      IdealConta(txt, ps.tail);
      if v.value == i && !TemChave(out, k) {
        ParesFieis(txt, ps.tail, d);
        UnidasAssoc(out, ECons(k, i, ENil), resto);
      } else if ConstruirPares(txt, ps.tail, d) == Ok(Unidas(out, ECons(k, i, resto))) {
        var c := ParesAcrescentam(txt, ps.tail, d);
        if !TemChave(out, k) {
          UnidasAssoc(out, ECons(k, v.value, ENil), c);
          UnidasInjetiva(out, ECons(k, v.value, c), ECons(k, i, resto));
        }
      }
    }
  }

  lemma {:induction ps} IdealConta(txt: seq<byte> -> string, ps: Pares)
    ensures Conta(IdealPares(txt, ps)) == Quantos(ps)
  {
  }

  /** The decoder returns the item's own value, and its exact end, if and only if the keys
      of its maps are hashable and pairwise different in Python's sense. */
  lemma DecFiel(txt: seq<byte> -> string, b: seq<byte>, i: nat, x: Item)
    requires BemFormado(x) && At(b, i, Enc(x))
    ensures Dec(txt, b, i) == Ok((Ideal(txt, x), i + |Enc(x)|)) <==> Fiel(txt, x)
  {
    DecInverteEnc(txt, b, i, x);
    ConstruirFiel(txt, x);
  }

  /** Maps that Python does not take as they are: {[]: 0}, {{}: 0} and {1: 0, true: 0}. */
  lemma MapasRecusados(txt: seq<byte> -> string)
    ensures !Fiel(txt, Mapa(0, PCons(Vetor(0, INil), Natural(0, 0), PNil)))
    ensures !Fiel(txt, Mapa(0, PCons(Mapa(0, PNil), Natural(0, 0), PNil)))
    ensures !Fiel(txt, Mapa(0, PCons(Natural(0, 1), Natural(0, 0), PCons(Booleano(true), Natural(0, 0), PNil))))
  {
    assert Inserir(ENil, Int(1), Int(0)) == ECons(Int(1), Int(0), ENil);
    assert TemChave(ECons(Int(1), Int(0), ENil), Bool(true));
  }
}
