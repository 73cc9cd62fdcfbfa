/** The block writer of bench/capacidade_local.py: bytes are gathered in a buffer of one
    block, whole blocks are written at increasing offsets, and the offset returns to zero
    when it reaches the cap, so that the file becomes a ring of blocks. */
module Gravacao {
  import opened Base

  /** The bytes of a file after pwrite(dados, off). */
  function Pwrite(arquivo: seq<byte>, off: nat, dados: seq<byte>): seq<byte>
    requires off <= |arquivo|
  {
    arquivo[..off] + dados + (if off + |dados| < |arquivo| then arquivo[off + |dados|..] else [])
  }

  // ---------------------------------------------------------------- the ring of blocks

  /** How many blocks fit below the cap; a cap below one block still admits one. */
  function Slots(cap: int, bloco: nat): (m: nat)
    requires 0 < bloco
    ensures 0 < m
  {
    if cap <= bloco then 1 else assert cap == cap - bloco + bloco; (cap - 1) / bloco + 1
  }

  /** The last of the blocks 0..k whose number is j modulo m. */
  function Latest(k: nat, m: nat, j: nat): int
    requires 0 < m
  {
    k - 1 - (k - 1 - j) % m
  }

  /** The ring after the given blocks were written in turn: slot j holds the latest
      block whose number is j modulo m. */
  function Ring(blocos: seq<seq<byte>>, m: nat): (slots: seq<seq<byte>>)
    requires 0 < m
    ensures |slots| == Min(|blocos|, m)
  {
    seq(Min(|blocos|, m), j requires 0 <= j < Min(|blocos|, m) =>
      LatestInRange(|blocos|, m, j); blocos[Latest(|blocos|, m, j)])
  }

  lemma LatestInRange(k: nat, m: nat, j: nat)
    requires 0 < m && j < m && j < k
    ensures j <= Latest(k, m, j) < k
  {
    var x := k - 1 - j;
    assert x % m <= x by { assert x == x / m * m + x % m; }
  }

  /** `Latest` is what its name says. */
  lemma LatestIsLatest(k: nat, m: nat, j: nat, q: nat)
    requires 0 < m && j < m && j < k && q < k && q % m == j
    ensures q <= Latest(k, m, j) && Latest(k, m, j) % m == j
  {
    var x := k - 1 - j;
    assert x == x / m * m + x % m;
    assert q == q / m * m + j;
    DivIs(x / m * m + j, m, x / m);
    if q / m > x / m { MulMono(x / m + 1, q / m, m); }
    MulMono(q / m, x / m, m);
  }

  lemma ModStep(x: int, m: nat)
    requires 0 < m
    ensures (x + 1) % m == if x % m == m - 1 then 0 else x % m + 1
  {
    var q := x / m;
    assert x == q * m + x % m;
    assert (q + 1) * m == q * m + m && (q + 2) * m == q * m + 2 * m;
    if x % m == m - 1 { DivIs(x + 1, m, q + 1); } else { DivIs(x + 1, m, q); }
  }

  lemma RestoNulo(k: nat, m: nat, j: nat)
    requires 0 < m && j < m && j <= k
    ensures (k - j) % m == 0 <==> j == k % m
  {
    assert k == k / m * m + k % m && k - j == (k - j) / m * m + (k - j) % m;
    if j == k % m { DivIs(k - j, m, k / m); }
    if (k - j) % m == 0 { DivisorMais((k - j) / m, m, j); }
  }

  lemma DivisorMais(q: nat, m: nat, r: nat)
    requires r < m
    ensures (q * m + r) % m == r
  {
    assert (q + 1) * m == q * m + m;
    DivIs(q * m + r, m, q);
  }

  lemma LatestStep(k: nat, m: nat, j: nat)
    requires 0 < m && j < m && j < k
    ensures Latest(k + 1, m, j) == if j == k % m then k else Latest(k, m, j)
  {
    ModStep(k - 1 - j, m);
    RestoNulo(k, m, j);
  }

  /** Writing one more block fills the next slot, or overwrites the oldest one. */
  lemma RingStep(blocos: seq<seq<byte>>, m: nat, b: seq<byte>)
    requires 0 < m
    ensures var k := |blocos|; var r := Ring(blocos, m);
      && k % m <= |r|
      && Ring(blocos + [b], m) == if k < m then r + [b] else r[k % m := b]
  {
    var k := |blocos|;
    forall j | 0 <= j < Min(k, m)
      ensures Latest(k + 1, m, j) == if j == k % m then k else Latest(k, m, j)
      ensures j <= Latest(k, m, j) < k
    {
      LatestStep(k, m, j);
      LatestInRange(k, m, j);
    }
    if k < m { DivIs(k, m, 0); DivIs(0, m, 0); }
  }

  /** Slot i places after the oldest one holds the block written i places after it. */
  lemma LatestRotated(k: nat, m: nat, i: nat)
    requires 0 < m && i < Min(k, m)
    ensures k < m ==> Latest(k, m, i) == i
    ensures k >= m ==> Latest(k, m, if k % m + i < m then k % m + i else k % m + i - m) == k - m + i
  {
    if k < m {
      DivIs(k - 1 - i, m, 0);
    } else {
      assert k == k / m * m + k % m;
      assert (k / m - 1) * m == k / m * m - m;
      if k % m + i < m { DivIs(k - 1 - (k % m + i), m, k / m - 1); }
      else { DivIs(k - 1 - (k % m + i - m), m, k / m); }
    }
  }

  lemma RingAt(blocos: seq<seq<byte>>, m: nat, j: nat)
    requires 0 < m && j < m && j < |blocos|
    ensures j <= Latest(|blocos|, m, j) < |blocos| && Ring(blocos, m)[j] == blocos[Latest(|blocos|, m, j)]
  {
    LatestInRange(|blocos|, m, j);
  }

  lemma Rotated<T>(r: seq<T>, o: nat, i: nat)
    requires o <= |r| && i < |r|
    ensures (r[o..] + r[..o])[i] == if o + i < |r| then r[o + i] else r[o + i - |r|]
  {
  }

  /** Read from the oldest slot on, the ring is the last min(k, m) blocks written. */
  lemma RingIsTail(blocos: seq<seq<byte>>, m: nat)
    requires 0 < m
    ensures var k := |blocos|; var r := Ring(blocos, m);
      var o := if k < m then 0 else k % m;
      o <= |r| && r[o..] + r[..o] == blocos[k - Min(k, m)..]
  {
    hide Latest, Ring;
    var k, n := |blocos|, Min(|blocos|, m);
    var r, o := Ring(blocos, m), if k < m then 0 else k % m;
    assert o <= n;
    forall i | 0 <= i < n ensures (r[o..] + r[..o])[i] == blocos[k - n + i] {
      var j := if o + i < n then o + i else o + i - n;
      Rotated(r, o, i);
      RingAt(blocos, m, j);
      LatestRotated(k, m, i);
    }
  }

  // ---------------------------------------------------------------- blocks of one size

  ghost predicate AllLen(bs: seq<seq<byte>>, n: nat) { forall i :: 0 <= i < |bs| ==> |bs[i]| == n }

  lemma {:induction false} UniformLength(bs: seq<seq<byte>>, n: nat)
    requires AllLen(bs, n)
    ensures |Concat(bs)| == |bs| * n
  {
    if bs != [] {
      UniformLength(bs[1..], n);
      assert |bs| * n == (|bs| - 1) * n + n;
    }
  }

  lemma PwriteInside(p: seq<byte>, was: seq<byte>, s: seq<byte>, b: seq<byte>)
    requires |was| == |b|
    ensures Pwrite(p + was + s, |p|, b) == p + b + s
  {
  }

  lemma ConcatAround(bs: seq<seq<byte>>, j: nat, b: seq<byte>)
    requires j < |bs|
    ensures Concat(bs[j := b]) == Concat(bs[..j]) + b + Concat(bs[j + 1..])
  {
    assert bs[j := b] == bs[..j] + [b] + bs[j + 1..];
    ConcatAppend(bs[..j] + [b], bs[j + 1..]);
    ConcatSnoc(bs[..j], b);
  }

  /** Replacing block j is a pwrite at j blocks from the start. */
  lemma PwriteReplaces(bs: seq<seq<byte>>, n: nat, j: nat, b: seq<byte>)
    requires AllLen(bs, n) && |b| == n && j < |bs|
    ensures 0 <= j * n <= |Concat(bs)|
    ensures Pwrite(Concat(bs), j * n, b) == Concat(bs[j := b])
  {
    UniformLength(bs[..j], n);
    assert bs[j := bs[j]] == bs;
    ConcatAround(bs, j, bs[j]);
    ConcatAround(bs, j, b);
    PwriteInside(Concat(bs[..j]), bs[j], Concat(bs[j + 1..]), b);
  }

  lemma PwriteAppends(bs: seq<seq<byte>>, n: nat, b: seq<byte>)
    requires AllLen(bs, n) && |b| == n
    ensures 0 <= |bs| * n <= |Concat(bs)|
    ensures Pwrite(Concat(bs), |bs| * n, b) == Concat(bs + [b])
  {
    UniformLength(bs, n);
    ConcatSnoc(bs, b);
    PwriteAtEnd(Concat(bs), b);
  }

  lemma PwriteAtEnd(arquivo: seq<byte>, b: seq<byte>)
    ensures Pwrite(arquivo, |arquivo|, b) == arquivo + b
  {
  }

  lemma RingAllLen(blocos: seq<seq<byte>>, m: nat, n: nat)
    requires 0 < m && AllLen(blocos, n)
    ensures AllLen(Ring(blocos, m), n)
  {
    forall j | 0 <= j < |Ring(blocos, m)| ensures |Ring(blocos, m)[j]| == n {
      LatestInRange(|blocos|, m, j);
    }
  }

  /** The offset of the slot after slot j: it wraps exactly when the cap is reached. */
  lemma NextOffset(cap: int, bloco: nat, k: nat)
    requires 0 < bloco
    ensures var m := Slots(cap, bloco);
      (k + 1) % m * bloco == if k % m * bloco + bloco >= cap then 0 else k % m * bloco + bloco
  {
    hide Slots;
    var m, j := Slots(cap, bloco), k % Slots(cap, bloco);
    ModStep(k, m);
    assert (j + 1) * bloco == j * bloco + bloco;
    UltimoSlot(cap, bloco, j);
  }

  lemma UltimoSlot(cap: int, bloco: nat, j: nat)
    requires 0 < bloco && j < Slots(cap, bloco)
    ensures (j + 1) * bloco >= cap <==> j + 1 == Slots(cap, bloco)
  {
    var m := Slots(cap, bloco);
    if cap > bloco {
      assert cap - 1 == (m - 1) * bloco + (cap - 1) % bloco;
      assert m * bloco == (m - 1) * bloco + bloco;
      if j + 1 < m { MulMono(j + 1, m - 1, bloco); }
    }
  }

  /** The state of the writer's file and counters after the given blocks were flushed. */
  ghost predicate Layout(blocos: seq<seq<byte>>, cap: int, bloco: nat, off: nat, escritos: nat, arquivo: seq<byte>)
    requires 0 < bloco
  {
    && AllLen(blocos, bloco)
    && escritos == |blocos| * bloco
    && off == |blocos| % Slots(cap, bloco) * bloco
    && arquivo == Concat(Ring(blocos, Slots(cap, bloco)))
  }

  lemma FlushLands(blocos: seq<seq<byte>>, m: nat, bloco: nat, b: seq<byte>)
    requires 0 < m && 0 < bloco == |b| && AllLen(blocos, bloco)
    ensures var off := |blocos| % m * bloco;
      && 0 <= off <= |Concat(Ring(blocos, m))|
      && Pwrite(Concat(Ring(blocos, m)), off, b) == Concat(Ring(blocos + [b], m))
  {
    RingStep(blocos, m, b);
    RingAllLen(blocos, m, bloco);
    if |blocos| < m {
      DivIs(|blocos|, m, 0);
      PwriteAppends(Ring(blocos, m), bloco, b);
    } else {
      PwriteReplaces(Ring(blocos, m), bloco, |blocos| % m, b);
    }
  }

  /** One flush: the block lands in the slot it belongs to. */
  lemma FlushStep(blocos: seq<seq<byte>>, cap: int, bloco: nat, off: nat, escritos: nat, arquivo: seq<byte>, b: seq<byte>)
    requires 0 < bloco == |b| && Layout(blocos, cap, bloco, off, escritos, arquivo)
    ensures off <= |arquivo|
    ensures Layout(blocos + [b], cap, bloco, if off + bloco >= cap then 0 else off + bloco,
                   escritos + bloco, Pwrite(arquivo, off, b))
  {
    FlushLands(blocos, Slots(cap, bloco), bloco, b);
    NextOffset(cap, bloco, |blocos|);
    assert (|blocos| + 1) * bloco == |blocos| * bloco + bloco;
  }

  /** Until the ring wraps it is the list of blocks written. */
  lemma RingWhole(blocos: seq<seq<byte>>, m: nat)
    requires 0 < m && |blocos| <= m
    ensures Ring(blocos, m) == blocos
  {
    forall i | 0 <= i < |blocos| ensures Latest(|blocos|, m, i) == i {
      DivIs(|blocos| - 1 - i, m, 0);
    }
  }

  lemma FitsBelowCap(cap: int, bloco: nat, k: nat)
    requires 0 < bloco && k * bloco <= cap
    ensures k <= Slots(cap, bloco)
  {
    if cap > bloco {
      assert cap - 1 == (cap - 1) / bloco * bloco + (cap - 1) % bloco;
      if k > Slots(cap, bloco) { MulMono(Slots(cap, bloco) + 1, k, bloco); }
    } else if k > 1 {
      MulMono(2, k, bloco);
    }
  }

  // ---------------------------------------------------------------- the writer

  class Escritor {
    const bloco: nat
    const cap: int
    const buf: array<byte>
    var fill: nat
    var off: nat
    var escritos: nat
    var arquivo: seq<byte>
    /** The blocks flushed so far, oldest first. */
    ghost var blocos: seq<seq<byte>>

    ghost predicate Valid()
      reads this, buf
    {
      && 0 < bloco == buf.Length && fill < bloco
      && Layout(blocos, cap, bloco, off, escritos, arquivo)
    }

    /** Every byte accepted so far: the flushed blocks, then the buffered bytes. */
    ghost function Aceito(): seq<byte>
      requires Valid()
      reads this, buf
    {
      Concat(blocos) + buf[..fill]
    }

    constructor (bloco: nat, cap: int)
      requires 0 < bloco
      ensures Valid() && fresh(buf) && Aceito() == [] && blocos == []
      ensures this.bloco == bloco && this.cap == cap
    {
      this.bloco, this.cap := bloco, cap;
      buf := new byte[bloco](_ => 0);
      fill, off, escritos, arquivo, blocos := 0, 0, 0, [], [];
      new;
      DivIs(0, Slots(cap, bloco), 0);
      assert Ring([], Slots(cap, bloco)) == [];
    }

    /** Flushes the full buffer as the next block of the ring. */
    method Descarregar()
      requires 0 < bloco == buf.Length == fill && Layout(blocos, cap, bloco, off, escritos, arquivo)
      modifies this
      ensures Valid() && fill == 0 && blocos == old(blocos) + [buf[..]]
    {
      FlushStep(blocos, cap, bloco, off, escritos, arquivo, buf[..]);
      arquivo := Pwrite(arquivo, off, buf[..]);
      blocos := blocos + [buf[..]];
      off := off + bloco;
      escritos := escritos + bloco;
      fill := 0;
      if off >= cap {
        off := 0;
      }
    }

    /** self.buf[self.fill : self.fill + k] = dados */
    method Copiar(dados: seq<byte>)
      requires fill + |dados| <= buf.Length
      modifies buf
      ensures buf[..fill + |dados|] == old(buf[..fill]) + dados
    {
      forall i | fill <= i < fill + |dados| {
        buf[i] := dados[i - fill];
      }
    }

    /** One turn of the loop of `escrever`: copies what fits and flushes a full buffer. */
    method Aceitar(dados: seq<byte>)
      requires Valid() && fill + |dados| <= bloco
      modifies this, buf
      ensures Valid() && Aceito() == old(Aceito()) + dados
      ensures old(fill) + |dados| < bloco ==> fill == old(fill) + |dados| && blocos == old(blocos)
      ensures old(fill) + |dados| == bloco ==> fill == 0 && blocos == old(blocos) + [buf[..]]
    {
      hide Concat, Layout;
      Copiar(dados);
      fill := fill + |dados|;
      if fill == bloco {
        assert buf[..fill] == buf[..];
        ConcatSnoc(blocos, buf[..]);
        Descarregar();
      }
    }

    /** Accepts `dados`, flushing each time the buffer fills up. */
    method Escrever(dados: seq<byte>)
      requires Valid()
      modifies this, buf
      ensures Valid() && Aceito() == old(Aceito()) + dados
      ensures old(blocos) <= blocos
    {
      var n, pos := |dados|, 0;
      ghost var antes := Aceito();
      assert antes + dados[..0] == antes;
      while pos < n
        invariant 0 <= pos <= n && Valid() && old(blocos) <= blocos
        invariant Aceito() == antes + dados[..pos]
        decreases n - pos
      {
        var k := Min(bloco - fill, n - pos);
        assert antes + dados[..pos] + dados[pos..pos + k] == antes + dados[..pos + k];
        Aceitar(dados[pos..pos + k]);
        pos := pos + k;
      }
      assert dados[..n] == dados;
    }

    /** Closes the file; with `completar` the last block is first padded with zeros.
        Without it the bytes still in the buffer are lost. */
    method Fechar(completar: bool)
      requires Valid()
      modifies this, buf
      ensures Valid()
      ensures !completar ==> blocos == old(blocos) && arquivo == old(arquivo)
      ensures completar ==> fill == 0 && exists z: nat ::
        z < bloco && Concat(blocos) == old(Aceito()) + Zeros(z)
    {
      if completar {
        ghost var antes, z := Aceito(), if fill == 0 then 0 else bloco - fill;
        assert antes + Zeros(0) == antes;
        if fill > 0 {
          Aceitar(Zeros(bloco - fill));
        }
        assert Concat(blocos) == Aceito();
        assert Concat(blocos) == antes + Zeros(z);
      }
    }

    /** Conservation: what was accepted is what was flushed plus what is buffered, and
        while the ring has not wrapped the file is the flushed part itself. */
    lemma Contabilidade()
      requires Valid()
      ensures |Aceito()| == escritos + fill
      ensures |arquivo| == Min(|blocos|, Slots(cap, bloco)) * bloco
      ensures escritos <= cap ==> arquivo == Aceito()[..escritos]
    {
      UniformLength(blocos, bloco);
      var m := Slots(cap, bloco);
      RingAllLen(blocos, m, bloco);
      UniformLength(Ring(blocos, m), bloco);
      if escritos <= cap {
        FitsBelowCap(cap, bloco, |blocos|);
        RingWhole(blocos, m);
        assert Aceito()[..escritos] == Concat(blocos);
      }
    }
  }
}
