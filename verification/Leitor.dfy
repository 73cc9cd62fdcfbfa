/** The frame format and the block reader of bench/capacidade_local.py.  A file is a list
    of frames (original length, payload length, payload) followed by zero padding; the
    reader delivers the payloads of all files, one per call, round and round. */
module Leitura {
  import opened Base
  import opened Gravacao

  // ---------------------------------------------------------------- frames

  const TWO32: nat := 0x1_0000_0000

  datatype Quadro = Quadro(olen: nat, dados: seq<byte>)
  {
    /** A frame as the preparing worker writes it: both lengths fit the header and the
        original length is not zero, since zero marks padding. */
    predicate Valid() { 0 < olen < TWO32 && |dados| < TWO32 }

    /** struct.pack("<II", olen, len(dados)) + dados */
    function Codificar(): seq<byte>
      requires Valid()
    {
      LE32(olen) + LE32(|dados|) + dados
    }
  }

  function LE32(v: nat): seq<byte>
    requires v < TWO32
  {
    [v % 256, v / 256 % 256, v / 65536 % 256, v / 16777216]
  }

  /** struct.unpack_from("<I", b, p) */
  function DeLE32(b: seq<byte>, p: nat): nat
    requires p + 4 <= |b|
  {
    b[p] as int + 256 * b[p + 1] as int + 65536 * b[p + 2] as int + 16777216 * b[p + 3] as int
  }

  lemma LE32RoundTrip(v: nat)
    requires v < TWO32
    ensures DeLE32(LE32(v), 0) == v
  {
    assert v / 65536 == v / 256 / 256 && v / 16777216 == v / 256 / 256 / 256;
  }

  /** The low byte comes first. */
  lemma LE32Bytes(v: nat, k: nat)
    requires v < TWO32 && k < 4
    ensures LE32(v)[k] == v / Pow256(k) % 256
  {
    assert Pow256(0) == 1 && Pow256(1) == 256 && Pow256(2) == 65536 && Pow256(3) == 16777216;
    assert v / 1 == v && v / 16777216 < 256;
  }

  ghost predicate AllValid(qs: seq<Quadro>) { forall i :: 0 <= i < |qs| ==> qs[i].Valid() }

  /** The bytes of a list of frames. */
  function Fluxo(qs: seq<Quadro>): seq<byte>
    requires AllValid(qs)
  {
    if qs == [] then [] else qs[0].Codificar() + Fluxo(qs[1..])
  }

  lemma {:induction false} FluxoSnoc(qs: seq<Quadro>, q: Quadro)
    requires AllValid(qs) && q.Valid()
    ensures Fluxo(qs + [q]) == Fluxo(qs) + q.Codificar()
  {
    if qs == [] {
      assert Fluxo([q]) == q.Codificar() + Fluxo([]);
    } else {
      assert (qs + [q])[1..] == qs[1..] + [q];
      FluxoSnoc(qs[1..], q);
    }
  }

  /** Four header bytes are read back wherever they stand. */
  lemma LerLE32(pre: seq<byte>, v: nat, resto: seq<byte>)
    requires v < TWO32
    ensures DeLE32(pre + LE32(v) + resto, |pre|) == v
  {
    var t, p := pre + LE32(v) + resto, |pre|;
    LE32RoundTrip(v);
    assert t[p] == LE32(v)[0] && t[p + 1] == LE32(v)[1] && t[p + 2] == LE32(v)[2] && t[p + 3] == LE32(v)[3];
  }

  /** A frame reads as its own lengths. */
  lemma CabecalhoDeQuadro(q: Quadro, resto: seq<byte>)
    requires q.Valid()
    ensures DeLE32(q.Codificar() + resto, 0) == q.olen
    ensures DeLE32(q.Codificar() + resto, 4) == |q.dados|
  {
    LerLE32([], q.olen, LE32(|q.dados|) + q.dados + resto);
    assert [] + LE32(q.olen) + (LE32(|q.dados|) + q.dados + resto) == q.Codificar() + resto;
    LerLE32(LE32(q.olen), |q.dados|, q.dados + resto);
    assert LE32(q.olen) + LE32(|q.dados|) + (q.dados + resto) == q.Codificar() + resto;
  }

  /** The unread bytes, pend[p..] in memory and `disco` on disk, are the given frames
      followed by z zeros. */
  ghost predicate Restam(pend: seq<byte>, p: nat, disco: seq<byte>, qs: seq<Quadro>, z: nat) {
    p <= |pend| && AllValid(qs) && pend[p..] + disco == Fluxo(qs) + Zeros(z)
  }

  /** What the header in memory says. */
  lemma LerCabecalho(pend: seq<byte>, p: nat, disco: seq<byte>, qs: seq<Quadro>, z: nat)
    requires Restam(pend, p, disco, qs, z) && p + 8 <= |pend|
    ensures DeLE32(pend, p) == 0 <==> qs == []
    ensures qs != [] ==> DeLE32(pend, p + 4) == |qs[0].dados|
  {
    hide DeLE32;
    var todo := Fluxo(qs) + Zeros(z);
    assert forall i :: 0 <= i < 8 ==> pend[p + i] == (pend[p..] + disco)[i];
    MesmoCabecalho(pend, p, todo);
    if qs != [] {
      CabecalhoDeQuadro(qs[0], Fluxo(qs[1..]) + Zeros(z));
      PrimeiroQuadro(qs, z);
    } else {
      assert todo == Zeros(z);
      LerZeros(z);
    }
  }

  lemma PrimeiroQuadro(qs: seq<Quadro>, z: nat)
    requires AllValid(qs) && qs != []
    ensures Fluxo(qs) + Zeros(z) == qs[0].Codificar() + (Fluxo(qs[1..]) + Zeros(z))
  {
  }

  lemma MesmoCabecalho(b: seq<byte>, p: nat, c: seq<byte>)
    requires p + 8 <= |b| && 8 <= |c| && forall i :: 0 <= i < 8 ==> b[p + i] == c[i]
    ensures DeLE32(b, p) == DeLE32(c, 0) && DeLE32(b, p + 4) == DeLE32(c, 4)
  {
    assert b[p + 4] == c[4] && b[p + 5] == c[5] && b[p + 6] == c[6] && b[p + 7] == c[7];
    assert b[p + 0] == c[0] && b[p + 1] == c[1] && b[p + 2] == c[2] && b[p + 3] == c[3];
  }

  lemma LerZeros(z: nat)
    requires 8 <= z
    ensures DeLE32(Zeros(z), 0) == 0
  {
  }

  lemma PartesDoQuadro(q: Quadro, resto: seq<byte>)
    requires q.Valid()
    ensures var todo, m := q.Codificar() + resto, 8 + |q.dados|;
      m <= |todo| && todo[8..m] == q.dados && todo[m..] == resto
  {
    assert q.Codificar() + resto == LE32(q.olen) + LE32(|q.dados|) + q.dados + resto;
  }

  lemma CortarTudo(pend: seq<byte>, p: nat, disco: seq<byte>, m: nat)
    requires 8 <= m && p + m <= |pend|
    ensures (pend[p..] + disco)[8..m] == pend[p + 8..p + m]
    ensures (pend[p..] + disco)[m..] == pend[p + m..] + disco
  {
  }

  /** A frame wholly in memory can be taken off; one that is not has bytes on disk. */
  lemma RetirarQuadro(pend: seq<byte>, p: nat, disco: seq<byte>, qs: seq<Quadro>, z: nat)
    requires Restam(pend, p, disco, qs, z) && qs != []
    ensures var n := p + 8 + |qs[0].dados|;
      && (disco == [] ==> n <= |pend|)
      && (n <= |pend| ==> pend[p + 8..n] == qs[0].dados && Restam(pend, n, disco, qs[1..], z))
  {
    hide Fluxo, Quadro.Codificar;
    var q, m, resto := qs[0], 8 + |qs[0].dados|, Fluxo(qs[1..]) + Zeros(z);
    PrimeiroQuadro(qs, z);
    PartesDoQuadro(q, resto);
    if p + m <= |pend| { CortarTudo(pend, p, disco, m); }
  }

  /** Reading moves bytes from disk to memory. */
  lemma TrazerDoDisco(pend: seq<byte>, p: nat, lido: seq<byte>, disco: seq<byte>, qs: seq<Quadro>, z: nat)
    requires Restam(pend, p, lido + disco, qs, z)
    ensures Restam(pend[p..] + lido, 0, disco, qs, z)
  {
    assert (pend[p..] + lido)[0..] + disco == pend[p..] + (lido + disco);
  }

  // ---------------------------------------------------------------- positions in the files

  /** How many frames the files before file f hold. */
  function Antes(arqs: seq<seq<Quadro>>, f: nat): nat
    requires f <= |arqs|
  {
    |Concat(arqs[..f])|
  }

  lemma AntesDoFim(arqs: seq<seq<Quadro>>)
    ensures Antes(arqs, |arqs|) == |Concat(arqs)|
  {
    assert arqs[..|arqs|] == arqs;
  }

  lemma AntesStep(arqs: seq<seq<Quadro>>, f: nat)
    requires f < |arqs|
    ensures Antes(arqs, f + 1) == Antes(arqs, f) + |arqs[f]|
  {
    assert arqs[..f + 1] == arqs[..f] + [arqs[f]];
    ConcatSnoc(arqs[..f], arqs[f]);
  }

  lemma {:induction false} AntesMonotone(arqs: seq<seq<Quadro>>, f: nat, g: nat)
    requires f <= g <= |arqs|
    ensures Antes(arqs, f) <= Antes(arqs, g)
    decreases g - f
  {
    if f < g {
      AntesStep(arqs, f);
      AntesMonotone(arqs, f + 1, g);
    }
  }

  /** Frame i of file f is frame Antes(f) + i of the concatenation. */
  lemma QuadroGlobal(arqs: seq<seq<Quadro>>, f: nat, i: nat)
    requires f < |arqs| && i < |arqs[f]|
    ensures Antes(arqs, f) + i < |Concat(arqs)| && Concat(arqs)[Antes(arqs, f) + i] == arqs[f][i]
  {
    assert arqs == arqs[..f] + ([arqs[f]] + arqs[f + 1..]);
    ConcatAppend(arqs[..f], [arqs[f]] + arqs[f + 1..]);
    ConcatAppend([arqs[f]], arqs[f + 1..]);
    assert Concat([arqs[f]]) == arqs[f] + [];
  }

  /** The file that holds frame number g. */
  lemma {:induction false} ArquivoDe(arqs: seq<seq<Quadro>>, g: nat, n: nat) returns (t: nat)
    requires n <= |arqs| && g < Antes(arqs, n)
    ensures t < n && Antes(arqs, t) <= g < Antes(arqs, t + 1)
    decreases n
  {
    if n == 0 || Antes(arqs, n - 1) <= g {
      assert arqs[..0] == [];
      t := n - 1;
    } else {
      t := ArquivoDe(arqs, g, n - 1);
    }
  }

  /** File t holds frame g, the next to deliver.  A reader inside file f is then in file t;
      a reader at the end of file f has only empty files to skip before file t. */
  ghost predicate NaVez(arqs: seq<seq<Quadro>>, f: nat, i: nat, g: nat, t: nat) {
    && f < |arqs| && i <= |arqs[f]| && t < |arqs|
    && Antes(arqs, t) <= g < Antes(arqs, t + 1) && g < |Concat(arqs)|
    && (Antes(arqs, f) + i) % |Concat(arqs)| == g
  }

  lemma DentroDoArquivo(arqs: seq<seq<Quadro>>, f: nat, i: nat, g: nat, t: nat)
    requires NaVez(arqs, f, i, g, t) && i < |arqs[f]|
    ensures f == t && arqs[f][i] == Concat(arqs)[g]
  {
    hide Antes, Concat;
    QuadroGlobal(arqs, f, i);
    AntesStep(arqs, f);
    DivIs(Antes(arqs, f) + i, |Concat(arqs)|, 0);
    MesmoArquivo(arqs, f, t, g);
  }

  lemma FimDoArquivo(arqs: seq<seq<Quadro>>, f: nat, g: nat, t: nat)
    requires f < |arqs| && NaVez(arqs, f, |arqs[f]|, g, t)
    ensures var h := if f + 1 == |arqs| then 0 else f + 1;
      NaVez(arqs, h, 0, g, t) && (arqs[h] != [] ==> h == t) && (h == t ==> arqs[h] != [])
  {
    var total := |Concat(arqs)|;
    var h := if f + 1 == |arqs| then 0 else f + 1;
    AntesDoFim(arqs);
    assert arqs[..0] == [];
    AntesStep(arqs, f);
    if f + 1 == |arqs| { DivIs(total, total, 1); DivIs(0, total, 0); }
    assert NaVez(arqs, h, 0, g, t);
    AntesStep(arqs, t);
    if arqs[h] != [] { DentroDoArquivo(arqs, h, 0, g, t); }
  }

  lemma IndiceSeguinte(f: nat, n: nat)
    requires f < n
    ensures (f + 1) % n == if f + 1 == n then 0 else f + 1
  {
    DivIs(f + 1, n, if f + 1 == n then 1 else 0);
  }

  lemma MesmoArquivo(arqs: seq<seq<Quadro>>, f: nat, t: nat, g: nat)
    requires f < |arqs| && t < |arqs|
    requires Antes(arqs, t) <= g < Antes(arqs, t + 1)
    requires Antes(arqs, f) <= g < Antes(arqs, f + 1)
    ensures f == t
  {
    if f < t { AntesMonotone(arqs, f + 1, t); }
    if t < f { AntesMonotone(arqs, t + 1, f); }
  }

  lemma MesmoResto(a: nat, b: nat, m: nat)
    requires 0 < m && a % m == b % m
    ensures (a + 1) % m == (b + 1) % m
  {
    ModStep(a, m);
    ModStep(b, m);
  }

  // ---------------------------------------------------------------- the reader

  class Leitor {
    const bloco: nat
    /** The contents of the open files; `tam` in the source is their lengths. */
    const fds: seq<seq<byte>>
    var f: nat
    var off: nat
    var pend: seq<byte>
    var p: nat
    var lidos: nat
    var fimArq: bool
    /** What the files were made of: their frames and the length of their padding. */
    ghost const arqs: seq<seq<Quadro>>
    ghost const pads: seq<nat>
    /** Frames taken from the current file, and payloads delivered in all. */
    ghost var idx: nat
    ghost var entregues: nat

    ghost predicate Arquivos() {
      && 0 < bloco && 0 < |fds| == |arqs| == |pads|
      && forall i :: 0 <= i < |fds| ==> AllValid(arqs[i]) && fds[i] == Fluxo(arqs[i]) + Zeros(pads[i])
    }

    /** The number of frames in all files. */
    ghost function Total(): nat { |Concat(arqs)| }

    /** The bytes in memory and on disk are the frames of the file not yet delivered. */
    ghost predicate NoArquivo()
      reads this
    {
      && Arquivos() && f < |fds| && off <= |fds[f]| && p <= |pend| && idx <= |arqs[f]|
      && (fimArq ==> off == |fds[f]|)
      && Restam(pend, p, fds[f][off..], arqs[f][idx..], pads[f])
    }

    ghost predicate Valid()
      reads this
    {
      && NoArquivo()
      && (0 < Total() ==> (Antes(arqs, f) + idx) % Total() == entregues % Total())
    }

    constructor (bloco: nat, fds: seq<seq<byte>>, ghost arqs: seq<seq<Quadro>>, ghost pads: seq<nat>)
      requires 0 < bloco && 0 < |fds| == |arqs| == |pads|
      requires forall i :: 0 <= i < |fds| ==> AllValid(arqs[i]) && fds[i] == Fluxo(arqs[i]) + Zeros(pads[i])
      ensures Valid() && entregues == 0 && this.arqs == arqs && this.fds == fds
    {
      this.bloco, this.fds, this.arqs, this.pads := bloco, fds, arqs, pads;
      f, off, pend, p, lidos, fimArq, idx, entregues := 0, 0, [], 0, 0, false, 0, 0;
    }

    /** How many files are still to be opened before frame g, held by file t, is at hand. */
    ghost function Distancia(t: nat): int
      reads this
    {
      if f < |arqs| && idx < |arqs[f]| then 0 else if f < t then t - f else t + |arqs| - f
    }

    method ProximoArquivo(ghost g: nat, ghost t: nat)
      requires Arquivos() && f < |fds| && idx == |arqs[f]| && NaVez(arqs, f, idx, g, t)
      modifies this
      ensures NoArquivo() && entregues == old(entregues) && NaVez(arqs, f, idx, g, t)
      ensures 0 <= Distancia(t) < old(Distancia(t))
    {
      hide Antes, Concat, Fluxo, NaVez;
      FimDoArquivo(arqs, f, g, t);
      IndiceSeguinte(f, |fds|);
      f := (f + 1) % |fds|;
      off := 0;
      fimArq := false;
      pend := [];
      p := 0;
      idx := 0;
    }

    /** The number of bytes a read of one block returns: the system may return fewer than
        there are, but none at the end of the file only. */
    method Preadv() returns (n: nat)
      requires f < |fds| && off <= |fds[f]| && 0 < bloco
      ensures off + n <= |fds[f]| && n <= bloco && (n == 0 ==> off == |fds[f]|)
    {
      n := Min(bloco, |fds[f]| - off);
      var curto: nat := *;
      if 0 < curto < n {
        n := curto;
      }
    }

    method LerBloco()
      requires NoArquivo() && !fimArq
      modifies this
      ensures NoArquivo() && f == old(f) && idx == old(idx) && entregues == old(entregues)
      ensures off > old(off) || fimArq
    {
      hide Fluxo, Restam, Zeros;
      var n := Preadv();
      var lido := fds[f][off..off + n];
      assert fds[f][off..] == lido + fds[f][off + n..];
      TrazerDoDisco(pend, p, lido, fds[f][off + n..], arqs[f][idx..], pads[f]);
      assert pend[0..] == pend;
      if p > 0 {
        pend := pend[p..];
        p := 0;
      }
      pend := pend + lido;
      off := off + n;
      lidos := lidos + n;
      if n == 0 || off >= |fds[f]| {
        fimArq := true;
      }
    }

    /** fr = pend[p + 8 : p + 8 + clen]; p += 8 + clen */
    method RetirarPayload(clen: nat) returns (fr: seq<byte>)
      requires Valid() && idx < |arqs[f]| && clen == |arqs[f][idx].dados| && p + 8 + clen <= |pend|
      modifies this
      ensures Valid() && entregues == old(entregues) + 1
      ensures fr == arqs[old(f)][old(idx)].dados
    {
      hide Antes, Concat, Fluxo, Restam, Zeros;
      ghost var resto := arqs[f][idx..];
      RetirarQuadro(pend, p, fds[f][off..], resto, pads[f]);
      assert resto[0] == arqs[f][idx] && resto[1..] == arqs[f][idx + 1..];
      if 0 < Total() { MesmoResto(Antes(arqs, f) + idx, entregues, Total()); }
      fr := pend[p + 8..p + 8 + clen];
      p := p + 8 + clen;
      idx, entregues := idx + 1, entregues + 1;
    }

    /** Delivers the next payload: frame after frame, file after file, round and round. */
    method Proximo() returns (fr: seq<byte>)
      requires Valid() && 0 < Total()
      modifies this
      ensures Valid() && entregues == old(entregues) + 1
      ensures fr == Concat(arqs)[old(entregues) % Total()].dados
    {
      hide Antes, Concat, DeLE32, Fluxo, Restam, Zeros;
      ghost var g := entregues % Total();
      AntesDoFim(arqs);
      ghost var t := ArquivoDe(arqs, g, |arqs|);
      while true
        invariant NoArquivo() && entregues == old(entregues) && NaVez(arqs, f, idx, g, t)
        decreases Distancia(t), |fds[f]| - off, !fimArq
      {
        ghost var resto, disco := arqs[f][idx..], fds[f][off..];
        if resto != [] {
          DentroDoArquivo(arqs, f, idx, g, t);
          RetirarQuadro(pend, p, disco, resto, pads[f]);
          assert resto[0] == arqs[f][idx];
        }
        var disp := |pend| - p;
        if disp >= 8 {
          LerCabecalho(pend, p, disco, resto, pads[f]);
          var olen, clen := DeLE32(pend, p), DeLE32(pend, p + 4);
          if olen == 0 {
            ProximoArquivo(g, t);
            continue;
          }
          if disp >= 8 + clen {
            fr := RetirarPayload(clen);
            return;
          }
        }
        if fimArq {
          ProximoArquivo(g, t);
          continue;
        }
        LerBloco();
      }
    }
  }
}
