/** The directory descriptors of `Leitor` in bench/perfil_dataset.py: directories are opened
    relative to their parent's descriptor and kept in a bounded cache that closes its oldest
    entry.  The process's descriptor table is part of the state; descriptor numbers may be
    reused once closed. */
module Descritores {
  import opened Base

  const MAXIMO: nat := 48

  /** A directory: its parent's index and its name.  Directory 0 is the root. */
  datatype Dir = Dir(pai: nat, nome: string)

  type Caminho = seq<string>

  /** A directory enters the list after its parent. */
  ghost predicate DirsValidas(dirs: seq<Dir>) {
    dirs != [] && forall d {:trigger dirs[d]} :: 0 < d < |dirs| ==> dirs[d].pai < d
  }

  /** The names on the way from the root. */
  function CaminhoDe(dirs: seq<Dir>, d: nat): Caminho
    requires DirsValidas(dirs) && d < |dirs|
  {
    if d == 0 then [] else CaminhoDe(dirs, dirs[d].pai) + [dirs[d].nome]
  }

  /** The walk appends each directory after its parent: the order is kept, and so is the
      path of every directory already known. */
  lemma {:induction false} DirEntra(dirs: seq<Dir>, pai: nat, nome: string, d: nat)
    requires DirsValidas(dirs) && pai < |dirs| && d < |dirs|
    ensures DirsValidas(dirs + [Dir(pai, nome)])
    ensures CaminhoDe(dirs + [Dir(pai, nome)], d) == CaminhoDe(dirs, d)
    decreases d
  {
    var e := dirs + [Dir(pai, nome)];
    assert forall k {:trigger e[k]} :: 0 < k < |dirs| ==> e[k] == dirs[k];
    if d != 0 { DirEntra(dirs, pai, nome, dirs[d].pai); }
  }

  /** A cache entry: a directory and the descriptor it is open on. */
  datatype Entrada = Entrada(did: nat, fd: nat)

  function Dids(cache: seq<Entrada>): (s: seq<nat>)
    ensures |s| == |cache| && forall k :: 0 <= k < |s| ==> s[k] == cache[k].did
  {
    seq(|cache|, k requires 0 <= k < |cache| => cache[k].did)
  }

  function Fds(cache: seq<Entrada>): set<nat> { set k | 0 <= k < |cache| :: cache[k].fd }

  /** The oldest entry goes when there is one too many. */
  function Cortar<T>(s: seq<T>): seq<T> { if |s| > MAXIMO then s[1..] else s }

  /** Which directories the cache holds after a successful request for d. */
  function FilaDepois(dirs: seq<Dir>, fila: seq<nat>, d: nat): seq<nat>
    requires DirsValidas(dirs) && d < |dirs|
  {
    if d == 0 || d in fila then fila else Cortar(FilaDepois(dirs, fila, dirs[d].pai) + [d])
  }

  /** The cached descriptors: distinct, open, and each on its own directory. */
  ghost predicate CacheValida(dirs: seq<Dir>, raiz: nat, cache: seq<Entrada>, tabela: map<nat, Caminho>) {
    && DirsValidas(dirs) && raiz in tabela && tabela[raiz] == []
    && (forall k :: 0 <= k < |cache| ==> EntradaValida(dirs, raiz, cache[k], tabela))
    && forall j, k :: 0 <= j < |cache| && 0 <= k < |cache| && j != k ==> Diferentes(cache[j], cache[k])
  }

  ghost predicate EntradaValida(dirs: seq<Dir>, raiz: nat, e: Entrada, tabela: map<nat, Caminho>)
    requires DirsValidas(dirs)
  {
    0 < e.did < |dirs| && e.fd != raiz && e.fd in tabela && tabela[e.fd] == CaminhoDe(dirs, e.did)
  }

  predicate Diferentes(e: Entrada, f: Entrada) { e.did != f.did && e.fd != f.fd }

  // ---------------------------------------------------------------- the cache as a value

  lemma FdLivre(s: set<nat>) returns (m: nat)
    ensures forall x :: x in s ==> x < m
    decreases |s|
  {
    if s == {} {
      m := 0;
    } else {
      var x :| x in s;
      var n := FdLivre(s - {x});
      assert forall y :: y in s ==> y == x || y in s - {x};
      m := if n <= x then x + 1 else n;
    }
  }

  /** A new entry at the end. */
  lemma Entra(dirs: seq<Dir>, raiz: nat, cache: seq<Entrada>, tabela: map<nat, Caminho>, d: nat, fd: nat)
    requires CacheValida(dirs, raiz, cache, tabela) && 0 < d < |dirs| && d !in Dids(cache) && fd !in tabela
    ensures CacheValida(dirs, raiz, cache + [Entrada(d, fd)], tabela[fd := CaminhoDe(dirs, d)])
    ensures tabela[fd := CaminhoDe(dirs, d)] - Fds(cache + [Entrada(d, fd)]) == tabela - Fds(cache)
  {
    var c, t := cache + [Entrada(d, fd)], tabela[fd := CaminhoDe(dirs, d)];
    forall k | 0 <= k < |cache| ensures EntradaValida(dirs, raiz, cache[k], t) && Diferentes(cache[k], Entrada(d, fd)) {
      assert EntradaValida(dirs, raiz, cache[k], tabela) && Dids(cache)[k] != d;
    }
    forall j, k | 0 <= j < |c| && 0 <= k < |c| && j != k ensures Diferentes(c[j], c[k]) {
      assert j < |cache| && k < |cache| ==> Diferentes(cache[j], cache[k]);
    }
    FdsMais(cache, Entrada(d, fd));
    assert t - Fds(c) == tabela - Fds(cache);
  }

  lemma FdsMais(cache: seq<Entrada>, e: Entrada)
    ensures Fds(cache + [e]) == Fds(cache) + {e.fd}
  {
    var c := cache + [e];
    assert c[|cache|] == e;
    forall x | x in Fds(cache) ensures x in Fds(c) {
      var k :| 0 <= k < |cache| && cache[k].fd == x;
      assert c[k].fd == x;
    }
  }

  /** The oldest entry closed and dropped. */
  lemma Sai(dirs: seq<Dir>, raiz: nat, cache: seq<Entrada>, tabela: map<nat, Caminho>)
    requires CacheValida(dirs, raiz, cache, tabela) && cache != []
    ensures cache[0].fd in tabela && CacheValida(dirs, raiz, cache[1..], tabela - {cache[0].fd})
    ensures tabela - {cache[0].fd} - Fds(cache[1..]) == tabela - Fds(cache)
  {
    var e, r, t := cache[0], cache[1..], tabela - {cache[0].fd};
    assert EntradaValida(dirs, raiz, e, tabela);
    forall k | 0 <= k < |r| ensures EntradaValida(dirs, raiz, r[k], t) {
      assert r[k] == cache[k + 1] && EntradaValida(dirs, raiz, cache[k + 1], tabela) && Diferentes(e, cache[k + 1]);
    }
    forall j, k | 0 <= j < |r| && 0 <= k < |r| && j != k ensures Diferentes(r[j], r[k]) {
      assert Diferentes(cache[j + 1], cache[k + 1]);
    }
    FdsMenos(cache);
    assert t - Fds(r) == tabela - Fds(cache);
  }

  lemma FdsMenos(cache: seq<Entrada>)
    requires cache != []
    ensures Fds(cache) == Fds(cache[1..]) + {cache[0].fd}
  {
    var r := cache[1..];
    assert forall k :: 0 <= k < |r| ==> r[k].fd == cache[k + 1].fd;
    forall x | x in Fds(cache) ensures x in Fds(r) + {cache[0].fd} {
      var k :| 0 <= k < |cache| && cache[k].fd == x;
      assert k > 0 ==> r[k - 1].fd == x;
    }
  }

  /** Ancestors come into the cache, never d itself. */
  lemma {:induction false} FilaSemFilho(dirs: seq<Dir>, fila: seq<nat>, p: nat, d: nat)
    requires DirsValidas(dirs) && p < d < |dirs| && d !in fila
    ensures d !in FilaDepois(dirs, fila, p)
    decreases p
  {
    if p != 0 && p !in fila { FilaSemFilho(dirs, fila, dirs[p].pai, d); }
  }

  /** The cache stays bounded, and it holds the directory asked for. */
  lemma {:induction false} FilaLimitada(dirs: seq<Dir>, fila: seq<nat>, d: nat)
    requires DirsValidas(dirs) && d < |dirs| && |fila| <= MAXIMO
    ensures |FilaDepois(dirs, fila, d)| <= MAXIMO
    ensures d != 0 ==> d in FilaDepois(dirs, fila, d)
    decreases d
  {
    if d != 0 && d !in fila {
      FilaLimitada(dirs, fila, dirs[d].pai);
      var t := FilaDepois(dirs, fila, dirs[d].pai) + [d];
      assert t[|t| - 1] == d;
      assert |t| > MAXIMO ==> t[1..][|t| - 2] == d;
    }
  }

  /** The directories on the way to d, from the one nearest the root on, that have to be opened:
      those below the nearest one at hand. */
  function Faltam(dirs: seq<Dir>, fila: seq<nat>, d: nat): seq<nat>
    requires DirsValidas(dirs) && d < |dirs|
  {
    if d == 0 || d in fila then [] else Faltam(dirs, fila, dirs[d].pai) + [d]
  }

  /** What the cache holds after a request: the directories it held and those that were opened,
      in that order, the oldest left out where there are more than 48. */
  lemma {:induction false} FilaExata(dirs: seq<Dir>, fila: seq<nat>, d: nat)
    requires DirsValidas(dirs) && d < |dirs| && |fila| <= 48
    ensures var t := fila + Faltam(dirs, fila, d);
      FilaDepois(dirs, fila, d) == if |t| > 48 then t[|t| - 48..] else t
    decreases d
  {
    if d == 0 || d in fila {
      assert fila + [] == fila;
    } else {
      var t := fila + Faltam(dirs, fila, dirs[d].pai);
      FilaExata(dirs, fila, dirs[d].pai);
      assert fila + Faltam(dirs, fila, d) == t + [d];
      if |t| > 48 { assert (t[|t| - 48..] + [d])[1..] == (t + [d])[|t| + 1 - 48..]; }
    }
  }

  // ---------------------------------------------------------------- the reader

  class Leitor {
    const dirs: seq<Dir>
    const raiz: nat
    var cache: seq<Entrada>
    /** The open descriptors of the process and the directory each is on. */
    var tabela: map<nat, Caminho>

    ghost predicate Valid()
      reads this
    {
      CacheValida(dirs, raiz, cache, tabela) && |cache| <= MAXIMO
    }

    /** The descriptors that are not the cache's. */
    ghost function Alheios(): map<nat, Caminho>
      reads this
    {
      tabela - Fds(cache)
    }

    constructor (dirs: seq<Dir>, raiz: nat, tabela: map<nat, Caminho>)
      requires DirsValidas(dirs) && raiz in tabela && tabela[raiz] == []
      ensures Valid() && this.dirs == dirs && this.raiz == raiz
      ensures this.tabela == tabela && cache == []
    {
      this.dirs, this.raiz, this.cache, this.tabela := dirs, raiz, [], tabela;
    }

    /** os.open of a directory relative to an open one: may fail, otherwise takes a number
        not in use. */
    method Abrir(nome: string, dirFd: nat) returns (r: Result<nat, string>)
      requires dirFd in tabela
      modifies this`tabela
      ensures r.Err? ==> tabela == old(tabela)
      ensures r.Ok? ==> r.value !in old(tabela) && tabela == old(tabela)[r.value := old(tabela)[dirFd] + [nome]]
    {
      var falha: bool := *;
      if falha {
        return Err("sem_permissao_diretorio");
      }
      ghost var m := FdLivre(tabela.Keys);
      assert m !in tabela;
      var fd: nat :| fd !in tabela;
      tabela := tabela[fd := tabela[dirFd] + [nome]];
      return Ok(fd);
    }

    /** os.close; only an open descriptor may be closed. */
    method Fechar(fd: nat)
      requires fd in tabela
      modifies this`tabela
      ensures tabela == old(tabela) - {fd}
    {
      tabela := tabela - {fd};
    }

    /** self.cache.get(did). */
    method Procurar(did: nat) returns (r: Option<nat>)
      ensures r.None? <==> did !in Dids(cache)
      ensures r.Some? ==> Entrada(did, r.value) in cache
    {
      var k := 0;
      while k < |cache|
        invariant 0 <= k <= |cache| && forall i :: 0 <= i < k ==> cache[i].did != did
      {
        if cache[k].did == did {
          assert Dids(cache)[k] == did;
          return Some(cache[k].fd);
        }
        k := k + 1;
      }
      return None;
    }

    /** The end of fd_dir: the new descriptor enters the cache, and the oldest one is closed
        if there is one too many. */
    method Guardar(did: nat, fd: nat)
      requires CacheValida(dirs, raiz, cache + [Entrada(did, fd)], tabela) && |cache| <= MAXIMO
      modifies this`cache, this`tabela
      ensures Valid() && Alheios() == old(tabela - Fds(cache + [Entrada(did, fd)]))
      ensures Dids(cache) == Cortar(old(Dids(cache)) + [did]) && Entrada(did, fd) in cache
      ensures tabela == if old(|cache|) == MAXIMO then old(tabela) - {old(cache)[0].fd} else old(tabela)
    {
      cache := cache + [Entrada(did, fd)];
      assert cache[|cache| - 1] == Entrada(did, fd);
      if |cache| > MAXIMO {
        Sai(dirs, raiz, cache, tabela);
        assert cache[1..][|cache| - 2] == Entrada(did, fd);
        var antigo := cache[0];
        cache := cache[1..];
        Fechar(antigo.fd);
      }
    }

    /** fd_dir: a descriptor open on the directory that the path of `did` leads to.  It
        stays in the cache, the cache evicts in order of arrival, and no descriptor but the
        cache's own is opened or closed, whether the request succeeds or fails. */
    method FdDir(did: nat) returns (r: Result<nat, string>)
      requires Valid() && did < |dirs|
      modifies this`cache, this`tabela
      ensures Valid() && Alheios() == old(Alheios())
      ensures r.Ok? ==> r.value in tabela && tabela[r.value] == CaminhoDe(dirs, did)
      ensures r.Ok? ==> if did == 0 then r.value == raiz else Entrada(did, r.value) in cache
      ensures r.Ok? ==> Dids(cache) == FilaDepois(dirs, old(Dids(cache)), did)
      ensures did == 0 || did in old(Dids(cache)) ==> r.Ok? && cache == old(cache) && tabela == old(tabela)
      decreases did
    {
      if did == 0 {
        return Ok(raiz);
      }
      var achado := Procurar(did);
      if achado.Some? {
        assert EntradaValida(dirs, raiz, Entrada(did, achado.value), tabela);
        return Ok(achado.value);
      }
      var Dir(pai, nome) := dirs[did];
      var fdp := FdDir(pai);
      if fdp.Err? {
        return fdp;
      }
      FilaSemFilho(dirs, old(Dids(cache)), pai, did);
      ghost var antes := tabela;
      r := Abrir(nome, fdp.value);
      if r.Err? {
        return;
      }
      Entra(dirs, raiz, cache, antes, did, r.value);
      Guardar(did, r.value);
    }

    /** fechar_tudo: every cached descriptor is closed, and nothing else. */
    method FecharTudo()
      requires Valid()
      modifies this`cache, this`tabela
      ensures Valid() && cache == [] && tabela == old(Alheios())
    {
      while cache != []
        invariant Valid() && Alheios() == old(Alheios())
        decreases |cache|
      {
        Sai(dirs, raiz, cache, tabela);
        var antigo := cache[0];
        cache := cache[1..];
        Fechar(antigo.fd);
      }
    }
  }
}
