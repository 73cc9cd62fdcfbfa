# Verified model of the benchmark and admission logic

This project models the parts of the repository that decide something: the content-defined
chunker and the deduplicating store over it, the framed block writer and reader of the local
capacity benchmark, the reversible transforms and the CBOR decoder of the OpenZL benchmark, the
admission budget of the engine, the duplicate finder, descriptor cache and policy chooser of the
dataset profiler, the core-count solver and Pareto marking of the economics report, and the
multi-process cell runner. Each is stated in Dafny 4.11 and its main properties are proved for
all inputs, all runs and all interleavings. Nothing was executed.

Code that changes state is modelled by methods with loops, arrays and classes; each is proved
against a specification written without reference to its loops, and the laws are proved about
that specification. The two protocols are transition systems in which every semaphore, queue and
atomic operation is one step.

## Layout

| file | module | models |
|---|---|---|
| `Base.dfy` | `Base` | shared types, sums, offsets, concatenation, division facts |
| `Cdc.dfy` | `Cdc` | `fastcdc_cortar` with 64-bit wrap-around, and `chunkear` |
| `Dedup.dfy`, `Inteiro.dfy` | `Dedup`, `Inteiro` | `varrer_chunks`: dictionary, table, recipes, reconstruction; `tarefa_arquivo_inteiro` |
| `Escritor.dfy`, `Leitor.dfy` | `Gravacao`, `Leitura` | `Escritor` and `Leitor` as classes |
| `Distribuicao.dfy` | `Distribuicao` | regions, file lists and the worker loops |
| `Volta.dfy` | `Volta` | writers and readers together, from the input back to the input |
| `Transformadas.dfy`, `Csv.dfy`, `Cadeia.dfy`, `Blocos.dfy` | same names | delta, byte split, columnar CSV, chains of transforms, `dividir_em_blocos` |
| `Cbor.dfy` | `Cbor` | `decodificar_cbor` and the encoding of sections 3, 3.1 and 3.2 of RFC 8949 |
| `Orcamento.dfy` | `Orcamento` | the budget protocol |
| `Fila.dfy` | `Fila` | the work queue protocol |
| `Listas.dfy`, `Duplicatas.dfy` | `Listas`, `Duplicatas` | dictionaries of lists, sorting, results in any order; two-stage duplicate detection |
| `Descritores.dfy` | `Descritores` | the bounded descriptor cache |
| `Politica.dfy` | `Politica` | policy evaluation and choice |
| `Economia.dfy` | `Economia` | efficiency, core counts, Pareto marking |

## Where the code and the expectation part

- `t_csv` records only the first byte of its delimiter, so its round trip holds exactly for
  delimiters of one byte (`Csv.IdaEVolta`). It applies to some data for every delimiter without a
  line end (`Csv.QuandoAplica`), and `Csv.DoisBytes` is an input with a delimiter of two bytes
  that does not come back.
- `decodificar_cbor` builds Python dictionaries: a map with an unhashable key raises and keys
  that Python holds equal (1 and true) collapse. The decoder returns the encoded value exactly
  when no map in it has such keys (`Cbor.DecFiel`, `Cbor.MapasRecusados`).
- The region loop of mode `preparar` writes a block before it looks at the end of its region, so
  with fewer blocks than files an empty region still yields a block. The regions partition the
  input exactly when there are at least as many blocks as files (`Distribuicao.RegioesParticionam`,
  `Distribuicao.CadaBlocoUmaVez`, `Distribuicao.BlocoZeroRepetido`), and exactly then one reader
  of all files returns the input (`Volta.CicloUmLeitor`) and n readers together return its blocks
  once each (`Volta.CicloDeTodos`).
- `escolher_politica` refuses zstd-3 when it saves nothing by itself even where, with deltas, it
  beats storing; the choice is at least as good as plain zstd-3 in all other cases and in no such
  case (`Politica.QuandoNaoPiorQueZstd3`, `Politica.Zstd3Recusado`). Where zstd-3 saves something
  by itself, or no deltas are used, such a case cannot arise (`Politica.NaoPiorQueZstd3`).
- With no worker and at least one cell the collector of `executar_celulas` waits for ever; it
  completes exactly when there is a worker or nothing to do (`Fila.ColetorTermina`). This is a
  property of the function alone: the command line cannot give it an empty list, since converting
  an empty `--cpu` raises first (bench/syntrabench.py:816).

## Model

| member | source | states |
|---|---|---|
| `Cdc.RollingIsGearSum` | bench/cdc.c:19-33 | the rolling update computes, modulo 2^64, the sum of gear values each weighted by two to the power of its distance from the end |
| `Cdc.HashWindow` | bench/cdc.c:23-33 | once 64 bytes are hashed, the hash equals the one of the last 64 bytes alone |
| `Cdc.HashIsPositionIndependent` | bench/cdc.c:23-38 | two chunks of any files have the same hash wherever their last 64 bytes agree, whatever came before and wherever the chunks began |
| `Cdc.AndBit` | bench/cdc.c:25-34 | bit k of the conjunction of two words is the product of their bits k |
| `Cdc.AndIsZero` | bench/cdc.c:25-34 | the mask test succeeds exactly when hash and mask have no bit set in common |
| `Cdc.CutLen` | bench/cdc.c:11-40 | the length of a chunk is positive, in range, and satisfies the description `IsCut` |
| `Cdc.CutIsUnique` | bench/cdc.c:11-40 | at most one length satisfies `IsCut`, so the description is complete |
| `Cdc.CutMeaning` | bench/cdc.c:13-40 | beyond the minimum a chunk ends at the first index whose distance-weighted gear sum modulo 2^64 has no bit in common with the mask that applies, strict below the normal size and loose from there on, at the latest at the maximum or the end of the data |
| `Cdc.ProcurarCorte` | bench/cdc.c:11-40 | the two nested loops with early exit return that length, for any order of minimum, normal and maximum size |
| `Cdc.FastCdcCortar` | bench/cdc.c:4-50 | the function stores offset and length of every chunk in order, leaves the rest of both arrays alone, and returns the number of chunks, or -1 exactly when they do not fit, with the first `cap` chunks stored |
| `Cdc.ChunksPartition` | bench/cdc.c:13-49 | the chunks cover the input exactly; all are non-empty and at most `maximo` long, all but the last longer than `minimo` |
| `Cdc.CapacitySuffices` | bench/dedup.py:123-126 | at most n // minimo + 1 chunks exist, so the capacity n // minimo + 2 is never exhausted |
| `Cdc.CutIsLocal` | bench/cdc.c:13-40 | a cut not forced by the end of the input is the cut of every input that starts with the chunk's own bytes |
| `Cdc.CommonPrefixChunks` | bench/cdc.c:10-48 | non-final chunks that end inside a common prefix of two files are chunks of both |
| `Cdc.EditLocality` | bench/cdc.c:10-48 | replacing any bytes between p and s leaves alone every non-final chunk that ends inside p |
| `Cdc.AppendChangesLastChunkOnly` | bench/cdc.c:10-48 | appending data keeps all chunks but the last |
| `Cdc.ChunkIsCut` | bench/cdc.c:10-48 | every chunk has the length that `CutLen` gives for the data from its start on |
| `Cdc.ChunksAfterBoundary` | bench/cdc.c:10-48 | what follows a boundary is the chunking of the bytes that follow it |
| `Cdc.Resynchronised` | bench/cdc.c:10-48 | once both chunkings have a boundary at the same point of an unchanged tail, all later chunks are equal |
| `Cdc.StrictHitCuts` | bench/cdc.c:23-38 | with nested masks a chunk that reaches a position whose hash passes the strict mask ends there |
| `Cdc.EditIsForgotten` | bench/cdc.c:10-48 | two files chunked differently before it agree from the first strict hit of the unchanged tail that a chunk of each reaches after 64 hashed bytes |
| `Cdc.FixedLensPartition` | bench/dedup.py:112-122 | fixed-size chunks cover the input and none exceeds the size |
| `Cdc.FixedLensCount` | bench/dedup.py:112-122 | there are ceil(n / size) of them |
| `Cdc.FixedLensByIndex` | bench/dedup.py:112-122 | fixed chunk k starts at k times the size and is that long, the last one shorter |
| `Cdc.NormalisedChunks` | bench/dedup.py:123-129 | a normalised chunker of nominal size a cuts between a // 4 and 8 a bytes, with the strict mask below a and the loose one from there on |
| `Cdc.ChunkLensPartition` | bench/dedup.py:112-129 | under either chunker a file is exactly covered by non-empty chunks |
| `Cdc.Chunkear` | bench/dedup.py:112-129 | returns offsets and lengths of all chunks for either kind of chunker; the capacity error never occurs |
| `Dedup.PassoInv` | bench/dedup.py:459-487 | one turn of the chunk loop, on a known or an unknown hash, keeps recipes, table, dictionary and totals exact |
| `Dedup.VarrerArquivo` | bench/dedup.py:451-487 | the chunk loop of one file records its chunks in order |
| `Dedup.VarrerVersao` | bench/dedup.py:447-487 | the file loop records all files and notes where each recipe starts |
| `Dedup.VarrerChunks` | bench/dedup.py:422-487 | the scan of both versions is the fold over all their chunks |
| `Dedup.OrdemDasOcorrencias` | bench/dedup.py:447-461 | the scan meets all chunks file after file, each with its version, file, offset, bytes and digest |
| `Dedup.Conhecido` | bench/dedup.py:462-464 | the dictionary knows a chunk exactly when its content occurred before |
| `Dedup.VarreduraInv` | bench/dedup.py:447-487 | after any number of chunks: recipes name first occurrences of the right content, the table describes exactly the first occurrences, the dictionary holds exactly the hashes met, and the totals are exact |
| `Dedup.PrimeiraDecide` | bench/dedup.py:483-486 | the version of a content's first occurrence is 0 exactly when the content occurs in version 1 |
| `Dedup.Conservacao` | bench/dedup.py:483-486 | logical bytes of v2 equal duplicates plus unique bytes first seen in v2; `vs_v1` is exactly the bytes of v2 chunks whose content occurs in v1 |
| `Dedup.ReceitasLocalizam` | bench/dedup.py:459-487 | every recipe entry locates the bytes of the chunk it was made for |
| `Dedup.Remontar` | bench/dedup.py:505-508 | concatenating the chunks that a file's recipe names rebuilds the file |
| `Dedup.ReconstruirV2` | bench/dedup.py:501-513 | `exato` holds exactly when every recorded digest is that of its file; the failures reported are the first six of those there are, in order |
| `Dedup.FalhasSaoAsErradas` | bench/dedup.py:501-513 | the failures there are, in order, are exactly the files whose recorded digest is not theirs |
| `Dedup.Analisar` | bench/dedup.py:422-513 | scan, reconstruction and totals together, for any chunker that partitions its input |
| `Dedup.Resumir` | bench/dedup.py:455-461 | offsets and lengths that partition the data make a valid chunked file with each chunk's digest |
| `Dedup.Cortar` | bench/dedup.py:454-461 | `chunkear` delivers such a file for both kinds of chunker |
| `Inteiro.Indexar` | bench/dedup.py:573-584 | the dictionary has exactly the hashes met, each leading to the first occurrence with that hash |
| `Inteiro.SomarEmV1` | bench/dedup.py:585-587 | the set-based sum is the bytes of v2 files whose content occurs in v1 |
| `Inteiro.SomarDuplicados` | bench/dedup.py:588-593 | the set-based sum is the bytes of v2 files whose content was met before |
| `Inteiro.Reler` | bench/dedup.py:594-599 | reading each v2 file back through the dictionary fails only for a wrong recorded digest |
| `Inteiro.ArquivoInteiro` | bench/dedup.py:564-599 | whole-file deduplication reports the totals and the number of unique contents that the chunk store reports with one chunk per file |
| `Gravacao.LatestIsLatest` | bench/capacidade_local.py:1036-1043 | the block in slot j is the last one written whose number is j modulo the slots |
| `Gravacao.RingIsTail` | bench/capacidade_local.py:1036-1043 | read from the oldest slot on, the ring holds exactly the last min(k, slots) blocks in order |
| `Gravacao.FlushStep` | bench/capacidade_local.py:1036-1043 | a flush at the current offset puts the block in its slot, and the next offset wraps exactly when the cap is reached |
| `Gravacao.Escritor.Descarregar` | bench/capacidade_local.py:1036-1049 | appends the full buffer to the blocks written and empties it |
| `Gravacao.Escritor.Escrever` | bench/capacidade_local.py:1024-1034 | whatever pieces data arrive in, the bytes accepted are their concatenation, and blocks already written stay |
| `Gravacao.Escritor.Fechar` | bench/capacidade_local.py:1051-1059 | with padding, the blocks are all bytes accepted plus fewer than a block of zeros; without it nothing more is written |
| `Gravacao.Escritor.Contabilidade` | bench/capacidade_local.py:1024-1049 | bytes accepted equal `escritos` plus `fill`; the file is min(k, slots) blocks long; until the cap is passed it is a prefix of the bytes accepted |
| `Leitura.LE32RoundTrip` | bench/capacidade_local.py:929 | the two 32-bit header words unpack to what was packed |
| `Leitura.LE32Bytes` | bench/capacidade_local.py:929 | byte k of a packed word is its k-th from the low end |
| `Leitura.CabecalhoDeQuadro` | bench/capacidade_local.py:929-931 | a frame begins with the block's length and the payload's, four bytes each |
| `Leitura.LerCabecalho` | bench/capacidade_local.py:1097-1103 | the header in memory is that of the next frame, or zero exactly in the padding |
| `Leitura.RetirarQuadro` | bench/capacidade_local.py:1103-1106 | a frame is taken off exactly when it is wholly in memory, and its payload is the frame's |
| `Leitura.Leitor.LerBloco` | bench/capacidade_local.py:1083-1094 | compacting and appending a block, possibly short, keeps the unread bytes of memory and disk together |
| `Leitura.Leitor.Proximo` | bench/capacidade_local.py:1096-1111 | terminates when some file holds a frame, and the k-th call returns the payload of frame k modulo their number, file after file in a circle, for any block size, any straddling and any amount of padding |
| `Distribuicao.BlocosDaRegiao` | bench/capacidade_local.py:1333-1334 | the region of worker j begins at block b with b m <= j n < (b + 1) m, goes on block by block, and ends where region j + 1 begins, or after its first block |
| `Distribuicao.RegioesIguais` | bench/capacidade_local.py:1333-1334 | with enough blocks no two regions differ by more than one block |
| `Distribuicao.RegioesExatas` | bench/capacidade_local.py:1333-1334 | where m divides the number of blocks, worker j has blocks j q to (j + 1) q - 1 |
| `Distribuicao.RegioesParticionam` | bench/capacidade_local.py:1333-1337 | the blocks of all regions, in order, are the blocks of the input once each, if and only if there are at least as many blocks as files |
| `Distribuicao.BlocoZeroRepetido` | bench/capacidade_local.py:922-939 | with fewer blocks than files block 0 is written more than once, or read past the end of an empty input |
| `Distribuicao.PassoExato` | bench/capacidade_local.py:1378-1379 | the files of reader i are i, i + n, i + 2 n and so on, exactly those that exist |
| `Distribuicao.PassosParticionam` | bench/capacidade_local.py:1378-1379 | the strided file lists of n readers together read every block as often as the files hold it |
| `Distribuicao.CadaBlocoUmaVez` | bench/capacidade_local.py:1333-1379 | a full cycle of n readers yields every input block exactly once, for every n, if and only if there are at least as many blocks as files |
| `Distribuicao.ComprimirRegiao` | bench/capacidade_local.py:922-939 | the loop hands the writer exactly the frames of its blocks, the first one unconditionally |
| `Distribuicao.Preparar` | bench/capacidade_local.py:900-939 | after closing, the file is those frames plus zero padding of less than a block, unless the cap was passed |
| `Distribuicao.LerFrames` | bench/capacidade_local.py:961-967 | n turns of a reading worker return the decompressed payloads of the next n frames |
| `Volta.PrepararArquivo` | bench/capacidade_local.py:1336-1337 | a worker with its own writer leaves on disk the frames of its region, an empty one included, and zero padding, as long as they fit below the cap |
| `Volta.VoltaDevolveOsBlocos` | bench/capacidade_local.py:1333-1379 | frame k of a reader's files announces the block size and decompresses to block k of its regions, file after file |
| `Volta.LerVolta` | bench/capacidade_local.py:946-967 | a reader of any files returns in one cycle exactly the input blocks of their regions, file after file |
| `Volta.CicloUmLeitor` | bench/capacidade_local.py:877-1111 | through m writers and one reader of all files, the output is the blocks of the regions in order, and it is the input if and only if there are at least as many blocks as files |
| `Volta.TodosUmaVez` | bench/capacidade_local.py:1333-1379 | the blocks that n readers read in one cycle are, as a multiset, those of the input if and only if there are at least as many blocks as files |
| `Volta.CicloDeTodos` | bench/capacidade_local.py:877-1111 | m writers and n readers run in full: each reader's output is known block for block, and all outputs together are the blocks of the input, each as often as it occurs there, under the same condition |
| `Transformadas.TDeltaInv` | bench/openzl_bench.py:1206-1216 | returns the string whose delta is the given one, for every width and length, tail included |
| `Transformadas.DeltaInjetiva` | bench/openzl_bench.py:1196-1203 | different inputs have different deltas, so the inverse is the only one |
| `Transformadas.DeltaDaString` | bench/openzl_bench.py:1196-1203 | word i of the delta is word i less word i - 1 modulo 2^(8w), the first word as it was |
| `Transformadas.DeltaTamanho` | bench/openzl_bench.py:1196-1203 | the delta is as long as the data and ends in the same tail |
| `Transformadas.ByteDaPalavra` | bench/openzl_bench.py:1196-1203 | words are little-endian: byte k is worth 256^k |
| `Transformadas.TSplitInv` | bench/openzl_bench.py:1224-1230 | returns the string whose split is the given one, for every width and length, tail included |
| `Transformadas.SplitInjetiva` | bench/openzl_bench.py:1219-1221 | different inputs have different splits |
| `Transformadas.SplitDaString` | bench/openzl_bench.py:1219-1221 | byte p of word k stands at place k of plane p, and the tail is unchanged |
| `Csv.Varint` | bench/openzl_bench.py:1233-1240 | appends the little-endian base-128 digits of the number |
| `Csv.VarintGrupos` | bench/openzl_bench.py:1233-1240 | byte k of a varint holds the k-th group of seven bits and says whether more follow |
| `Csv.VarintTamanho` | bench/openzl_bench.py:1233-1240 | there are as many groups as the number needs |
| `Csv.LerVarintBytes` | bench/openzl_bench.py:1268-1278 | reading those digits, whatever follows them, gives the number and the exact end |
| `Csv.UnirDividir` | bench/openzl_bench.py:1243-1260 | joining what `split` returned gives the bytes back, for any separator |
| `Csv.TCsvInv` | bench/openzl_bench.py:1263-1288 | the loops compute the function `CsvInv` on every byte string, errors included |
| `Csv.InversaDeTCsv` | bench/openzl_bench.py:1243-1288 | on the output of `t_csv` the inverse returns the rows joined with the delimiter's first byte |
| `Csv.IdaEVolta` | bench/openzl_bench.py:1243-1288 | whenever `t_csv` applies, the inverse returns the original data if and only if the delimiter is one byte long |
| `Csv.TabelaDoTexto` | bench/openzl_bench.py:1243-1247 | on the text of a table of fields without the one-byte delimiter and line end `t_csv` sees the table's own rows |
| `Csv.UltimaLinhaVazia` | bench/openzl_bench.py:1244-1245 | a text whose last line is empty is that of the rows before it with a final line end |
| `Csv.TCsvDeTabela` | bench/openzl_bench.py:1243-1260 | on that text it applies exactly to four rows or more and two columns or more of constant width; the output is 0x43, the delimiter, 1 or 0 for the final line end, both counts, then all lengths and all fields column after column |
| `Csv.InversaDeCortado` | bench/openzl_bench.py:1263-1288 | what begins accepted data is accepted exactly if it reaches the end of the lengths; otherwise it raises IndexError |
| `Csv.FimDosTamanhosDeTCsv` | bench/openzl_bench.py:1253-1260 | in the output of `t_csv` the fields follow the lengths and end the data |
| `Csv.QuandoAplica` | bench/openzl_bench.py:1243-1250 | `t_csv` applies to some data if and only if its delimiter holds no line end |
| `Csv.DoisBytes` | bench/openzl_bench.py:1243-1288 | an input with a delimiter of two bytes to which `t_csv` applies and that does not come back |
| `Cadeia.Aplicar` | bench/openzl_bench.py:1334-1342 | the forward loop computes the composition of the links, None as soon as one does not apply |
| `Cadeia.Cadeias` | bench/openzl_bench.py:1291-1312 | what each of the chains tried computes, delta before split and table before delta |
| `Cadeia.TabelaAplicavel` | bench/openzl_bench.py:1334-1342 | a chain that starts with the CSV link applies to the text of a table exactly if that has four rows, two columns and a constant width |
| `Cadeia.Desfazer` | bench/openzl_bench.py:1349-1350 | the inverses in reverse order lead back through every intermediate value to the input |
| `Cadeia.Candidata` | bench/openzl_bench.py:1334-1351 | a chain is applicable exactly when every link is, and then the data are recovered exactly through any inverse pair of codecs |
| `Blocos.DividirEmBlocos` | bench/openzl_bench.py:393-406 | short data stay whole; otherwise the blocks concatenate to the data, none is empty, and a position inside the data is a border between two of them exactly when it is one of the cuts |
| `Blocos.CorteCerto` | bench/openzl_bench.py:398-404 | a cut inside the data lies after a line end, or at a whole number of records past the header |
| `Blocos.PosSemLinhas` | bench/openzl_bench.py:399-400 | where lines do not matter the i-th cut is n * i // k rounded down to a record, never displaced by the cut before it |
| `Blocos.CorteNaLinha` | bench/openzl_bench.py:399-403 | where lines are kept whole the i-th cut follows the first line end at or after n * i // k rounded down, or after the cut before it if that is later |
| `Blocos.LinhaUnica` | bench/openzl_bench.py:401-403 | that determines the cut |
| `Blocos.BordaNaLinha` | bench/openzl_bench.py:393-406 | every border between two blocks is such a cut: past its target, just after a line end, with no line end between the target, or the cut before, and that one |
| `Blocos.ExatamenteK` | bench/openzl_bench.py:395-406 | where lines do not matter, data of at least 4096 bytes per block and records of at most 4096 bytes are cut into exactly k blocks |
| `Cbor.DecodificarCbor` | bench/openzl_bench.py:230-293 | the recursive decoder with its container loops computes the function `Dec` on every input, errors included, and terminates |
| `Cbor.NenhumItemComecaComQuebra` | bench/openzl_bench.py:257-285 | no encoded item starts with 0xFF, so indefinite containers end where they should |
| `Cbor.CabecaDaNorma` | bench/openzl_bench.py:230-254 | the initial byte holds the major type and, as RFC 8949 section 3 has it, the argument or its width |
| `Cbor.ArgumentoDaNorma` | bench/openzl_bench.py:239-247 | the argument follows in network byte order |
| `Cbor.TiposDaNorma` | bench/openzl_bench.py:255-293 | the major type of every kind of item, open containers and their break byte, false, true and null |
| `Cbor.CorposDaNorma` | bench/openzl_bench.py:257-285 | items follow in order, each key immediately before its value |
| `Cbor.DecInverteEnc` | bench/openzl_bench.py:230-293 | on any well-formed encoding, in any head width, at any position and followed by any bytes, the decoder builds the item's Python value and returns the exact end, or raises where building it does |
| `Cbor.ConstruirFiel` | bench/openzl_bench.py:257-285 | the Python value built is the item's own, tags erased, if and only if all map keys in it are hashable and pairwise different under Python's equality |
| `Cbor.DecFiel` | bench/openzl_bench.py:230-293 | decoding inverts encoding if and only if that holds |
| `Cbor.MapasRecusados` | bench/openzl_bench.py:270-285 | maps that violate it: an array or a map as key, and the keys 1 and true together |
| `Cbor.InserirBusca` | bench/openzl_bench.py:270-285 | after `out[k] = v` the dict has v for every key equal to k and what it had for every other |
| `Cbor.DecFlutuante` | bench/openzl_bench.py:242-293 | a floating-point head of 2, 4 or 8 bytes reads as its bits, high byte first, and raises StructError when cut short |
| `Cbor.DecSimples` | bench/openzl_bench.py:237-293 | simple values other than false, true and null read as their number, a stray break as null |
| `Cbor.DecRecusa` | bench/openzl_bench.py:230-254 | which heads raise IndexError, ValueError, StructError or TypeError |
| `Cbor.DecCortada` | bench/openzl_bench.py:257-258 | a byte or text string cut short is not refused: it yields what there is and the position announced |
| `Cbor.DecIncompleto` | bench/openzl_bench.py:259-285 | an array or map whose data end before its announced length, or before the break byte, raises IndexError |
| `Orcamento.PassoInv` | src/budget.rs:27-33 | every step of every task, cancellation and timeout included, keeps the invariant on units, bytes, windows and phases |
| `Orcamento.SemEstouro` | src/budget.rs:84-88 | neither the addition nor the subtraction on the gauge wraps |
| `Orcamento.Seguranca` | src/budget.rs:62-104 | in every state of every run free plus held units equal `units`, the gauge is the block size times the tasks between add and subtract and within the limit, and slots sharing a window never exceed its permits |
| `Orcamento.Repouso` | src/budget.rs:20-33 | once all tasks ended, however they ended, all permits are back and the gauge is zero |
| `Orcamento.Desfecho` | src/budget.rs:62-104 | in every state of every run a task has a result exactly if the step that gives it was taken: the timeout for Busy, a closed semaphore for Overloaded, the dropped future for Cancelado, the return of the unit for Concluido; only admission requests are Busy, and Busy and Concluido come after the window's permit |
| `Orcamento.ConcluidoUsou` | src/budget.rs:62-104 | a task with a result has Concluido if and only if its slot was in use |
| `Orcamento.EsperaAcaba` | src/budget.rs:67-88 | a waiting task can always be refused or cancelled, and can time out exactly if it waits for a unit and asked for admission; then it ends so, its window's permit given back |
| `Orcamento.Pico` | src/budget.rs:84-91 | the peak gauge is monotone, within the limit, and the exact historical maximum whenever nobody stands between fetch_add and fetch_max |
| `Orcamento.SemImpasse` | src/budget.rs:62-104 | while a task is unfinished some task can advance |
| `Orcamento.TodasTerminam` | src/budget.rs:20-104 | from every reachable state the tasks present can all be brought to their end, and the budget is then as at the start |
| `Fila.PassoInv` | bench/syntrabench.py:257-305 | every step keeps each cell in exactly one place and as many sentinels as running workers |
| `Fila.Seguranca` | bench/syntrabench.py:257-277 | in every interleaving no cell is run or reported twice, no worker takes a sentinel while a cell is queued, and a stopped worker stays stopped |
| `Fila.Mensagens` | bench/syntrabench.py:257-303 | the messages collected and waiting are, in order, those the workers sent: a success with its rows, a failure as a failure |
| `Fila.CelulasEmOrdem` | bench/syntrabench.py:284-288 | cells leave the queue in the order in which they were put in |
| `Fila.SemImpasse` | bench/syntrabench.py:280-305 | with a worker, a state that no step continues has one message per cell and every worker stopped |
| `Fila.Progresso` | bench/syntrabench.py:257-305 | every run has at most 3(n + m) steps, and with a worker a complete one reports every cell exactly once, failed cells included |
| `Fila.ColetorTermina` | bench/syntrabench.py:294-303 | the collector completes in every complete run if and only if there is a worker or no cell |
| `Duplicatas.AmostraInjetiva` | bench/perfil_dataset.py:827-838 | equal samples imply equal files of size n if and only if n is at most three windows |
| `Duplicatas.MesmaAmostra` | bench/perfil_dataset.py:827-838 | files of one size have the same sample exactly if they agree on the first, the last and the middle 64 KiB, or wholly up to 192 KiB |
| `Listas.Agrupar` | bench/perfil_dataset.py:1157-1159 | the dictionary of lists is a partition of the indices by key, in order |
| `Duplicatas.PorTamanho` | bench/perfil_dataset.py:1129-1134 | a file is a candidate exactly when it is readable, not empty and of the size of another such file |
| `Duplicatas.PreFiltrar` | bench/perfil_dataset.py:1146-1169 | the sample stage yields the final classes of small files and leaves for the full hash exactly the large files that share size and sample with another |
| `Duplicatas.HashCompleto` | bench/perfil_dataset.py:1170-1186 | the full hash yields the content classes of two files or more among the pending ones, each sorted, whatever order results arrive in |
| `Duplicatas.GruposUnicos` | bench/perfil_dataset.py:1187 | there is only one correct report, so the two modes agree |
| `Duplicatas.GruposSaoIguais` | bench/perfil_dataset.py:1125-1193 | two files are in one group of a correct report exactly if both are not empty, readable and opened, and have the same content |
| `Duplicatas.EtapaDedup` | bench/perfil_dataset.py:1125-1193 | in either mode and for any arrival order the groups are exactly the content classes of two files or more, ordered by first file, and a file is redundant exactly when an earlier one has its content |
| `Descritores.DirEntra` | bench/perfil_dataset.py:665-667 | appending a directory after its parent keeps the order and every known path |
| `Descritores.FilaLimitada` | bench/perfil_dataset.py:691-693 | the cache never exceeds 48 entries and holds the directory just asked for |
| `Descritores.FilaExata` | bench/perfil_dataset.py:678-694 | after a request the cache holds what it held and the directories opened, in that order, the oldest left out beyond 48 |
| `Descritores.Leitor.FdDir` | bench/perfil_dataset.py:678-694 | returns an open descriptor on the directory that the path leads to, evicts in order of arrival and never the one returned, and opens or closes no descriptor but its own, on failure too |
| `Descritores.Leitor.FecharTudo` | bench/perfil_dataset.py:731-737 | closes every cached descriptor once and nothing else |
| `Politica.ValorEhEconomia` | bench/perfil_dataset.py:2131-2210 | the net value of every policy is the bill for keeping everything as it is less the policy's own bill, written from the parameters: space and reads in the old form until the recompression and in the new one after it, movement, compression, hashing, deltas, and one recompression of what is retained |
| `Politica.Relatorio` | bench/perfil_dataset.py:2213-2251 | the cost, monthly saving and months left reported of a candidate are those of the bill per retained gigabyte, and the break-even time is when savings have paid the cost |
| `Politica.CpuPorHora` | bench/perfil_dataset.py:2131-2132 | an hour of a core at m MB/s processes 3.6 m gigabytes and costs the price of an hour |
| `Politica.ValorDaRecompressao` | bench/perfil_dataset.py:2179-2192 | the net value with recompression minus that of zstd-3 alone is the gigabytes retained times the reported value per gigabyte |
| `Politica.QuandoPaga` | bench/perfil_dataset.py:2224-2250 | a candidate is reported to pay exactly when it saves more than zstd-3 and its value is positive, and a break-even time lies within the remaining life exactly when the value is positive |
| `Politica.AvaliacoesConcordam` | bench/perfil_dataset.py:2146-2251 | the evaluator and the figures the chooser uses give every policy the same value |
| `Politica.NaoPiorQueGuardado` | bench/perfil_dataset.py:2254-2269 | the choice is never worse than storing |
| `Politica.QuandoNaoPiorQueZstd3` | bench/perfil_dataset.py:2254-2258 | the choice is at least as good as plain zstd-3 if and only if it is not the case that zstd-3 saves nothing by itself and still beats storing |
| `Politica.Zstd3Recusado` | bench/perfil_dataset.py:2256-2258 | that exceptional case exists, with positive costs, half of a class in families and deltas of half the size |
| `Politica.SemDeltasNaoCompensa` | bench/perfil_dataset.py:2146-2176 | without deltas a zstd-3 that saves nothing is worth no more than storing |
| `Politica.NaoPiorQueZstd3` | bench/perfil_dataset.py:2254-2269 | so the choice is never worse than plain zstd-3 where zstd-3 saves something or no deltas are used |
| `Politica.EscolhaAvaliada` | bench/perfil_dataset.py:2146-2269 | both results for the policy chosen on any case, in the evaluator's own terms |
| `Politica.EscolhaExata` | bench/perfil_dataset.py:2254-2272 | storing is chosen exactly if zstd-3 is worth no more or saves nothing, recompression exactly if a candidate saves more and has a positive value, and then the first of highest value |
| `Politica.MelhorDoCaso` | bench/perfil_dataset.py:2259-2269 | when zstd-3 is kept, storing, plain zstd-3 and every candidate that saves more are worth at most what the choice is, in the evaluator's value |
| `Politica.SemGanhoNaoCompensa` | bench/perfil_dataset.py:2224-2236 | a candidate that saves no more and decompresses no cheaper has no positive value |
| `Politica.MelhorSemMaisBaratos` | bench/perfil_dataset.py:2259-2269 | if no candidate that saves no more decompresses cheaper and zstd-3 is kept, the choice is worth at least as much as any policy, in the evaluator's value |
| `Politica.MelhorSemMaisRapidos` | bench/perfil_dataset.py:2131-2269 | the same in measured throughputs: it is the best if no candidate that saves no more decompresses faster |
| `Economia.EficienciaDecresce` | bench/economia.py:58-64 | interpolated efficiency never rises with the number of cores and stays between the last and the first value |
| `Economia.EficienciaEntre` | bench/economia.py:61-63 | between two measured points efficiency is their mean, each weighted by the distance to the other |
| `Economia.EficienciaMedida` | bench/economia.py:59-64 | at a measured point it is the measured value, beyond the ends that of the end |
| `Economia.IteradoCresce` | bench/economia.py:67-77 | no iterate is below the one before |
| `Economia.IteradoAbaixo` | bench/economia.py:67-77 | no iterate is above any fixed point |
| `Economia.IteradoLimites` | bench/economia.py:67-77 | every iterate lies between the ideal number of cores and that at the worst efficiency |
| `Economia.ParadoNoMenor` | bench/economia.py:67-77 | if two successive iterates agree they are the least fixed point |
| `Economia.Nucleos` | bench/economia.py:67-77 | cores and efficiency returned carry the load exactly, within those bounds; every step but the last moved by 1e-9 or more, and unless all 200 were used the last one moved by less |
| `Economia.Pareto` | bench/economia.py:193-205 | a configuration is marked exactly when the last record of its name is dominated by no other |
| `Economia.DominaSeMelhor` | bench/economia.py:199-203 | a record dominates another exactly when it is no worse and the other is |
| `Economia.FronteiraCobre` | bench/economia.py:193-205 | every record has an undominated one at least as good, strictly better if it is dominated |

## Left out

- Compression libraries (zstd, xz) are any pair of functions that undo each other and give a non-empty result below 4 GiB.
- Hashes (blake2b, sha256) are digests assumed equal exactly for equal inputs among the data at hand.
- Files are taken not to change between scan and read; the status fields that report such changes are not modelled.
- Positions of the local capacity benchmark are counted in whole blocks, and the block size is a parameter.
- Volta.CicloUmLeitor: each region with its headers is taken to compress below the cap of the preparing workers, 2^50 bytes in the source.
- Volta.CicloDeTodos: as for one reader; there are at most as many readers as files (8 or 16 readers of 16 files in the source), so that every reader has a file.
- O_DIRECT, fadvise, fdatasync, latencies, barriers, deadlines and progress counters in shared memory are not modelled.
- The read cache of the reconstruction loop, the per-category costs and the zstd-19 sample of `varrer_chunks` are not modelled.
- Dedup.VarreduraInv: assumes that equal digests mean equal chunks, as the table is keyed by digest.
- Cbor.DecodificarCbor: the text of a string item is an abstract function of its bytes, and Python's recursion limit is not modelled; indefinite-length byte and text strings raise TypeError, as in the code, and are not encoded.
- Cbor.DecFiel: floating-point items are not encoded; the decoder's value for them, the raw bits, is in `Dec`.
- Orcamento.Seguranca: each atomic and semaphore operation is one indivisible step, so memory ordering and the fairness of the semaphore queues are not modelled.
- Fila.Seguranca: CPU affinity, process start and join, and the contents of result rows are not modelled.
- Descritores.Leitor.FdDir: an error of `open` is an arbitrary failure; `abrir`, `ler` and file descriptors are not modelled.
- Duplicatas.EtapaDedup: byte counters and the digest shown with each group are not modelled; a file either can be read in every stage or in none.
- Politica.AvaliacoesConcordam: the CPU cost per gigabyte of each codec is a parameter, related to throughputs by `CpuGb`; the core-month figure in the report is not modelled.
- Economia.Nucleos: real arithmetic instead of floating point, with theta * fator as one number; tables are taken as increasing in n with positive, non-increasing efficiency of at most one; that a fixed point exists is not claimed.
- Family building (`montar_cadeias`, `etapa_familias`), `alocar_pares`, `descendentes` and `curva_interp` are not modelled.
- Statistics, classification of samples, reports, downloads, Docker and system sampling are not modelled.
- The Rust codec, container and vault sources, and src/bombas_tests.rs, which exercises them, are not part of this model.
