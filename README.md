# RepoSource: the chunk source of Scalene's allocator

`RepoSource<Size>` hands out `Size`-byte chunks ("repos") to the rest of the
allocator. At construction it reserves one 3 GiB region, rounds the region's
start up to a multiple of `Size`, and keeps a bump cursor `_buf` and a byte
counter `_sz` (a 64-bit `size_t`). `get(sz)` looks for a chunk to reuse in a
static table of free lists. There is one list per size class `16 * (i + 1)`
and one extra overflow list for empty chunks. When no list can serve the
request, `get` carves a fresh chunk at the cursor, or returns null when the
counter says the reservation is spent. `put(repo)` marks a chunk as held by
the source and links it in front of the list of its object size.

The project has five modules:

- `Arena` (arena.dfy): the constants, `align` on 64-bit addresses (the mask
  is written out bit by bit and proved to round up) and `getIndex`.
- `RepoSourceSpec` (reposource_spec.dfy): the source as a state machine on
  values. It holds the cursor, the counter modulo 2^64, the buckets as
  sequences of addresses and each carved chunk's header. `Init`, `Get` and
  `Put` follow the constructor, `get` and `put` branch by branch. `Inv` is
  the invariant the source keeps: chunks are aligned, disjoint slices
  below the cursor, `_sz` is the distance to the end modulo 2^64, every
  linked chunk is InSource and sits in the bucket of its size, no chunk is
  linked twice, and every InSource chunk is linked.
- `RepoSourceProps` (reposource_props.dfy): what `get` and `put` do, branch
  by branch. It proves that both keep the invariant, that reuse round-trips,
  that bytes are conserved, and the exhaustion boundary.
- `RepoSourceFindings` (findings.dfy): the carve guard's overrun from an
  unaligned start, the last chunk it strands, and the corrected guard (see
  Findings).
- `RepoSourceImpl` (reposource.dfy): the object-level source. `Chunk` is a
  header with a mutable `next` link. `RepoSource` is a class whose bucket
  table is an `array<Chunk?>` of list heads. Its `Get` and `Put` methods
  relink the chunks in place and are proved to act on the objects exactly
  as `RepoSourceSpec.Get` and `RepoSourceSpec.Put` act on the abstract state.
  Its well-formedness `Valid()` includes that every chunk out of the source
  has a null link, which `put` asserts at line 113. `Construct` models the
  static instance counter.

## Model

| member | source | states |
|---|---|---|
| Arena.ClearLow | include/reposource.hpp:18 | clearing the low log2(Size) bits never increases the value |
| Arena.ClearLowRoundsDown | include/reposource.hpp:18 | masking with `~(Size-1)` for a power-of-two Size rounds down to a multiple of Size |
| Arena.ChunkSizeDividesHeap | include/reposource.hpp:7-11 | every admissible Size (a power of two of at least 512 that fits the `int` template parameter) divides MAX_HEAP_SIZE, so a Size-aligned reservation is a whole number of chunks |
| Arena.AlignRoundsUp | include/reposource.hpp:17-20 | `align(p)` is a multiple of Size and lies in `[p, p + Size)` when the chunk fits below 2^64 |
| Arena.Align | include/reposource.hpp:17-20 | `align` yields a 64-bit address no greater than `ptr + Size - 1` taken modulo 2^64 |
| Arena.GetIndex | include/reposource.hpp:136-138 | the bucket index is the one whose size class `(index+1)*16` is the largest class not above `sz` |
| Arena.IndexInTable | include/reposource.hpp:136-145 | every legal object size maps to an ordinary bucket `0 <= index < NUM_REPOS`, never the overflow one |
| Arena.IndexDeterminesSize | include/reposource.hpp:136-138 | on legal sizes two sizes with the same bucket index are equal |
| RepoSourceSpec.Init | include/reposource.hpp:24-29 | the constructed state satisfies the source invariant |
| RepoSourceSpec.Get | include/reposource.hpp:53-100 | the returned chunk is a carved chunk left Unattached, the reservation start is unchanged and the table keeps its shape |
| RepoSourceSpec.Carve | include/reposource.hpp:63-66 | the bump step moves the cursor by one chunk and leaves `_sz` a 64-bit value |
| RepoSourceSpec.Put | include/reposource.hpp:102-123 | put changes neither cursor nor counter nor the set of carved chunks, and leaves the chunk InSource |
| RepoSourceProps.InitSound | include/reposource.hpp:24-29 | after construction the cursor is `align(start)`, cursor plus `_sz` is the end of the reservation, nothing is carved and every bucket is null |
| RepoSourceProps.GetCarve | include/reposource.hpp:58-71 | with both buckets null and `sz < _sz`, get returns the old cursor (aligned, never handed out before), moves the cursor by Size, lowers `_sz` by Size modulo 2^64 and keeps the invariant |
| RepoSourceProps.GetExhausted | include/reposource.hpp:72-76 | with both buckets null and `sz >= _sz`, get returns null and changes nothing |
| RepoSourceProps.GetReformatsOverflow | include/reposource.hpp:80-99 | with a non-null overflow bucket and a null or non-empty requested head, get unlinks the overflow head and returns it reformatted for `sz`, and it is then in no bucket |
| RepoSourceProps.GetPopsRequested | include/reposource.hpp:80-99 | otherwise get unlinks the head of the requested bucket, returns it Unattached with object size `sz`, and it is then in no bucket |
| RepoSourceProps.GetKeepsInv | include/reposource.hpp:53-100 | every get keeps the source invariant |
| RepoSourceProps.GetSizeFidelity | include/reposource.hpp:53-100 | whatever `get(sz)` returns has object size `sz`, is Unattached and is linked into no bucket |
| RepoSourceProps.PutKeepsInv | include/reposource.hpp:102-123 | every put keeps the source invariant |
| RepoSourceProps.PutLinks | include/reposource.hpp:111-121 | put of a chunk not InSource links it in front of the bucket of its size; the bucket is an ordinary one under the shipped policy, and the chunk was in no bucket before |
| RepoSourceProps.NotLinked | include/reposource.hpp:111-113 | a chunk that is not InSource is linked into no bucket, so its link may be overwritten |
| RepoSourceProps.PutIdempotent | include/reposource.hpp:106-110 | a second put of the same chunk changes nothing |
| RepoSourceProps.OverflowDormant | include/reposource.hpp:114-119 | with empties not routed to the overflow bucket, that bucket stays null |
| RepoSourceProps.PutThenGet | include/reposource.hpp:53-123 | put of a chunk followed by get of its object size returns that chunk and restores the buckets, cursor and counter |
| RepoSourceProps.GetPutGet | include/reposource.hpp:53-123 | get, put of the result, get again returns the same chunk and carves nothing the second time |
| RepoSourceProps.ReuseLostWhenRouting | include/reposource.hpp:80-88 | with the commented-out routing of line 118 switched on, a released chunk that still holds objects goes back to its bucket, yet while the overflow bucket is non-null the next get of its size reformats the overflow head and does not return the released chunk |
| RepoSourceProps.OverflowReformat | include/reposource.hpp:81-88 | with the dormant policy on, an empty chunk put into the overflow bucket is returned reformatted by a get of another size whose bucket is null |
| RepoSourceProps.PopKeepsInv | include/reposource.hpp:89-92 | unlinking a bucket head and giving it a non-InSource header keeps the invariant and leaves the chunk in no bucket |
| RepoSourceProps.PushKeepsInv | include/reposource.hpp:111-121 | linking an unlinked chunk in front of the bucket it belongs to keeps the invariant |
| RepoSourceProps.CarveStaysInside | include/reposource.hpp:62-66 | when the usable range is a whole number of chunks, a carve allowed by the guard ends inside the reservation |
| RepoSourceProps.NoWrapWhenWhole | include/reposource.hpp:62-66 | when the usable range is a whole number of chunks, `_buf + _sz` is always the end and every chunk lies inside the reservation |
| RepoSourceProps.Conservation | include/reposource.hpp:62-66 | while the cursor has not passed the end of the reservation, held bytes plus bytes resident in buckets plus `_sz` equal the capacity less the alignment slack; a chunk is resident exactly when some bucket links it |
| RepoSourceProps.GetRunKeepsInv | include/reposource.hpp:53-100 | the invariant holds after any number of gets in a row |
| RepoSourceProps.CarveRun | include/reposource.hpp:62-66 | k carving gets move the cursor by k chunks and lower `_sz` by k chunks modulo 2^64, carving k chunks |
| RepoSourceProps.ExhaustionBoundary | include/reposource.hpp:62-76 | for an object size below Size, from a Size-aligned start exactly `MAX_HEAP_SIZE / Size` gets carve, then `_sz` is 0 and the next get returns null (for `sz == Size` see RepoSourceFindings.LastChunkStranded) |
| RepoSourceFindings.CarveOverrunsReservation | include/reposource.hpp:62-65 | as written, with Size 512 and start 32, a carve reaches 480 bytes past the end of the reservation and `_sz` wraps to 2^64 - 480 |
| RepoSourceFindings.LastChunkStranded | include/reposource.hpp:62 | as written, with Size 512 and an aligned start, `get(512)` carves only `MAX_HEAP_SIZE/512 - 1` chunks and then returns null with `_sz == 512` still free; the intended guard returns that chunk |
| RepoSourceFindings.GetIntended | include/reposource.hpp:53-100 | `get` with the guard `Size <= _sz`: a returned chunk is a carved chunk left Unattached, a null result leaves the state unchanged, and the table keeps its shape |
| RepoSourceFindings.IntendedStaysInside | include/reposource.hpp:62-71 | with the guard `Size <= _sz`, whatever the slack, chunks stay inside the reservation, `_buf + _sz` stays its end, and get is null exactly when nothing is recycled and less than a chunk is left |
| RepoSourceImpl.Chunk.constructor | include/reposource.hpp:66-68 | placement-new of a fresh header at the carved address: Unattached, object size `sz`, empty, with a null link |
| RepoSourceImpl.Chunk.Reformat | include/reposource.hpp:86 | placement-new of a header: Unattached, object size `sz`, empty; the link is untouched |
| RepoSourceImpl.Chunk.SetState | include/reposource.hpp:89 | sets the state and returns the previous one |
| RepoSourceImpl.InstanceCounter.constructor | include/reposource.hpp:30 | the static instance counter starts at 0 |
| RepoSourceImpl.RepoSource.constructor | include/reposource.hpp:24-29 | the object graph is well formed (no chunk is carved yet) and represents the initial state |
| RepoSourceImpl.RepoSource.HeapSize | include/reposource.hpp:38-40 | in a well-formed source, cursor plus `_sz` equals buffer start plus heap size while the cursor has not passed that end, and always when the usable range is a whole number of chunks |
| RepoSourceImpl.RepoSource.Get | include/reposource.hpp:53-100 | the objects end in the state `RepoSourceSpec.Get` yields; the result is null iff it returns nothing, else the chunk at its address with a null link; no other chunk's link changes |
| RepoSourceImpl.RepoSource.NothingLeft | include/reposource.hpp:72-76 | with both list heads null and `sz >= _sz`, returning null serves the request |
| RepoSourceImpl.RepoSource.GetFresh | include/reposource.hpp:58-71 | the carve branch serves the request as `RepoSourceSpec.Get` does |
| RepoSourceImpl.RepoSource.GetRecycled | include/reposource.hpp:89-99 | the requested-bucket branch serves the request as `RepoSourceSpec.Get` does, and no other chunk's link changes |
| RepoSourceImpl.RepoSource.GetReformatted | include/reposource.hpp:81-99 | the overflow branch serves the request as `RepoSourceSpec.Get` does, and no other chunk's link changes |
| RepoSourceImpl.RepoSource.ReformatHead | include/reposource.hpp:86 | the head of the overflow list gets a fresh header for `sz`; only that chunk's header changes in the abstract state |
| RepoSourceImpl.RepoSource.ReformatAndTake | include/reposource.hpp:86-92 | reformatting and unlinking the head of a list pops it from the abstract bucket with a fresh header; the head comes back with a null link and no other chunk's link changes |
| RepoSourceImpl.RepoSource.CarveChunk | include/reposource.hpp:63-66 | the new chunk is at the old cursor with a null link, the state is `Carve` of the old one, and every chunk out of the source keeps a null link |
| RepoSourceImpl.RepoSource.Bump | include/reposource.hpp:63-65 | the cursor moves by Size and `_sz` drops by Size modulo 2^64 |
| RepoSourceImpl.RepoSource.TakeHead | include/reposource.hpp:89-92 | unlinking the head and marking it Unattached is `Popped` on the abstract state; the head comes back with a null link and no other chunk's link changes |
| RepoSourceImpl.RepoSource.PopHead | include/reposource.hpp:89-92 | the head leaves its list with a null link and state Unattached, so afterwards every chunk out of the source has a null link; nothing else changes |
| RepoSourceImpl.RepoSource.Unlink | include/reposource.hpp:91-92 | the list head becomes the next chunk and the old head's link is cleared |
| RepoSourceImpl.RepoSource.SetChunkState | include/reposource.hpp:89 | the chunk's state and its recorded header change together |
| RepoSourceImpl.RepoSource.Put | include/reposource.hpp:102-123 | the objects end in the state `RepoSourceSpec.Put` yields; the source stays well formed, so every chunk out of the source still has the null link line 113 asserts |
| RepoSourceImpl.RepoSource.PushHead | include/reposource.hpp:111-121 | the chunk becomes InSource and the new head of its list; every chunk still out of the source keeps a null link; nothing else changes |
| RepoSourceImpl.RepoSource.LinkFront | include/reposource.hpp:120-121 | the chunk's link is the old head and the table slot points at the chunk |
| RepoSourceImpl.Construct | include/reposource.hpp:30-35 | the instance counter goes up by one; the result is null (abort) exactly when the counter exceeds 1, otherwise a fresh well-formed source in the initial state |

## Left out

- `MmapWrapper::map`: the reservation's start address is a parameter. The
  model assumes the reserved range lies below 2^64.
- `tprintf` diagnostics and the `assert` calls are not modelled. `isValid`
  always returns true. `getBufferStart` is the `bufferStart` field.
- `Repo<Size>` and `RepoHeader` (repo.hpp) are not part of this model. A
  header is reduced to its state, object size, emptiness flag and next link.
  Every state other than Unattached and RepoSource is modelled as Attached.
- RepoSourceImpl.Chunk.Reformat: keeps the next link through the placement
  new. `get` relies on this when it reads the link right after. This is
  modelled as an assumption about repo.hpp, which is not part of this model.
- The bucket table is a function-local static shared by every
  `RepoSource<Size>` of one `Size`. The model gives each instance its own
  table, which matches the single instance the counter allows.
- `abort()` on a second construction is modelled as `Construct` returning
  null.
- Threads and locking are not modelled. The source has no synchronisation
  of its own.
- RepoSourceImpl.RepoSource.Get: requires a legal object size, a multiple of
  16 between 16 and 512, which is the range of size classes the source
  serves. Sizes outside it are not modelled. Below 16 the index is -1.
  Sizes that are not multiples of 16 share the bucket of the class below
  them. Sizes above MAX_SIZE up to `16 * (NUM_REPOS + 2) - 1` land in an
  ordinary bucket or the overflow bucket, and only larger ones index
  `getSource` out of bounds.
- The commented-out line that sends empty chunks to the overflow bucket is
  the flag `Config.routeEmpties`. The shipped code corresponds to `false`.
  Invariant preservation and conservation are proved for both settings.
- RepoSourceProps.PutThenGet and RepoSourceProps.GetPutGet: reuse
  precedence is proved only for the shipped policy (`routeEmpties` false).
  With routing on it does not hold: RepoSourceProps.ReuseLostWhenRouting
  shows that a released chunk holding objects is passed over for the
  overflow head.
- RepoSourceImpl.RepoSource.Get: follows the carve guard as written
  (`sz < _sz`). The corrected guard is proved only in RepoSourceFindings.
- RepoSourceImpl.RepoSource.Put: requires that the chunk came from this
  source. The chunk is identified by its address in the model's record of
  carved chunks. The source trusts its caller for this.
- Members whose contracts use `old` or `fresh` (the class methods, the
  constructors, `Construct`) state their whole new state. Their meaning
  comes from the lemmas about `RepoSourceSpec.Get` and `RepoSourceSpec.Put`.

## Findings

| source | as written | input that shows it | evidently intended | confidence | as-written member | corrected member |
|---|---|---|---|---|---|---|
| include/reposource.hpp:62-65 | a chunk is carved when `sz < _sz`, then the cursor moves and `_sz` drops by a whole `Size` | `Size` 512, reservation start 32: after `MAX_HEAP_SIZE/512 - 1` calls `get(16)` the cursor is 32 bytes before the end and `_sz` is 32; the next `get(16)` carves a chunk that ends 480 bytes past the reservation, and `_sz` wraps to 2^64 - 480 | carve only while a whole chunk is left: `Size <= _sz` | not executed | RepoSourceFindings.CarveOverrunsReservation | RepoSourceFindings.IntendedStaysInside |
| include/reposource.hpp:62 | a chunk is carved only when `sz < _sz` | `Size` 512, Size-aligned start: `MAX_HEAP_SIZE/512 - 1` calls `get(512)` carve, leaving `_sz == 512`; the next `get(512)` returns null although a whole chunk is free | carve while a whole chunk is left: `Size <= _sz` | not executed | RepoSourceFindings.LastChunkStranded | RepoSourceFindings.IntendedStaysInside |
