/**
 * The chunk source as a state machine on values: the reservation cursor, the
 * remaining byte counter (a 64-bit `size_t`), the free-list buckets as
 * sequences of chunk addresses and what each carved chunk's header holds.
 * `Get` and `Put` follow `RepoSource<Size>::get` and `::put` branch by branch;
 * the class in module RepoSourceImpl is proved to act on its linked lists
 * exactly as these functions act on this state.
 */
module RepoSourceSpec {
  import opened Arena

  datatype Option<T> = None | Some(value: T)

  /** RepoHeader::RepoState as this layer sees it: Attached stands for every state other than the two named. */
  datatype RepoState = Unattached | InSource | Attached

  /** The part of a chunk's header this layer reads and writes. */
  datatype ChunkInfo = ChunkInfo(state: RepoState, objSize: nat, empty: bool)

  /**
   * `start` is `_bufferStart`, `buf` the bump cursor `_buf`, `remaining` the
   * counter `_sz`; `buckets[i]` lists the addresses linked from `getSource(i)`,
   * head first; `chunks` maps the address of every chunk carved so far to its header.
   */
  datatype Source = Source(start: nat, buf: nat, remaining: nat, buckets: seq<seq<nat>>, chunks: map<nat, ChunkInfo>)

  /** What `get` leaves behind and what it returns (None for the null pointer). */
  datatype Outcome = Outcome(after: Source, chunk: Option<nat>)

  /** The aligned start of the usable part of the reservation. */
  function Base(cfg: Config, s: Source): nat
    requires cfg.size >= 1
  {
    Align(s.start, cfg.size)
  }

  /** One past the last reserved byte. */
  function End(s: Source): nat
  {
    s.start + MAX_HEAP_SIZE
  }

  /** What `get` and `put` need to be well defined: the bucket table has its size, linked chunks are carved ones. */
  predicate Shape(cfg: Config, s: Source)
  {
    && ValidConfig(cfg)
    && |s.buckets| == NumRepos(cfg.size) + 1
    && (forall i, j :: 0 <= i < |s.buckets| && 0 <= j < |s.buckets[i]| ==> s.buckets[i][j] in s.chunks)
    && (forall a :: a in s.chunks ==> LegalSize(s.chunks[a].objSize))
  }

  /**
   * The constructor: `_buf` is the aligned start and `_sz` the capacity less
   * the alignment slack; every bucket is null. `start` is whatever the OS
   * reservation returned; the reserved range lies inside the address space.
   */
  function Init(cfg: Config, start: nat): (s: Source)
    requires ValidConfig(cfg) && start + MAX_HEAP_SIZE <= WORD
    ensures Inv(cfg, s)
  {
    AlignRoundsUp(start, cfg.size);
    var base := Align(start, cfg.size);
    var s := Source(start, base, MAX_HEAP_SIZE - (base - start), seq(NumRepos(cfg.size) + 1, _ => []), map[]);
    InitInv(cfg, s);
    s
  }

  /** A state with the aligned cursor, the full counter, no chunks and every bucket null satisfies the invariant. */
  lemma InitInv(cfg: Config, s: Source)
    requires ValidConfig(cfg) && End(s) <= WORD
    requires s.start <= s.buf == Align(s.start, cfg.size) < s.start + cfg.size && s.buf % cfg.size == 0
    requires s.remaining == End(s) - s.buf && s.chunks == map[]
    requires |s.buckets| == NumRepos(cfg.size) + 1 && forall i :: 0 <= i < |s.buckets| ==> s.buckets[i] == []
    ensures Inv(cfg, s)
  {
    ModUniqueInt(s.remaining, WORD, 0, s.remaining);
    assert Carved(cfg, s);
    assert Counter(cfg, s);
  }

  /** `get(sz)`. */
  function Get(cfg: Config, s: Source, sz: nat): (o: Outcome)
    requires Shape(cfg, s) && LegalSize(sz)
    ensures Shape(cfg, o.after)
    ensures o.after.start == s.start
    ensures o.chunk.Some? ==> o.chunk.value in o.after.chunks && o.after.chunks[o.chunk.value].state == Unattached
  {
    IndexInTable(sz, cfg.size);
    var index := GetIndex(sz);
    var n := NumRepos(cfg.size);
    if s.buckets[index] == [] && s.buckets[n] == [] then
      // Nothing recycled for this size and no empties: carve a fresh chunk.
      if sz < s.remaining then
        Outcome(Carve(cfg, s, sz), Some(s.buf))
      else
        Outcome(s, None)
    else
      var requested := s.buckets[index];
      if requested == [] || (!s.chunks[requested[0]].empty && s.buckets[n] != []) then
        // Reformat the head of the overflow bucket for `sz`; its link is kept.
        var addr := s.buckets[n][0];
        Outcome(s.(buckets := s.buckets[n := s.buckets[n][1..]],
                   chunks := s.chunks[addr := ChunkInfo(Unattached, sz, true)]),
                Some(addr))
      else
        var addr := requested[0];
        Outcome(s.(buckets := s.buckets[index := requested[1..]],
                   chunks := s.chunks[addr := s.chunks[addr].(state := Unattached)]),
                Some(addr))
  }

  /**
   * The bump step of `get`: a fresh header for `sz` at the cursor, the cursor
   * moves on by Size and `_sz` drops by Size as a 64-bit unsigned integer.
   */
  function Carve(cfg: Config, s: Source, sz: nat): (s': Source)
    ensures s'.remaining < WORD && s'.buf == s.buf + cfg.size
  {
    s.(buf := s.buf + cfg.size,
       remaining := (s.remaining - cfg.size) % WORD,
       chunks := s.chunks[s.buf := ChunkInfo(Unattached, sz, true)])
  }

  /** `put(repo)` for the chunk at `addr`. */
  function Put(cfg: Config, s: Source, addr: nat): (s': Source)
    requires Shape(cfg, s) && addr in s.chunks
    ensures Shape(cfg, s') && s'.start == s.start && s'.buf == s.buf && s'.remaining == s.remaining
    ensures s'.chunks.Keys == s.chunks.Keys && s'.chunks[addr].state == InSource
  {
    var c := s.chunks[addr];
    if c.state == InSource then
      s
    else
      IndexInTable(c.objSize, cfg.size);
      var index := if cfg.routeEmpties && c.empty then NumRepos(cfg.size) else GetIndex(c.objSize);
      s.(buckets := s.buckets[index := [addr] + s.buckets[index]],
         chunks := s.chunks[addr := c.(state := InSource)])
  }

  // ---------------------------------------------------------------------------
  // The invariant

  predicate NoDup(q: seq<nat>)
  {
    forall j, k :: 0 <= j < k < |q| ==> q[j] != q[k]
  }

  predicate Disjoint(p: seq<nat>, q: seq<nat>)
  {
    forall a :: a in p ==> a !in q
  }

  ghost predicate InSomeBucket(s: Source, a: nat)
  {
    exists i :: 0 <= i < |s.buckets| && a in s.buckets[i]
  }

  /** A chunk linked into bucket `i` is marked InSource and belongs there. */
  predicate Resident(cfg: Config, s: Source, i: nat, a: nat)
  {
    && a in s.chunks
    && s.chunks[a].state == InSource
    && if i == NumRepos(cfg.size) then cfg.routeEmpties && s.chunks[a].empty
       else s.chunks[a].objSize == (i + 1) * MULTIPLE
  }

  /** Every carved chunk is a Size-aligned slice of [base, buf), one per carve. */
  ghost predicate Carved(cfg: Config, s: Source)
    requires cfg.size >= 1
  {
    var base := Base(cfg, s);
    && base <= s.buf
    && s.buf % cfg.size == 0
    && |s.chunks| * cfg.size == s.buf - base
    && forall a :: a in s.chunks ==> base <= a && a + cfg.size <= s.buf && a % cfg.size == 0
  }

  /**
   * `_sz` is the distance from the cursor to the end of the reservation,
   * modulo 2^64; when the usable range is a whole number of chunks the
   * cursor never passes the end.
   */
  ghost predicate Counter(cfg: Config, s: Source)
    requires cfg.size >= 1
  {
    && s.remaining < WORD
    && s.remaining == (End(s) - s.buf) % WORD
    && ((End(s) - Base(cfg, s)) % cfg.size == 0 ==> s.buf <= End(s))
  }

  /** Free lists: residents are well placed, no chunk is linked twice, InSource means linked. */
  ghost predicate Buckets(cfg: Config, s: Source)
  {
    && (forall i, j :: 0 <= i < |s.buckets| && 0 <= j < |s.buckets[i]| ==> Resident(cfg, s, i, s.buckets[i][j]))
    && (forall i :: 0 <= i < |s.buckets| ==> NoDup(s.buckets[i]))
    && (forall i, k :: 0 <= i < k < |s.buckets| ==> Disjoint(s.buckets[i], s.buckets[k]))
    && (forall a :: a in s.chunks && s.chunks[a].state == InSource ==> InSomeBucket(s, a))
  }

  ghost predicate Inv(cfg: Config, s: Source)
  {
    && Shape(cfg, s)
    && End(s) <= WORD
    && Carved(cfg, s)
    && Counter(cfg, s)
    && Buckets(cfg, s)
  }
}
