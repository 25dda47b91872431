/**
 * The carve guard of `get`. The code carves a fresh chunk whenever the object
 * size is below `_sz`, yet moves the cursor and lowers `_sz` by a whole chunk.
 * When the reservation's start is not Size-aligned, the usable range is not a
 * whole number of chunks, the last carve runs past the end of the reservation
 * and `_sz` wraps around to nearly 2^64. Conversely, a request for a whole
 * chunk's worth (`sz == Size`) is refused while exactly one chunk is left,
 * so the last chunk is stranded. The guard that was evidently meant asks for
 * a whole chunk to be left.
 */
module RepoSourceFindings {
  import opened Arena
  import opened RepoSourceSpec
  import opened RepoSourceProps

  /** `get(sz)` with the carve guard `Size <= _sz`; every other branch as in `Get`. */
  function GetIntended(cfg: Config, s: Source, sz: nat): (o: Outcome)
    requires Shape(cfg, s) && LegalSize(sz)
    ensures Shape(cfg, o.after) && o.after.start == s.start
    ensures o.chunk.Some? ==> o.chunk.value in o.after.chunks && o.after.chunks[o.chunk.value].state == Unattached
    ensures o.chunk.None? ==> o.after == s
  {
    IndexInTable(sz, cfg.size);
    if s.buckets[GetIndex(sz)] == [] && s.buckets[NumRepos(cfg.size)] == [] then
      if cfg.size <= s.remaining then Outcome(Carve(cfg, s, sz), Some(s.buf)) else Outcome(s, None)
    else
      Get(cfg, s, sz)
  }

  /**
   * With the intended guard, whatever the alignment slack: the invariant is
   * kept, `_buf + _sz` stays the end of the reservation, every carved chunk
   * lies inside it, and `get` returns null exactly when nothing is recycled
   * for the size and less than a whole chunk is left.
   */
  lemma IntendedStaysInside(cfg: Config, s: Source, sz: nat)
    requires Inv(cfg, s) && s.buf <= End(s) && LegalSize(sz)
    ensures var o := GetIntended(cfg, s, sz);
      && Inv(cfg, o.after)
      && o.after.buf + o.after.remaining == End(s)
      && (forall a :: a in o.after.chunks ==> Base(cfg, s) <= a && a + cfg.size <= End(s))
      && (o.chunk.None? <==>
            s.buckets[GetIndex(sz)] == [] && s.buckets[NumRepos(cfg.size)] == [] && s.remaining < cfg.size)
  {
    IndexInTable(sz, cfg.size);
    RemainingIsGap(cfg, s);
    var o := GetIntended(cfg, s, sz);
    if s.buckets[GetIndex(sz)] == [] && s.buckets[NumRepos(cfg.size)] == [] {
      if cfg.size <= s.remaining {
        IntendedCarve(cfg, s, sz);
      }
    } else {
      GetKeepsInv(cfg, s, sz);
      assert o.after.buf == s.buf && o.after.remaining == s.remaining;
    }
  }

  /** The intended carve: the chunk fits, so `_sz` does not wrap. */
  lemma IntendedCarve(cfg: Config, s: Source, sz: nat)
    requires Inv(cfg, s) && LegalSize(sz) && s.buf + s.remaining == End(s) && cfg.size <= s.remaining
    ensures var t := Carve(cfg, s, sz);
      && Inv(cfg, t)
      && t.buf + t.remaining == End(s)
      && t.buf <= End(s)
  {
    var t := Carve(cfg, s, sz);
    CarveKeepsCarved(cfg, s, sz);
    CarveKeepsBuckets(cfg, s, sz);
    var r := s.remaining - cfg.size;
    ModUniqueInt(r, WORD, 0, r);
    assert t.remaining == r;
    assert Counter(cfg, t);
  }

  /**
   * The code as written, on Size = 512 with a reservation that starts at
   * address 32: after MAX_HEAP_SIZE / 512 - 1 carves of 16-byte chunks the
   * cursor is 32 bytes short of the end and `_sz` is 32, so the next
   * `get(16)` still carves; that chunk reaches 480 bytes past the end and
   * `_sz` wraps to 2^64 - 480. The intended guard refuses the same call.
   */
  lemma CarveOverrunsReservation()
    ensures var cfg := Config(512, false);
      var s := Init(cfg, 32);
      var t := GetRun(cfg, s, 16, MAX_HEAP_SIZE / 512 - 1);
      var o := Get(cfg, t, 16);
      && t.buf == MAX_HEAP_SIZE && t.remaining == 32
      && o.chunk == Some(MAX_HEAP_SIZE)
      && MAX_HEAP_SIZE + 512 == End(o.after) + 480
      && o.after.remaining == WORD - 480
      && GetIntended(cfg, t, 16).chunk == None
  {
    var cfg := Config(512, false);
    Pow2Of512();
    var s := Init(cfg, 32);
    InitSound(cfg, 32);
    ModUniqueInt(543, WORD, 0, 543);
    ClearLowRoundsDown(543, 512);
    assert s.buf == 512 && s.remaining == MAX_HEAP_SIZE - 480;
    var k := MAX_HEAP_SIZE / 512 - 1;
    assert k == 6291455;
    IndexInTable(16, 512);
    CarveRun(cfg, s, 16, k);
    var t := GetRun(cfg, s, 16, k);
    ModUniqueInt(32, WORD, 0, 32);
    assert t.buf == MAX_HEAP_SIZE && t.remaining == 32;
    ModUniqueInt(32 - 512, WORD, -1, WORD - 480);
  }

  /**
   * The code as written, on Size = MAX_SIZE = 512 with a Size-aligned start:
   * `get(512)` carves only MAX_HEAP_SIZE / 512 - 1 chunks. After them the
   * cursor is one chunk short of the end and `_sz` is exactly 512, a whole
   * free chunk, yet `512 < _sz` fails and `get` returns null. The intended
   * guard hands out that last chunk.
   */
  lemma LastChunkStranded(cfg: Config, start: nat)
    requires ValidConfig(cfg) && cfg.size == MAX_SIZE
    requires start + MAX_HEAP_SIZE <= WORD && start % cfg.size == 0
    ensures var s := Init(cfg, start);
      var k := MAX_HEAP_SIZE / cfg.size - 1;
      var t := GetRun(cfg, s, MAX_SIZE, k);
      && |t.chunks| == k
      && t.buf + cfg.size == End(t)
      && t.remaining == cfg.size
      && Get(cfg, t, MAX_SIZE) == Outcome(t, None)
      && GetIntended(cfg, t, MAX_SIZE).chunk == Some(t.buf)
  {
    var size := cfg.size;
    var s := Init(cfg, start);
    InitSound(cfg, start);
    AlignAligned(start, size);
    assert s.remaining == MAX_HEAP_SIZE;
    var k := MAX_HEAP_SIZE / size - 1;
    assert k == 6291455;
    IndexInTable(MAX_SIZE, size);
    CarveRun(cfg, s, MAX_SIZE, k);
    GetRunKeepsInv(cfg, s, MAX_SIZE, k);
    var t := GetRun(cfg, s, MAX_SIZE, k);
    assert t.buf == start + MAX_HEAP_SIZE - 512;
    ModUniqueInt(512, WORD, 0, 512);
    assert t.remaining == 512;
    assert Carved(cfg, t);
    assert Base(cfg, t) == start;
    assert |t.chunks| * size == k * size;
    MulCancel(|t.chunks|, k, size);
  }

  lemma Pow2Of512()
    ensures ValidConfig(Config(512, false))
  {
    assert IsPow2(2) && IsPow2(4) && IsPow2(8) && IsPow2(16);
    assert IsPow2(32) && IsPow2(64) && IsPow2(128) && IsPow2(256);
  }
}
