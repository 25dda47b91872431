/**
 * What `RepoSource<Size>` promises, proved on the state machine of module
 * RepoSourceSpec: the invariant holds from construction on and every `get`
 * and `put` keeps it; what each branch of `get` returns; conservation of the
 * reservation's bytes; the round trips between `put` and `get`.
 */
module RepoSourceProps {
  import opened Arena
  import opened RepoSourceSpec

  // ---------------------------------------------------------------------------
  // Construction

  /**
   * After construction the cursor is the aligned start, cursor plus remaining
   * bytes is the end of the reservation, nothing is carved and every bucket is empty.
   */
  lemma InitSound(cfg: Config, start: nat)
    requires ValidConfig(cfg) && start + MAX_HEAP_SIZE <= WORD
    ensures var s := Init(cfg, start);
      && Inv(cfg, s)
      && s.buf == Align(start, cfg.size) && s.buf % cfg.size == 0
      && start <= s.buf < start + cfg.size
      && s.buf + s.remaining == start + MAX_HEAP_SIZE
      && s.chunks == map[]
      && forall i :: 0 <= i < |s.buckets| ==> s.buckets[i] == []
  {
    var s := Init(cfg, start);
    AlignRoundsUp(start, cfg.size);
  }

  // ---------------------------------------------------------------------------
  // get: one lemma per branch

  /**
   * Carve: with the requested and the overflow bucket both empty and
   * `sz < _sz`, `get` returns the old cursor, which is Size-aligned and the
   * address of no chunk carved before; the cursor advances by Size and `_sz`
   * drops by Size modulo 2^64; no bucket changes.
   */
  lemma GetCarve(cfg: Config, s: Source, sz: nat)
    requires Inv(cfg, s) && LegalSize(sz)
    requires s.buckets[GetIndex(sz)] == [] && s.buckets[NumRepos(cfg.size)] == []
    requires sz < s.remaining
    ensures var o := Get(cfg, s, sz);
      && o.chunk == Some(s.buf)
      && s.buf !in s.chunks && s.buf % cfg.size == 0
      && o.after.buf == s.buf + cfg.size
      && o.after.remaining == (s.remaining - cfg.size) % WORD
      && o.after.buckets == s.buckets
      && o.after.chunks == s.chunks[s.buf := ChunkInfo(Unattached, sz, true)]
      && Inv(cfg, o.after)
  {
    var t := Get(cfg, s, sz).after;
    CarveKeepsCarved(cfg, s, sz);
    CarveKeepsCounter(cfg, s, sz);
    CarveKeepsBuckets(cfg, s, sz);
  }

  lemma CarveKeepsCarved(cfg: Config, s: Source, sz: nat)
    requires Inv(cfg, s) && LegalSize(sz)
    ensures s.buf !in s.chunks
    ensures Carved(cfg, Carve(cfg, s, sz))
  {
    var t := Carve(cfg, s, sz);
    var base, size, n := Base(cfg, s), cfg.size, |s.chunks|;
    assert t.chunks == s.chunks[s.buf := ChunkInfo(Unattached, sz, true)] && t.buf == s.buf + size;
    assert Base(cfg, t) == base;
    assert |t.chunks| == n + 1;
    NextMultiple(s.buf, size, n);
  }

  lemma CarveKeepsCounter(cfg: Config, s: Source, sz: nat)
    requires Inv(cfg, s) && LegalSize(sz)
    requires s.buckets[GetIndex(sz)] == [] && s.buckets[NumRepos(cfg.size)] == []
    requires sz < s.remaining
    ensures Counter(cfg, Get(cfg, s, sz).after)
  {
    IndexInTable(sz, cfg.size);
    assert Get(cfg, s, sz).after == Carve(cfg, s, sz);
    if (End(s) - Base(cfg, s)) % cfg.size == 0 {
      CarveStaysInside(cfg, s, sz);
    }
    CarveCounter(cfg, s, sz);
  }

  /** The counter part of a carve, from the counter facts alone. */
  lemma CarveCounter(cfg: Config, s: Source, sz: nat)
    requires cfg.size >= 1 && Counter(cfg, s)
    requires (End(s) - Base(cfg, s)) % cfg.size == 0 ==> s.buf + cfg.size <= End(s)
    ensures Counter(cfg, Carve(cfg, s, sz))
  {
    var t := Carve(cfg, s, sz);
    assert End(t) == End(s) && Base(cfg, t) == Base(cfg, s) && t.buf == s.buf + cfg.size;
    ModSub(End(s) - s.buf, cfg.size, WORD);
  }

  lemma CarveKeepsBuckets(cfg: Config, s: Source, sz: nat)
    requires Inv(cfg, s) && LegalSize(sz)
    ensures Buckets(cfg, Carve(cfg, s, sz))
  {
    CarveKeepsCarved(cfg, s, sz);
    var t := Carve(cfg, s, sz);
    forall i, j | 0 <= i < |t.buckets| && 0 <= j < |t.buckets[i]|
      ensures Resident(cfg, t, i, t.buckets[i][j])
    {
      assert Resident(cfg, s, i, s.buckets[i][j]);
    }
    forall a | a in t.chunks && t.chunks[a].state == InSource
      ensures InSomeBucket(t, a)
    {
      assert InSomeBucket(s, a);
    }
  }

  /**
   * When the usable range is a whole number of chunks, the guard `sz < _sz`
   * lets a carve happen only while a whole chunk is left.
   */
  lemma CarveStaysInside(cfg: Config, s: Source, sz: nat)
    requires Inv(cfg, s) && LegalSize(sz) && sz < s.remaining
    requires (End(s) - Base(cfg, s)) % cfg.size == 0
    ensures s.buf + cfg.size <= End(s)
  {
    RemainingIsGap(cfg, s);
    MultiplesApart(End(s) - Base(cfg, s), s.buf - Base(cfg, s), cfg.size, |s.chunks|);
  }

  // ---------------------------------------------------------------------------
  // Unlinking the head of a bucket and linking a chunk in front of one

  /** The state after unlinking the head of bucket `i` and rewriting its header to `info`. */
  function Popped(s: Source, i: nat, info: ChunkInfo): Source
    requires i < |s.buckets| && s.buckets[i] != []
  {
    s.(buckets := s.buckets[i := s.buckets[i][1..]], chunks := s.chunks[s.buckets[i][0] := info])
  }

  /**
   * Popping the head of bucket `i` and giving it a header that is not
   * InSource keeps the invariant, and the popped chunk is then in no bucket.
   */
  lemma PopKeepsInv(cfg: Config, s: Source, i: nat, info: ChunkInfo)
    requires Inv(cfg, s) && i < |s.buckets| && s.buckets[i] != []
    requires info.state != InSource && LegalSize(info.objSize)
    ensures Inv(cfg, Popped(s, i, info)) && !InSomeBucket(Popped(s, i, info), s.buckets[i][0])
  {
    PopLayout(cfg, s, i, info);
    PopResidents(cfg, s, i, info);
    PopLinks(cfg, s, i, info);
    PopInSomeBucket(cfg, s, i, info);
    PopUnlinks(cfg, s, i, info);
  }

  lemma PopLayout(cfg: Config, s: Source, i: nat, info: ChunkInfo)
    requires Inv(cfg, s) && i < |s.buckets| && s.buckets[i] != [] && LegalSize(info.objSize)
    ensures var t := Popped(s, i, info);
      Shape(cfg, t) && End(t) <= WORD && Carved(cfg, t) && Counter(cfg, t)
  {
    var t := Popped(s, i, info);
    assert t.chunks.Keys == s.chunks.Keys;
  }

  /** The head of bucket `i` is linked nowhere else. */
  lemma HeadOnlyOnce(cfg: Config, s: Source, i: nat)
    requires Inv(cfg, s) && i < |s.buckets| && s.buckets[i] != []
    ensures forall k, j :: 0 <= k < |s.buckets| && 0 <= j < |s.buckets[k]| && (k, j) != (i, 0) ==>
      s.buckets[k][j] != s.buckets[i][0]
  {
    var a := s.buckets[i][0];
    forall k, j | 0 <= k < |s.buckets| && 0 <= j < |s.buckets[k]| && (k, j) != (i, 0)
      ensures s.buckets[k][j] != a
    {
      if k < i {
        assert Disjoint(s.buckets[k], s.buckets[i]);
      } else if k > i {
        assert Disjoint(s.buckets[i], s.buckets[k]);
      } else {
        assert NoDup(s.buckets[i]);
      }
    }
  }

  lemma PopResidents(cfg: Config, s: Source, i: nat, info: ChunkInfo)
    requires Inv(cfg, s) && i < |s.buckets| && s.buckets[i] != []
    ensures var t := Popped(s, i, info);
      forall k, j :: 0 <= k < |t.buckets| && 0 <= j < |t.buckets[k]| ==> Resident(cfg, t, k, t.buckets[k][j])
  {
    var t := Popped(s, i, info);
    HeadOnlyOnce(cfg, s, i);
    forall k, j | 0 <= k < |t.buckets| && 0 <= j < |t.buckets[k]|
      ensures Resident(cfg, t, k, t.buckets[k][j])
    {
      if k == i {
        assert t.buckets[k][j] == s.buckets[i][j + 1];
        assert Resident(cfg, s, k, s.buckets[k][j + 1]);
      } else {
        assert Resident(cfg, s, k, s.buckets[k][j]);
      }
    }
  }

  lemma PopLinks(cfg: Config, s: Source, i: nat, info: ChunkInfo)
    requires Inv(cfg, s) && i < |s.buckets| && s.buckets[i] != []
    ensures var t := Popped(s, i, info);
      && (forall k :: 0 <= k < |t.buckets| ==> NoDup(t.buckets[k]))
      && (forall k, k' :: 0 <= k < k' < |t.buckets| ==> Disjoint(t.buckets[k], t.buckets[k']))
  {
    var t := Popped(s, i, info);
    forall k | 0 <= k < |t.buckets| ensures NoDup(t.buckets[k])
    {
      assert NoDup(s.buckets[k]);
    }
    forall k, k' | 0 <= k < k' < |t.buckets| ensures Disjoint(t.buckets[k], t.buckets[k'])
    {
      assert Disjoint(s.buckets[k], s.buckets[k']);
    }
  }

  lemma PopInSomeBucket(cfg: Config, s: Source, i: nat, info: ChunkInfo)
    requires Inv(cfg, s) && i < |s.buckets| && s.buckets[i] != [] && info.state != InSource
    ensures var t := Popped(s, i, info);
      forall x :: x in t.chunks && t.chunks[x].state == InSource ==> InSomeBucket(t, x)
  {
    var t := Popped(s, i, info);
    forall x | x in t.chunks && t.chunks[x].state == InSource
      ensures InSomeBucket(t, x)
    {
      assert InSomeBucket(s, x);
      var k :| 0 <= k < |s.buckets| && x in s.buckets[k];
      if k == i {
        var j :| 0 <= j < |s.buckets[i]| && s.buckets[i][j] == x;
        assert t.buckets[i][j - 1] == x;
      }
      assert x in t.buckets[k];
    }
  }

  lemma PopUnlinks(cfg: Config, s: Source, i: nat, info: ChunkInfo)
    requires Inv(cfg, s) && i < |s.buckets| && s.buckets[i] != []
    ensures !InSomeBucket(Popped(s, i, info), s.buckets[i][0])
  {
    var t := Popped(s, i, info);
    var a := s.buckets[i][0];
    HeadOnlyOnce(cfg, s, i);
  }

  /** The state after marking the chunk at `a` InSource and linking it in front of bucket `i`. */
  function Pushed(s: Source, i: nat, a: nat): Source
    requires i < |s.buckets| && a in s.chunks
  {
    s.(buckets := s.buckets[i := [a] + s.buckets[i]], chunks := s.chunks[a := s.chunks[a].(state := InSource)])
  }

  /** A chunk whose header is not InSource is linked into no bucket. */
  lemma NotLinked(cfg: Config, s: Source, a: nat)
    requires Inv(cfg, s) && a in s.chunks && s.chunks[a].state != InSource
    ensures forall k :: 0 <= k < |s.buckets| ==> a !in s.buckets[k]
  {
  }

  /**
   * Linking a chunk that is in no bucket in front of a bucket it belongs to
   * keeps the invariant.
   */
  lemma PushKeepsInv(cfg: Config, s: Source, i: nat, a: nat)
    requires Inv(cfg, s) && i < |s.buckets| && a in s.chunks && s.chunks[a].state != InSource
    requires if i == NumRepos(cfg.size) then cfg.routeEmpties && s.chunks[a].empty
             else s.chunks[a].objSize == (i + 1) * MULTIPLE
    ensures Inv(cfg, Pushed(s, i, a))
  {
    NotLinked(cfg, s, a);
    PushLayout(cfg, s, i, a);
    PushResidents(cfg, s, i, a);
    PushLinks(cfg, s, i, a);
    PushInSomeBucket(cfg, s, i, a);
  }

  lemma PushLayout(cfg: Config, s: Source, i: nat, a: nat)
    requires Inv(cfg, s) && i < |s.buckets| && a in s.chunks
    ensures var t := Pushed(s, i, a);
      Shape(cfg, t) && End(t) <= WORD && Carved(cfg, t) && Counter(cfg, t)
  {
    var t := Pushed(s, i, a);
    assert t.chunks.Keys == s.chunks.Keys;
  }

  lemma PushResidents(cfg: Config, s: Source, i: nat, a: nat)
    requires Inv(cfg, s) && i < |s.buckets| && a in s.chunks
    requires forall k :: 0 <= k < |s.buckets| ==> a !in s.buckets[k]
    requires if i == NumRepos(cfg.size) then cfg.routeEmpties && s.chunks[a].empty
             else s.chunks[a].objSize == (i + 1) * MULTIPLE
    ensures var t := Pushed(s, i, a);
      forall k, j :: 0 <= k < |t.buckets| && 0 <= j < |t.buckets[k]| ==> Resident(cfg, t, k, t.buckets[k][j])
  {
    var t := Pushed(s, i, a);
    forall k, j | 0 <= k < |t.buckets| && 0 <= j < |t.buckets[k]|
      ensures Resident(cfg, t, k, t.buckets[k][j])
    {
      if k == i && j == 0 {
      } else if k == i {
        assert t.buckets[k][j] == s.buckets[i][j - 1];
        assert Resident(cfg, s, k, s.buckets[k][j - 1]);
      } else {
        assert Resident(cfg, s, k, s.buckets[k][j]);
      }
    }
  }

  lemma PushLinks(cfg: Config, s: Source, i: nat, a: nat)
    requires Inv(cfg, s) && i < |s.buckets| && a in s.chunks
    requires forall k :: 0 <= k < |s.buckets| ==> a !in s.buckets[k]
    ensures var t := Pushed(s, i, a);
      && (forall k :: 0 <= k < |t.buckets| ==> NoDup(t.buckets[k]))
      && (forall k, k' :: 0 <= k < k' < |t.buckets| ==> Disjoint(t.buckets[k], t.buckets[k']))
  {
    var t := Pushed(s, i, a);
    forall k | 0 <= k < |t.buckets| ensures NoDup(t.buckets[k])
    {
      assert NoDup(s.buckets[k]);
    }
    forall k, k' | 0 <= k < k' < |t.buckets| ensures Disjoint(t.buckets[k], t.buckets[k'])
    {
      assert Disjoint(s.buckets[k], s.buckets[k']);
    }
  }

  lemma PushInSomeBucket(cfg: Config, s: Source, i: nat, a: nat)
    requires Inv(cfg, s) && i < |s.buckets| && a in s.chunks
    ensures var t := Pushed(s, i, a);
      forall x :: x in t.chunks && t.chunks[x].state == InSource ==> InSomeBucket(t, x)
  {
    var t := Pushed(s, i, a);
    forall x | x in t.chunks && t.chunks[x].state == InSource
      ensures InSomeBucket(t, x)
    {
      if x == a {
        assert a in t.buckets[i];
      } else {
        assert InSomeBucket(s, x);
        var k :| 0 <= k < |s.buckets| && x in s.buckets[k];
        assert x in t.buckets[k];
      }
    }
  }

  // ---------------------------------------------------------------------------
  // get and put keep the invariant

  /**
   * Pop: when the requested bucket is non-empty and either its head is empty
   * or the overflow bucket is null, `get` unlinks that head and returns it,
   * unattached, formatted for `sz`; `_buf`, `_sz` and the other buckets
   * stay as they were.
   */
  lemma GetPopsRequested(cfg: Config, s: Source, sz: nat)
    requires Inv(cfg, s) && LegalSize(sz)
    requires var q := s.buckets[GetIndex(sz)];
      q != [] && (s.chunks[q[0]].empty || s.buckets[NumRepos(cfg.size)] == [])
    ensures var q := s.buckets[GetIndex(sz)];
      var o := Get(cfg, s, sz);
      && o.chunk == Some(q[0])
      && o.after == Popped(s, GetIndex(sz), s.chunks[q[0]].(state := Unattached))
      && o.after.chunks[q[0]] == ChunkInfo(Unattached, sz, s.chunks[q[0]].empty)
      && !InSomeBucket(o.after, q[0])
      && Inv(cfg, o.after)
  {
    var i := GetIndex(sz);
    IndexInTable(sz, cfg.size);
    var a := s.buckets[i][0];
    assert Resident(cfg, s, i, s.buckets[i][0]);
    PopKeepsInv(cfg, s, i, s.chunks[a].(state := Unattached));
  }

  /**
   * Reformat: when the overflow bucket is non-null and the requested bucket
   * is null or its head is not empty, `get` unlinks the overflow head and
   * returns it reformatted for `sz`, even if the requested bucket holds chunks.
   */
  lemma GetReformatsOverflow(cfg: Config, s: Source, sz: nat)
    requires Inv(cfg, s) && LegalSize(sz)
    requires var q := s.buckets[GetIndex(sz)];
      s.buckets[NumRepos(cfg.size)] != [] && (q == [] || !s.chunks[q[0]].empty)
    ensures var n := NumRepos(cfg.size);
      var o := Get(cfg, s, sz);
      && o.chunk == Some(s.buckets[n][0])
      && o.after == Popped(s, n, ChunkInfo(Unattached, sz, true))
      && !InSomeBucket(o.after, s.buckets[n][0])
      && Inv(cfg, o.after)
  {
    PopKeepsInv(cfg, s, NumRepos(cfg.size), ChunkInfo(Unattached, sz, true));
  }

  /**
   * Exhaustion: with the requested and the overflow bucket empty and
   * `sz >= _sz`, `get` returns null and changes nothing.
   */
  lemma GetExhausted(cfg: Config, s: Source, sz: nat)
    requires Shape(cfg, s) && LegalSize(sz)
    requires s.buckets[GetIndex(sz)] == [] && s.buckets[NumRepos(cfg.size)] == []
    requires sz >= s.remaining
    ensures Get(cfg, s, sz) == Outcome(s, None)
  {
  }

  /** Every `get` keeps the invariant. */
  lemma GetKeepsInv(cfg: Config, s: Source, sz: nat)
    requires Inv(cfg, s) && LegalSize(sz)
    ensures Inv(cfg, Get(cfg, s, sz).after)
  {
    IndexInTable(sz, cfg.size);
    var i, n := GetIndex(sz), NumRepos(cfg.size);
    if s.buckets[i] == [] && s.buckets[n] == [] {
      if sz < s.remaining {
        GetCarve(cfg, s, sz);
      }
    } else if s.buckets[i] == [] || (!s.chunks[s.buckets[i][0]].empty && s.buckets[n] != []) {
      GetReformatsOverflow(cfg, s, sz);
    } else {
      GetPopsRequested(cfg, s, sz);
    }
  }

  /**
   * Size fidelity: whatever `get(sz)` returns is formatted for `sz`,
   * unattached and linked into no bucket.
   */
  lemma GetSizeFidelity(cfg: Config, s: Source, sz: nat)
    requires Inv(cfg, s) && LegalSize(sz)
    ensures var o := Get(cfg, s, sz);
      o.chunk.Some? ==>
        && o.after.chunks[o.chunk.value].objSize == sz
        && o.after.chunks[o.chunk.value].state == Unattached
        && !InSomeBucket(o.after, o.chunk.value)
  {
    IndexInTable(sz, cfg.size);
    var i, n := GetIndex(sz), NumRepos(cfg.size);
    if s.buckets[i] == [] && s.buckets[n] == [] {
      if sz < s.remaining {
        GetCarve(cfg, s, sz);
        var t := Get(cfg, s, sz).after;
        assert forall k :: 0 <= k < |t.buckets| ==> s.buf !in t.buckets[k];
      }
    } else if s.buckets[i] == [] || (!s.chunks[s.buckets[i][0]].empty && s.buckets[n] != []) {
      GetReformatsOverflow(cfg, s, sz);
    } else {
      GetPopsRequested(cfg, s, sz);
    }
  }

  /** Every `put` keeps the invariant. */
  lemma PutKeepsInv(cfg: Config, s: Source, a: nat)
    requires Inv(cfg, s) && a in s.chunks
    ensures Inv(cfg, Put(cfg, s, a))
  {
    var c := s.chunks[a];
    if c.state != InSource {
      IndexInTable(c.objSize, cfg.size);
      var i := if cfg.routeEmpties && c.empty then NumRepos(cfg.size) else GetIndex(c.objSize);
      assert Put(cfg, s, a) == Pushed(s, i, a);
      PushKeepsInv(cfg, s, i, a);
    }
  }

  /**
   * `put` on a chunk not yet in a free list marks it InSource and links it in
   * front of the bucket of its object size (the overflow bucket only when the
   * dormant policy is on and the chunk is empty); nothing else changes.
   */
  lemma PutLinks(cfg: Config, s: Source, a: nat)
    requires Inv(cfg, s) && a in s.chunks && s.chunks[a].state != InSource
    ensures var i := if cfg.routeEmpties && s.chunks[a].empty then NumRepos(cfg.size) else GetIndex(s.chunks[a].objSize);
      && 0 <= i < |s.buckets|
      && (!cfg.routeEmpties ==> i < NumRepos(cfg.size))
      && Put(cfg, s, a) == Pushed(s, i, a)
      && (forall k :: 0 <= k < |s.buckets| ==> a !in s.buckets[k])
  {
    IndexInTable(s.chunks[a].objSize, cfg.size);
    NotLinked(cfg, s, a);
  }

  /** Double release: a second `put` of the same chunk changes nothing. */
  lemma PutIdempotent(cfg: Config, s: Source, a: nat)
    requires Shape(cfg, s) && a in s.chunks
    ensures Put(cfg, Put(cfg, s, a), a) == Put(cfg, s, a)
  {
  }

  /** With the shipped policy the overflow bucket is never filled, so `get` never reformats. */
  lemma OverflowDormant(cfg: Config, s: Source)
    requires Inv(cfg, s) && !cfg.routeEmpties
    ensures s.buckets[NumRepos(cfg.size)] == []
  {
    var n := NumRepos(cfg.size);
    assert s.buckets[n] != [] ==> Resident(cfg, s, n, s.buckets[n][0]);
  }

  /**
   * Reuse: with the shipped policy, `put(c)` followed by `get` of c's object
   * size hands back c itself without carving, and leaves every bucket, the
   * cursor and `_sz` as they were before the `put`.
   */
  lemma PutThenGet(cfg: Config, s: Source, a: nat)
    requires Inv(cfg, s) && !cfg.routeEmpties && a in s.chunks && s.chunks[a].state != InSource
    ensures var sz := s.chunks[a].objSize;
      var s1 := Put(cfg, s, a);
      Get(cfg, s1, sz) == Outcome(s.(chunks := s.chunks[a := s.chunks[a].(state := Unattached)]), Some(a))
  {
    var c := s.chunks[a];
    var i := GetIndex(c.objSize);
    PutLinks(cfg, s, a);
    var s1 := Put(cfg, s, a);
    PutKeepsInv(cfg, s, a);
    OverflowDormant(cfg, s1);
    assert s1.buckets[i] == [a] + s.buckets[i];
    assert s1.buckets[i := s1.buckets[i][1..]] == s.buckets;
  }

  /**
   * Under the dormant routing policy, reuse loses its precedence: a released
   * chunk that still holds objects goes back to its own bucket, but while the
   * overflow bucket is non-null the next `get` of that size reformats the
   * overflow head instead of handing the released chunk back.
   */
  lemma ReuseLostWhenRouting(cfg: Config, s: Source, a: nat)
    requires Inv(cfg, s) && cfg.routeEmpties && a in s.chunks && s.chunks[a].state != InSource
    requires !s.chunks[a].empty && s.buckets[NumRepos(cfg.size)] != []
    ensures var head := s.buckets[NumRepos(cfg.size)][0];
      var o := Get(cfg, Put(cfg, s, a), s.chunks[a].objSize);
      && o.chunk == Some(head) && head != a
      && o.after.chunks[head] == ChunkInfo(Unattached, s.chunks[a].objSize, true)
  {
    var i := GetIndex(s.chunks[a].objSize);
    PutLinks(cfg, s, a);
    var s1 := Put(cfg, s, a);
    assert s1.buckets[i] == [a] + s.buckets[i];
    assert s1.buckets[NumRepos(cfg.size)] == s.buckets[NumRepos(cfg.size)];
  }

  /**
   * Reuse precedence: `get(sz)`, `put` of what it returned, `get(sz)` again
   * returns the same chunk and carves nothing the second time.
   */
  lemma GetPutGet(cfg: Config, s: Source, sz: nat)
    requires Inv(cfg, s) && !cfg.routeEmpties && LegalSize(sz)
    requires Get(cfg, s, sz).chunk.Some?
    ensures var o := Get(cfg, s, sz);
      var s1 := Put(cfg, o.after, o.chunk.value);
      var o2 := Get(cfg, s1, sz);
      o2.chunk == o.chunk && o2.after.buf == o.after.buf && o2.after.remaining == o.after.remaining
  {
    var o := Get(cfg, s, sz);
    GetKeepsInv(cfg, s, sz);
    GetSizeFidelity(cfg, s, sz);
    PutThenGet(cfg, o.after, o.chunk.value);
  }

  /**
   * Overflow reformat (dormant policy on): an empty chunk released while the
   * overflow bucket is null goes there, and a later `get` of another size
   * whose bucket is null returns that same chunk reformatted for the new size.
   */
  lemma OverflowReformat(cfg: Config, s: Source, a: nat, sz: nat)
    requires Inv(cfg, s) && cfg.routeEmpties && LegalSize(sz)
    requires a in s.chunks && s.chunks[a].state != InSource && s.chunks[a].empty
    requires s.buckets[NumRepos(cfg.size)] == [] && s.buckets[GetIndex(sz)] == []
    ensures Get(cfg, Put(cfg, s, a), sz) == Outcome(s.(chunks := s.chunks[a := ChunkInfo(Unattached, sz, true)]), Some(a))
  {
    var n := NumRepos(cfg.size);
    IndexInTable(sz, cfg.size);
    PutLinks(cfg, s, a);
    var s1 := Put(cfg, s, a);
    assert s1.buckets[n] == [a];
    assert s1.buckets[n := []] == s.buckets;
  }

  // ---------------------------------------------------------------------------
  // Conservation of the reservation's bytes

  /** Chunks linked into a bucket (InSource). */
  ghost function Linked(s: Source): set<nat>
  {
    set a | a in s.chunks && s.chunks[a].state == InSource
  }

  /** Chunks handed out to the caller. */
  ghost function Held(s: Source): set<nat>
  {
    set a | a in s.chunks && s.chunks[a].state != InSource
  }

  /** Before the cursor passes the end, `_sz` is exactly the distance to the end. */
  lemma RemainingIsGap(cfg: Config, s: Source)
    requires Inv(cfg, s) && s.buf <= End(s)
    ensures s.remaining == End(s) - s.buf
  {
    AlignRoundsUp(s.start, cfg.size);
    var gap := End(s) - s.buf;
    ModUniqueInt(gap, WORD, 0, gap);
  }

  /**
   * Conservation: while the cursor has not passed the end of the reservation,
   * the bytes of the chunks held by the caller, the bytes of the chunks
   * resident in buckets and `_sz` add up to the capacity less the alignment
   * slack; a chunk counts as resident exactly when some bucket links it.
   */
  lemma Conservation(cfg: Config, s: Source)
    requires Inv(cfg, s) && s.buf <= End(s)
    ensures |Held(s)| * cfg.size + |Linked(s)| * cfg.size + s.remaining
            == MAX_HEAP_SIZE - (Base(cfg, s) - s.start)
    ensures forall a :: a in Linked(s) <==> a in s.chunks && InSomeBucket(s, a)
  {
    RemainingIsGap(cfg, s);
    HeldAndLinked(s);
    LinkedMeansInBucket(cfg, s);
    Distribute(|Held(s)|, |Linked(s)|, cfg.size);
  }

  lemma Distribute(a: int, b: int, m: int)
    ensures a * m + b * m == (a + b) * m
  {
  }

  /** Every carved chunk is either held or linked, never both. */
  lemma HeldAndLinked(s: Source)
    ensures |Held(s)| + |Linked(s)| == |s.chunks|
  {
    assert Held(s) + Linked(s) == s.chunks.Keys;
    assert Held(s) * Linked(s) == {};
  }

  /** A carved chunk is InSource exactly when some bucket links it. */
  lemma LinkedMeansInBucket(cfg: Config, s: Source)
    requires Inv(cfg, s)
    ensures forall a :: a in Linked(s) <==> a in s.chunks && InSomeBucket(s, a)
  {
    forall a | a in s.chunks && InSomeBucket(s, a) ensures a in Linked(s)
    {
      var i :| 0 <= i < |s.buckets| && a in s.buckets[i];
      var j :| 0 <= j < |s.buckets[i]| && s.buckets[i][j] == a;
      assert Resident(cfg, s, i, s.buckets[i][j]);
    }
  }

  /**
   * When the usable range is a whole number of chunks (no alignment slack,
   * as with a Size-aligned start), `_buf + _sz` stays the end of the
   * reservation and every carved chunk lies inside it.
   */
  lemma NoWrapWhenWhole(cfg: Config, s: Source)
    requires Inv(cfg, s) && (End(s) - Base(cfg, s)) % cfg.size == 0
    ensures s.buf + s.remaining == End(s)
    ensures forall a :: a in s.chunks ==> Base(cfg, s) <= a && a + cfg.size <= End(s)
  {
    RemainingIsGap(cfg, s);
  }

  // ---------------------------------------------------------------------------
  // Exhaustion

  /** The state after `k` calls `get(sz)` in a row. */
  ghost function GetRun(cfg: Config, s: Source, sz: nat, k: nat): (t: Source)
    requires Shape(cfg, s) && LegalSize(sz)
    ensures Shape(cfg, t) && t.start == s.start
    decreases k
  {
    if k == 0 then s else GetRun(cfg, Get(cfg, s, sz).after, sz, k - 1)
  }

  /** The invariant holds after any number of calls `get(sz)`. */
  lemma {:induction false} GetRunKeepsInv(cfg: Config, s: Source, sz: nat, k: nat)
    requires Inv(cfg, s) && LegalSize(sz)
    ensures Inv(cfg, GetRun(cfg, s, sz, k))
    decreases k
  {
    if k > 0 {
      var t := Get(cfg, s, sz).after;
      GetKeepsInv(cfg, s, sz);
      GetRunKeepsInv(cfg, t, sz, k - 1);
      assert GetRun(cfg, s, sz, k) == GetRun(cfg, t, sz, k - 1);
    }
  }

  /**
   * `k` calls `get(sz)` with the requested and overflow bucket empty carve
   * `k` chunks in a row as long as the last guard `sz < _sz` still holds:
   * the cursor advances by k chunks and `_sz` drops by as many, modulo 2^64.
   */
  lemma {:induction false} CarveRun(cfg: Config, s: Source, sz: nat, k: nat)
    requires Shape(cfg, s) && LegalSize(sz) && s.remaining < WORD
    requires s.buckets[GetIndex(sz)] == [] && s.buckets[NumRepos(cfg.size)] == []
    requires k > 0 ==> sz + (k - 1) * cfg.size < s.remaining
    ensures var t := GetRun(cfg, s, sz, k);
      && t.buf == s.buf + k * cfg.size
      && t.remaining == (s.remaining - k * cfg.size) % WORD
      && t.buckets == s.buckets
    decreases k
  {
    if k == 0 {
      ModUniqueInt(s.remaining, WORD, 0, s.remaining);
    } else {
      var size := cfg.size;
      RunArith(k, size, sz, s.remaining);
      var s1 := Get(cfg, s, sz).after;
      assert s1.buf == s.buf + size && s1.buckets == s.buckets;
      assert s1.remaining == (s.remaining - size) % WORD;
      if k > 1 {
        ModUniqueInt(s.remaining - size, WORD, 0, s.remaining - size);
        CarveRun(cfg, s1, sz, k - 1);
        assert s1.remaining - (k - 1) * size == s.remaining - k * size;
      }
    }
  }

  /** The arithmetic of one step of CarveRun. */
  lemma RunArith(k: nat, size: nat, sz: nat, r: int)
    requires k > 0 && sz + (k - 1) * size < r
    ensures sz < r && (k - 1) * size + size == k * size
    ensures k > 1 ==> sz + (k - 2) * size < r - size && r - size > 0
  {
    assert (k - 1) * size >= 0;
    if k > 1 {
      assert (k - 1) * size == (k - 2) * size + size;
    }
  }

  /** A whole number of chunks: k chunks fill n exactly and k - 1 leave one chunk over. */
  lemma WholeChunks(n: nat, m: nat)
    requires m > 0 && n % m == 0 && n >= m
    ensures (n / m) * m == n && (n / m - 1) * m == n - m && n / m >= 1
  {
    var k := n / m;
    assert n == m * k;
    assert (k - 1) * m == k * m - m;
  }

  lemma MulCancel(a: nat, b: nat, m: nat)
    requires m > 0 && a * m == b * m
    ensures a == b
  {
    if a < b {
      MulLeInt(m, a + 1, b);
      assert false;
    } else if a > b {
      MulLeInt(m, b + 1, a);
      assert false;
    }
  }

  /** An address that is already a multiple of `size` is its own alignment. */
  lemma AlignAligned(p: nat, size: nat)
    requires ValidChunkSize(size) && p + size <= WORD && p % size == 0
    ensures Align(p, size) == p
  {
    AlignRoundsUp(p, size);
    var a := Align(p, size);
    if a > p {
      MultiplesApart(a, p, size, p / size);
    }
  }

  /**
   * Exhaustion boundary: from a Size-aligned start (the capacity is then a
   * whole number of chunks) and with a size class below Size, the first
   * MAX_HEAP_SIZE / Size calls `get(sz)` all carve, after which `_sz` is 0 and
   * the next call returns null.
   */
  lemma ExhaustionBoundary(cfg: Config, start: nat, sz: nat)
    requires ValidConfig(cfg) && start + MAX_HEAP_SIZE <= WORD && LegalSize(sz)
    requires start % cfg.size == 0 && sz < cfg.size
    ensures var s := Init(cfg, start);
      var k := MAX_HEAP_SIZE / cfg.size;
      var t := GetRun(cfg, s, sz, k);
      && t.buf == start + MAX_HEAP_SIZE
      && |t.chunks| == k
      && t.remaining == 0
      && Get(cfg, t, sz) == Outcome(t, None)
  {
    var s := Init(cfg, start);
    var size := cfg.size;
    InitSound(cfg, start);
    AlignAligned(start, size);
    var k := MAX_HEAP_SIZE / size;
    ChunkSizeDividesHeap(size);
    WholeChunks(MAX_HEAP_SIZE, size);
    assert s.remaining == MAX_HEAP_SIZE;
    assert sz + (k - 1) * size < s.remaining;
    IndexInTable(sz, size);
    CarveRun(cfg, s, sz, k);
    GetRunKeepsInv(cfg, s, sz, k);
    var t := GetRun(cfg, s, sz, k);
    assert t.buf == start + MAX_HEAP_SIZE;
    ModUniqueInt(0, WORD, 0, 0);
    assert t.remaining == 0;
    assert Carved(cfg, t);
    assert Base(cfg, t) == start;
    assert |t.chunks| * size == MAX_HEAP_SIZE;
    MulCancel(|t.chunks|, k, size);
  }
}
