/**
 * `RepoSource<Size>` as a class: the bump cursor and remaining-byte counter
 * are fields, the bucket table is an array of list heads, and every chunk
 * header is an object whose link and state `get` and `put` rewrite in place.
 * Ghost fields record the contents of each free list, the chunk at each
 * carved address and what its header holds, and `Abstract` reads them back
 * as a state of module RepoSourceSpec: each method is proved to act on the
 * objects exactly as the matching function acts on that state.
 */
module RepoSourceImpl {
  import opened Arena
  import opened RepoSourceSpec
  import RepoSourceProps

  /** The header of one Size-byte chunk (a `Repo<Size>`), as far as the chunk source reads and writes it. */
  class Chunk {
    const addr: nat
    var state: RepoState
    var objSize: nat
    var empty: bool
    var next: Chunk?

    /** `new (buf) Repo<Size>(sz)` on freshly carved memory. */
    constructor (addr: nat, sz: nat)
      ensures this.addr == addr && Info() == ChunkInfo(Unattached, sz, true) && next == null
    {
      this.addr := addr;
      state := Unattached;
      objSize := sz;
      empty := true;
      next := null;
    }

    /**
     * `new (repo) Repo<Size>(sz)` on a chunk taken from the overflow bucket:
     * a fresh header for `sz`. The link to the next chunk survives, as `get`
     * relies on when it reads the link right after.
     */
    method Reformat(sz: nat)
      modifies `state, `objSize, `empty
      ensures Info() == ChunkInfo(Unattached, sz, true)
    {
      state := Unattached;
      objSize := sz;
      empty := true;
    }

    /** `setState(s)`: returns the state it replaces. */
    method SetState(s: RepoState) returns (prev: RepoState)
      modifies `state
      ensures state == s && prev == old(state)
    {
      prev := state;
      state := s;
    }

    function Info(): ChunkInfo
      reads `state, `objSize, `empty
    {
      ChunkInfo(state, objSize, empty)
    }
  }

  /** The constructor's function-local `static int counter`. */
  class InstanceCounter {
    var count: int

    constructor ()
      ensures count == 0
    {
      count := 0;
    }
  }

  /** The addresses of a list of chunks, in order. */
  ghost function Addrs(q: seq<Chunk>): (r: seq<nat>)
    ensures |r| == |q| && forall j :: 0 <= j < |q| ==> r[j] == q[j].addr
  {
    seq(|q|, j requires 0 <= j < |q| => q[j].addr)
  }

  /** Each chunk of `q` links to the next one and the last one to nothing. */
  ghost predicate Chain(q: seq<Chunk>)
    reads q`next
  {
    && (forall j :: 0 <= j < |q| - 1 ==> q[j].next == q[j + 1])
    && (q != [] ==> q[|q| - 1].next == null)
  }

  lemma ChainTail(q: seq<Chunk>)
    requires Chain(q) && q != []
    ensures Chain(q[1..])
  {
    var t := q[1..];
    forall j | 0 <= j < |t| - 1
      ensures t[j].next == t[j + 1]
    {
      assert t[j] == q[j + 1];
    }
  }

  lemma ChainCons(c: Chunk, q: seq<Chunk>)
    requires Chain(q) && c.next == (if q == [] then null else q[0])
    ensures Chain([c] + q)
  {
    var t := [c] + q;
    forall j | 0 <= j < |t| - 1
      ensures t[j].next == t[j + 1]
    {
      if j > 0 {
        assert t[j] == q[j - 1];
      }
    }
  }

  /** The addresses of every list. */
  ghost function AddrLists(ls: seq<seq<Chunk>>): (r: seq<seq<nat>>)
    ensures |r| == |ls| && forall i :: 0 <= i < |ls| ==> r[i] == Addrs(ls[i])
  {
    seq(|ls|, i requires 0 <= i < |ls| => Addrs(ls[i]))
  }

  /** Unlinking the head of list `i` drops the first address of list `i`. */
  lemma AddrListsPop(ls: seq<seq<Chunk>>, i: nat)
    requires i < |ls| && ls[i] != []
    ensures AddrLists(ls[i := ls[i][1..]]) == AddrLists(ls)[i := AddrLists(ls)[i][1..]]
  {
    assert Addrs(ls[i][1..]) == Addrs(ls[i])[1..];
  }

  /** Linking `c` in front of list `i` puts its address in front of list `i`. */
  lemma AddrListsPush(ls: seq<seq<Chunk>>, i: nat, c: Chunk)
    requires i < |ls|
    ensures AddrLists(ls[i := [c] + ls[i]]) == AddrLists(ls)[i := [c.addr] + AddrLists(ls)[i]]
  {
    assert Addrs([c] + ls[i]) == [c.addr] + Addrs(ls[i]);
  }

  class RepoSource {
    const cfg: Config
    /** `_bufferStart`: what the OS reservation returned. */
    const bufferStart: nat
    /** `_buf`. */
    var buf: nat
    /** `_sz`, a 64-bit unsigned integer. */
    var remaining: nat
    /** The table behind `getSource`: NUM_REPOS ordinary heads and the overflow head. */
    const repos: array<Chunk?>
    /** The chunks linked from each head, in link order. */
    ghost var lists: seq<seq<Chunk>>
    /** The chunk carved at each address. */
    ghost var heap: map<nat, Chunk>
    /** What the header of the chunk at each carved address holds. */
    ghost var headers: map<nat, ChunkInfo>

    /** The state of module RepoSourceSpec that the objects represent. */
    ghost function Abstract(): Source
      reads this
    {
      Source(bufferStart, buf, remaining, AddrLists(lists), headers)
    }

    /** Each chunk is recorded under its own address, and `headers` holds what its header holds. */
    ghost predicate HeapOk()
      reads `heap, `headers, heap.Values`state, heap.Values`objSize, heap.Values`empty
    {
      && heap.Keys == headers.Keys
      && forall a :: a in heap ==> heap[a].addr == a && heap[a].Info() == headers[a]
    }

    /** The heads and the `next` links spell out the ghost lists, whose chunks are carved ones. */
    ghost predicate ListsLinked()
      reads `lists, `heap, repos, heap.Values`next
    {
      && repos.Length == |lists|
      && (forall i :: 0 <= i < |lists| ==> repos[i] == if lists[i] == [] then null else lists[i][0])
      && (forall i, j :: 0 <= i < |lists| && 0 <= j < |lists[i]| ==>
            lists[i][j].addr in heap && heap[lists[i][j].addr] == lists[i][j])
      && (forall i :: 0 <= i < |lists| ==> Chain(lists[i]))
    }

    /**
     * Every chunk out of the source, except possibly `x`, has a null link:
     * `put` relies on this (line 113), `get` clears the link of what it hands out.
     */
    ghost predicate HeldUnlinkedBut(x: Chunk?)
      reads `heap, heap.Values`state, heap.Values`next
    {
      forall a {:trigger heap[a].next} :: a in heap && heap[a] != x && heap[a].state != InSource ==> heap[a].next == null
    }

    ghost predicate HeldUnlinked()
      reads `heap, heap.Values`state, heap.Values`next
    {
      HeldUnlinkedBut(null)
    }

    ghost predicate Valid()
      reads this, repos, heap.Values
    {
      HeapOk() && ListsLinked() && HeldUnlinked() && Inv(cfg, Abstract())
    }

    /** The constructor proper: align the reservation's start and deduct the slack. */
    constructor (cfg: Config, start: nat)
      requires ValidConfig(cfg) && start + MAX_HEAP_SIZE <= WORD
      ensures Valid() && Abstract() == Init(cfg, start)
    {
      AlignRoundsUp(start, cfg.size);
      var base := Align(start, cfg.size);
      this.cfg := cfg;
      bufferStart := start;
      buf := base;
      remaining := MAX_HEAP_SIZE - (base - start);
      repos := new Chunk?[NumRepos(cfg.size) + 1](_ => null);
      lists := seq(NumRepos(cfg.size) + 1, _ => []);
      heap := map[];
      headers := map[];
      new;
      assert AddrLists(lists) == Init(cfg, start).buckets;
      assert Abstract() == Init(cfg, start);
      assert ListsLinked() by {
        forall i | 0 <= i < |lists| ensures repos[i] == null && lists[i] == [] && Chain(lists[i])
        {
        }
      }
    }

    /**
     * `getHeapSize()`: the length of the reservation. In a well-formed source
     * the cursor plus `_sz` reaches exactly the end of the reservation, as
     * long as the cursor has not passed that end, and always when the usable
     * range is a whole number of chunks.
     */
    function HeapSize(): (n: nat)
      reads this, repos, heap.Values
      ensures Valid() && buf <= bufferStart + n ==> buf + remaining == bufferStart + n
      ensures Valid() && (bufferStart + n - Base(cfg, Abstract())) % cfg.size == 0 ==>
        buf + remaining == bufferStart + n
    {
      ReservationEnd();
      MAX_HEAP_SIZE
    }

    /** The facts `HeapSize` states, drawn from the invariant of the abstract state. */
    lemma ReservationEnd()
      ensures Valid() && buf <= bufferStart + MAX_HEAP_SIZE ==> buf + remaining == bufferStart + MAX_HEAP_SIZE
      ensures Valid() && (bufferStart + MAX_HEAP_SIZE - Base(cfg, Abstract())) % cfg.size == 0 ==>
        buf + remaining == bufferStart + MAX_HEAP_SIZE
    {
      if Valid() {
        if buf <= bufferStart + MAX_HEAP_SIZE {
          RepoSourceProps.RemainingIsGap(cfg, Abstract());
        }
        if (bufferStart + MAX_HEAP_SIZE - Base(cfg, Abstract())) % cfg.size == 0 {
          RepoSourceProps.NoWrapWhenWhole(cfg, Abstract());
        }
      }
    }

    /**
     * What `get(sz)` promises when it started from the abstract state `s`:
     * the objects now represent the state `Get` leaves behind, the result is
     * null exactly when `Get` returns nothing, and otherwise it is the chunk
     * at the address `Get` returns, with its link cleared.
     */
    ghost predicate Served(s: Source, sz: nat, r: Chunk?)
      requires Shape(cfg, s) && LegalSize(sz)
      reads this, heap.Values
    {
      var o := RepoSourceSpec.Get(cfg, s, sz);
      && Abstract() == o.after
      && (r == null <==> o.chunk == None)
      && (r != null ==> o.chunk == Some(r.addr) && r.addr in heap && heap[r.addr] == r && r.next == null)
    }

    /** `get(sz)`: one branch per outcome, as in the source. */
    method Get(sz: nat) returns (r: Chunk?)
      requires Valid() && LegalSize(sz)
      modifies this, repos, heap.Values
      ensures Valid() && Served(old(Abstract()), sz, r)
      ensures forall a :: a in old(heap) ==> a in heap && heap[a] == old(heap[a])
      ensures forall c :: c in old(heap.Values) && c != r ==> c.next == old(c.next)
    {
      IndexInTable(sz, cfg.size);
      var index := GetIndex(sz);
      var n := NumRepos(cfg.size);
      if repos[index] == null && repos[n] == null {
        if sz < remaining {
          r := GetFresh(sz);
        } else {
          NothingLeft(sz);
          r := null;
        }
        return;
      }
      var repo := repos[index];
      if repo == null || (!repo.empty && repos[n] != null) {
        r := GetReformatted(sz);
      } else {
        r := GetRecycled(sz);
      }
    }

    /** Nothing recycled for `sz`, no empties, and `sz >= _sz`: `get` returns null and changes nothing. */
    lemma NothingLeft(sz: nat)
      requires Valid() && LegalSize(sz)
      requires repos[GetIndex(sz)] == null && repos[NumRepos(cfg.size)] == null && sz >= remaining
      ensures Served(Abstract(), sz, null)
    {
      IndexInTable(sz, cfg.size);
      assert lists[GetIndex(sz)] == [] && lists[NumRepos(cfg.size)] == [];
    }

    /** Nothing recycled for `sz`, no empties, and `sz < _sz`: `get` carves a fresh chunk. */
    method GetFresh(sz: nat) returns (r: Chunk)
      requires Valid() && LegalSize(sz)
      requires repos[GetIndex(sz)] == null && repos[NumRepos(cfg.size)] == null && sz < remaining
      modifies this
      ensures Valid() && Served(old(Abstract()), sz, r)
      ensures forall a :: a in old(heap) ==> a in heap && heap[a] == old(heap[a])
      ensures forall c :: c in old(heap.Values) && c != r ==> c.next == old(c.next)
    {
      FreshPlan(sz);
      r := CarveChunk(sz);
    }

    /** The abstract side of `GetFresh`: `Get` carves the chunk at the cursor. */
    lemma FreshPlan(sz: nat)
      requires Valid() && LegalSize(sz)
      requires repos[GetIndex(sz)] == null && repos[NumRepos(cfg.size)] == null && sz < remaining
      ensures buf !in heap
      ensures var s := Abstract();
        && RepoSourceSpec.Get(cfg, s, sz) == Outcome(Carve(cfg, s, sz), Some(buf))
        && Inv(cfg, Carve(cfg, s, sz))
    {
      IndexInTable(sz, cfg.size);
      BucketHead(GetIndex(sz));
      BucketHead(NumRepos(cfg.size));
      RepoSourceProps.GetCarve(cfg, Abstract(), sz);
    }

    /** The requested bucket's head is taken: it is empty, or there are no empties. */
    method GetRecycled(sz: nat) returns (r: Chunk)
      requires Valid() && LegalSize(sz)
      requires repos[GetIndex(sz)] != null && (repos[GetIndex(sz)].empty || repos[NumRepos(cfg.size)] == null)
      modifies this, repos, heap.Values
      ensures Valid() && Served(old(Abstract()), sz, r) && heap == old(heap)
      ensures forall c :: c in old(heap.Values) && c != r ==> c.next == old(c.next)
    {
      IndexInTable(sz, cfg.size);
      var index := GetIndex(sz);
      RecycledPlan(sz);
      HeadUnique(index);
      r := TakeHead(index);
    }

    /** The abstract side of `GetRecycled`: `Get` pops the head of the requested bucket. */
    lemma RecycledPlan(sz: nat)
      requires Valid() && LegalSize(sz)
      requires repos[GetIndex(sz)] != null && (repos[GetIndex(sz)].empty || repos[NumRepos(cfg.size)] == null)
      ensures GetIndex(sz) < |lists| && lists[GetIndex(sz)] != []
      ensures var s := Abstract(); var c := lists[GetIndex(sz)][0];
        && s.buckets[GetIndex(sz)] != []
        && RepoSourceSpec.Get(cfg, s, sz) ==
             Outcome(RepoSourceProps.Popped(s, GetIndex(sz), s.chunks[c.addr].(state := Unattached)), Some(c.addr))
        && Inv(cfg, RepoSourceSpec.Get(cfg, s, sz).after)
    {
      IndexInTable(sz, cfg.size);
      BucketHead(GetIndex(sz));
      BucketHead(NumRepos(cfg.size));
      RepoSourceProps.GetPopsRequested(cfg, Abstract(), sz);
    }

    /** A head in the table is the first address of the matching abstract bucket. */
    lemma BucketHead(i: nat)
      requires HeapOk() && ListsLinked() && i < |lists|
      ensures (repos[i] == null) == (lists[i] == []) == (Abstract().buckets[i] == [])
      ensures lists[i] != [] ==>
        && repos[i] == lists[i][0]
        && Abstract().buckets[i][0] == lists[i][0].addr
        && Abstract().chunks[lists[i][0].addr] == lists[i][0].Info()
    {
    }

    /** The head of list `index` is linked nowhere else in the table. */
    ghost predicate HeadAlone(index: nat)
      reads `lists
    {
      && index < |lists| && lists[index] != []
      && forall i, j :: 0 <= i < |lists| && 0 <= j < |lists[i]| && (i != index || j != 0) ==>
           lists[i][j].addr != lists[index][0].addr
    }

    /** The head of a bucket appears nowhere else in the table. */
    lemma HeadUnique(index: nat)
      requires Valid() && index < |lists| && lists[index] != []
      ensures HeadAlone(index)
    {
      ghost var s := Abstract();
      RepoSourceProps.HeadOnlyOnce(cfg, s, index);
      forall i, j | 0 <= i < |lists| && 0 <= j < |lists[i]| && (i != index || j != 0)
        ensures lists[i][j].addr != lists[index][0].addr
      {
        assert s.buckets[i][j] == lists[i][j].addr;
        assert s.buckets[index][0] == lists[index][0].addr;
      }
    }

    /** The head of the overflow bucket is reformatted for `sz` and taken. */
    method GetReformatted(sz: nat) returns (r: Chunk)
      requires Valid() && LegalSize(sz)
      requires repos[NumRepos(cfg.size)] != null && (repos[GetIndex(sz)] == null || !repos[GetIndex(sz)].empty)
      modifies this, repos, heap.Values
      ensures Valid() && Served(old(Abstract()), sz, r) && heap == old(heap)
      ensures forall c :: c in old(heap.Values) && c != r ==> c.next == old(c.next)
    {
      IndexInTable(sz, cfg.size);
      var n := NumRepos(cfg.size);
      ReformatPlan(sz);
      HeadUnique(n);
      r := ReformatAndTake(n, sz);
    }

    /** Lines 86-92 of `get`: format the head of bucket `index` for `sz`, then unlink it. */
    method ReformatAndTake(index: nat, sz: nat) returns (c: Chunk)
      requires HeapOk() && ListsLinked() && index < |lists| && lists[index] != []
      requires HeadAlone(index) && HeldUnlinkedBut(lists[index][0])
      modifies this, repos, lists[index][0]
      ensures HeapOk() && ListsLinked() && HeldUnlinked() && heap == old(heap)
      ensures c == old(lists[index][0]) && c.next == null && c.addr in heap && heap[c.addr] == c
      ensures forall x :: x in old(heap.Values) && x != c ==> x.next == old(x.next)
      ensures Abstract() == RepoSourceProps.Popped(old(Abstract()), index, ChunkInfo(Unattached, sz, true))
    {
      ghost var s := Abstract();
      ghost var head := lists[index][0].addr;
      ReformatHead(index, sz);
      ghost var s1 := Abstract();
      c := TakeHead(index);
      assert s1.chunks[head].(state := Unattached) == ChunkInfo(Unattached, sz, true);
      assert s1.chunks[head := ChunkInfo(Unattached, sz, true)] == s.chunks[head := ChunkInfo(Unattached, sz, true)];
    }

    /** The abstract side of `GetReformatted`: `Get` reformats and pops the overflow head. */
    lemma ReformatPlan(sz: nat)
      requires Valid() && LegalSize(sz)
      requires repos[NumRepos(cfg.size)] != null && (repos[GetIndex(sz)] == null || !repos[GetIndex(sz)].empty)
      ensures NumRepos(cfg.size) < |lists| && lists[NumRepos(cfg.size)] != []
      ensures var s := Abstract(); var n := NumRepos(cfg.size);
        && s.buckets[n] != [] && s.buckets[n][0] == lists[n][0].addr
        && RepoSourceSpec.Get(cfg, s, sz) ==
             Outcome(RepoSourceProps.Popped(s, n, ChunkInfo(Unattached, sz, true)), Some(lists[n][0].addr))
        && Inv(cfg, RepoSourceSpec.Get(cfg, s, sz).after)
    {
      ghost var s := Abstract();
      IndexInTable(sz, cfg.size);
      var index, n := GetIndex(sz), NumRepos(cfg.size);
      assert lists[n] != [] && s.buckets[n][0] == lists[n][0].addr;
      assert repos[index] != null ==> lists[index] != [] && s.chunks[lists[index][0].addr] == lists[index][0].Info();
      RepoSourceProps.GetReformatsOverflow(cfg, s, sz);
    }

    /** Lines 63-66 of `get`: carve the chunk at the cursor and format it for `sz`. */
    method CarveChunk(sz: nat) returns (r: Chunk)
      requires HeapOk() && ListsLinked() && HeldUnlinked() && buf !in heap
      modifies `buf, `remaining, `heap, `headers
      ensures HeapOk() && ListsLinked() && HeldUnlinked() && Abstract() == Carve(cfg, old(Abstract()), sz)
      ensures fresh(r) && r.addr == old(buf) && r.next == null && heap == old(heap)[r.addr := r]
      ensures forall c :: c in old(heap.Values) ==> c.next == old(c.next)
    {
      var addr := Bump();
      r := new Chunk(addr, sz);
      Record(r);
    }

    /** Lines 63-65 of `get`: the cursor moves on by Size, `_sz` drops by Size modulo 2^64. */
    method Bump() returns (addr: nat)
      modifies `buf, `remaining
      ensures addr == old(buf) && buf == old(buf) + cfg.size && remaining == (old(remaining) - cfg.size) % WORD
    {
      addr := buf;
      buf := buf + cfg.size;
      remaining := (remaining - cfg.size) % WORD;
    }

    /** The chunk at an address not carved before joins the ghost heap; no list changes. */
    method Record(r: Chunk)
      requires HeapOk() && ListsLinked() && r.addr !in heap
      modifies `heap, `headers
      ensures HeapOk() && ListsLinked() && heap == old(heap)[r.addr := r]
      ensures headers == old(headers)[r.addr := r.Info()]
    {
      heap := heap[r.addr := r];
      headers := headers[r.addr := r.Info()];
    }

    /**
     * Lines 89-92 of `get` on the abstract state: the head of bucket `index`
     * is unlinked and marked unattached.
     */
    method TakeHead(index: nat) returns (c: Chunk)
      requires HeapOk() && ListsLinked() && index < |lists| && lists[index] != []
      requires HeadAlone(index) && HeldUnlinkedBut(lists[index][0])
      modifies this, repos, lists[index][0]
      ensures HeapOk() && ListsLinked() && HeldUnlinked() && heap == old(heap)
      ensures c == old(lists[index][0]) && c.next == null && c.addr in heap && heap[c.addr] == c
      ensures forall x :: x in old(heap.Values) && x != c ==> x.next == old(x.next)
      ensures var s := old(Abstract());
        Abstract() == RepoSourceProps.Popped(s, index, s.chunks[c.addr].(state := Unattached))
    {
      ghost var s := Abstract();
      AddrListsPop(lists, index);
      c := PopHead(index);
    }

    /** `new (repo) Repo<Size>(sz)` on the head of bucket `index`; links are untouched. */
    method ReformatHead(index: nat, sz: nat)
      requires HeapOk() && ListsLinked() && index < |lists| && lists[index] != []
      modifies `headers, lists[index][0]
      ensures HeapOk() && ListsLinked()
      ensures Abstract() == old(Abstract()).(chunks := old(Abstract()).chunks[lists[index][0].addr := ChunkInfo(Unattached, sz, true)])
    {
      var c := repos[index];
      c.Reformat(sz);
      headers := headers[c.addr := c.Info()];
      assert HeapOk() by {
        forall a | a in heap && a != c.addr ensures heap[a].Info() == headers[a]
        {
          assert heap[a] != c;
        }
      }
    }

    /**
     * Lines 89-92 of `get`: mark the head of bucket `index` unattached, make
     * its successor the head and clear its link.
     */
    method PopHead(index: nat) returns (c: Chunk)
      requires HeapOk() && ListsLinked() && index < |lists| && lists[index] != []
      requires HeadAlone(index) && HeldUnlinkedBut(lists[index][0])
      modifies this, repos, lists[index][0]
      ensures c == old(lists[index][0]) && c.next == null && HeldUnlinked()
      ensures heap == old(heap) && buf == old(buf) && remaining == old(remaining)
      ensures lists == old(lists[index := lists[index][1..]])
      ensures HeapOk() && ListsLinked()
      ensures headers == old(headers[lists[index][0].addr := lists[index][0].Info().(state := Unattached)])
    {
      c := repos[index];
      SetChunkState(c, Unattached);
      c := Unlink(index);
    }

    /** `repo->setState(s)` on a carved chunk: only that chunk's header entry changes. */
    method SetChunkState(c: Chunk, s: RepoState)
      requires HeapOk() && c.addr in heap && heap[c.addr] == c
      modifies `headers, c`state
      ensures c.state == s && HeapOk()
      ensures headers == old(headers)[c.addr := old(c.Info()).(state := s)]
    {
      var _ := c.SetState(s);
      headers := headers[c.addr := c.Info()];
      assert HeapOk() by {
        forall a | a in heap && a != c.addr ensures heap[a].Info() == headers[a]
        {
          assert heap[a] != c;
        }
      }
    }

    /** Lines 91-92 of `get`: the successor of the head of bucket `index` becomes the head; the old head's link is cleared. */
    method Unlink(index: nat) returns (c: Chunk)
      requires HeapOk() && ListsLinked() && index < |lists| && lists[index] != []
      requires HeadAlone(index)
      modifies `lists, repos, lists[index][..1]`next
      ensures c == old(lists[index][0]) && c.next == null
      ensures lists == old(lists[index := lists[index][1..]])
      ensures ListsLinked()
    {
      ChainTail(lists[index]);
      c := repos[index];
      repos[index] := c.next;
      c.next := null;
      lists := lists[index := lists[index][1..]];
    }

    /**
     * `put(repo)`: the objects change as `Put` changes the abstract state;
     * no chunk is carved or forgotten.
     */
    method Put(c: Chunk)
      requires Valid() && c.addr in heap && heap[c.addr] == c
      modifies this, repos, c
      ensures Valid()
      ensures Abstract() == RepoSourceSpec.Put(cfg, old(Abstract()), c.addr)
      ensures heap == old(heap)
    {
      if c.state == InSource {
        return;
      }
      ghost var s := Abstract();
      IndexInTable(c.objSize, cfg.size);
      var index := GetIndex(c.objSize);
      if cfg.routeEmpties && c.empty {
        index := NumRepos(cfg.size);
      }
      RepoSourceProps.NotLinked(cfg, s, c.addr);
      RepoSourceProps.PutKeepsInv(cfg, s, c.addr);
      AddrListsPush(lists, index, c);
      PushHead(index, c);
    }

    /**
     * Lines 111 and 120-121 of `put`: mark the chunk InSource and link it in
     * front of bucket `index`.
     */
    method PushHead(index: nat, c: Chunk)
      requires HeapOk() && ListsLinked() && HeldUnlinked() && index < |lists| && c.addr in heap && heap[c.addr] == c
      requires forall i, j :: 0 <= i < |lists| && 0 <= j < |lists[i]| ==> lists[i][j].addr != c.addr
      modifies this, repos, c
      ensures heap == old(heap) && buf == old(buf) && remaining == old(remaining)
      ensures HeapOk() && ListsLinked() && HeldUnlinked()
      ensures lists == old(lists[index := [c] + lists[index]])
      ensures headers == old(headers[c.addr := c.Info().(state := InSource)])
    {
      SetChunkState(c, InSource);
      LinkFront(index, c);
    }

    /** Lines 120-121 of `put`: link the chunk in front of bucket `index`. */
    method LinkFront(index: nat, c: Chunk)
      requires HeapOk() && ListsLinked() && index < |lists| && c.addr in heap && heap[c.addr] == c
      requires forall i, j :: 0 <= i < |lists| && 0 <= j < |lists[i]| ==> lists[i][j].addr != c.addr
      modifies `lists, repos, c`next
      ensures ListsLinked() && lists == old(lists[index := [c] + lists[index]])
    {
      ghost var L: seq<seq<Chunk>> := lists;
      c.next := repos[index];
      repos[index] := c;
      lists := lists[index := [c] + lists[index]];
      assert ListsLinked() by {
        forall i | 0 <= i < |lists| ensures Chain(lists[i])
        {
          assert c !in L[i];
          assert old(Chain(L[i]));
          assert Chain(L[i]);
          if i == index {
            ChainCons(c, L[i]);
          }
        }
        forall i, j | 0 <= i < |lists| && 0 <= j < |lists[i]|
          ensures lists[i][j].addr in heap && heap[lists[i][j].addr] == lists[i][j]
        {
          if i != index || j > 0 {
            var j0 := if i == index then j - 1 else j;
            assert lists[i][j] == L[i][j0];
          }
        }
      }
    }
  }

  /**
   * The constructor with its singleton check: the static counter goes up by
   * one, and a second construction aborts (no object results).
   */
  method Construct(counter: InstanceCounter, cfg: Config, start: nat) returns (src: RepoSource?)
    requires ValidConfig(cfg) && start + MAX_HEAP_SIZE <= WORD
    modifies counter
    ensures counter.count == old(counter.count) + 1
    ensures src == null <==> counter.count > 1
    ensures src != null ==> fresh(src) && src.Valid() && src.Abstract() == Init(cfg, start)
  {
    counter.count := counter.count + 1;
    if counter.count > 1 {
      return null;
    }
    src := new RepoSource(cfg, start);
  }
}
