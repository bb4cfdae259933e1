/** The prefetching texture cache: tags are updated when a request arrives, data when its fragment leaves
    the fragment queue, and misses return from memory in any order. */
module TexCache {
  import opened CacheTags
  import opened RingFifo

  /** A memory request, identified by `id`. */
  datatype MemFetch = MemFetch(id: nat, addr: nat)

  datatype Fragment = Fragment(request: MemFetch, cacheIndex: nat, miss: bool)

  datatype RobEntry = RobEntry(ready: bool, index: nat, request: MemFetch, blockAddr: nat)

  datatype DataBlock = DataBlock(valid: bool, blockAddr: nat)

  // ----- the replay -----

  /** The data array once the fragment has been served. */
  function Served(g: Geometry, cache: seq<DataBlock>, f: Fragment): seq<DataBlock>
    requires 0 < g.lineSize && f.cacheIndex < |cache|
  {
    if f.miss then cache[f.cacheIndex := DataBlock(true, g.BlockAddr(f.request.addr))] else cache
  }

  /** A fragment served from this data array is given its own block. */
  ghost predicate Serves(g: Geometry, cache: seq<DataBlock>, f: Fragment)
    requires 0 < g.lineSize
  {
    f.cacheIndex < |cache| && (!f.miss ==> cache[f.cacheIndex] == DataBlock(true, g.BlockAddr(f.request.addr)))
  }

  /** The tags promise what the data array holds. */
  ghost predicate Agrees(lines: seq<Line>, cache: seq<DataBlock>) {
    && |lines| == |cache|
    && forall i :: 0 <= i < |lines| ==>
         && lines[i].status in {Invalid, Resident}
         && (lines[i].status == Resident ==> cache[i] == DataBlock(true, lines[i].tag))
  }

  /** Serving the waiting fragments in order gives each of them its own block, and in the end brings the data
      array to the state that the tags are already in. */
  ghost predicate Replays(g: Geometry, cache: seq<DataBlock>, fragments: seq<Fragment>, lines: seq<Line>)
    requires 0 < g.lineSize
    decreases |fragments|
  {
    if fragments == [] then Agrees(lines, cache)
    else Serves(g, cache, fragments[0]) && Replays(g, Served(g, cache, fragments[0]), fragments[1..], lines)
  }

  /** What the tag array makes of an accepted request. */
  ghost predicate TagsAccept(g: Geometry, lines: seq<Line>, lines': seq<Line>, f: Fragment)
    requires 0 < g.lineSize
  {
    && |lines'| == |lines| && f.cacheIndex < |lines|
    && (forall i :: 0 <= i < |lines| && i != f.cacheIndex ==> lines'[i] == lines[i])
    && lines'[f.cacheIndex].status == Resident && lines'[f.cacheIndex].tag == g.BlockAddr(f.request.addr)
    && (!f.miss ==> lines[f.cacheIndex].status == Resident && lines[f.cacheIndex].tag == g.BlockAddr(f.request.addr))
  }

  /** Appending the fragment of an accepted request keeps the replay right, whatever is still waiting. */
  lemma {:induction false} ReplayExtends(g: Geometry, cache: seq<DataBlock>, fragments: seq<Fragment>,
                                         lines: seq<Line>, lines': seq<Line>, f: Fragment)
    requires 0 < g.lineSize && Replays(g, cache, fragments, lines) && TagsAccept(g, lines, lines', f)
    ensures Replays(g, cache, fragments + [f], lines')
    decreases |fragments|
  {
    if fragments == [] {
      assert [f][1..] == [];
      assert Agrees(lines', Served(g, cache, f));
      assert fragments + [f] == [f];
    } else {
      ReplayExtends(g, Served(g, cache, fragments[0]), fragments[1..], lines, lines', f);
      assert (fragments + [f])[1..] == fragments[1..] + [f];
    }
  }

  lemma {:induction false} ReplaySizes(g: Geometry, cache: seq<DataBlock>, fragments: seq<Fragment>, lines: seq<Line>)
    requires 0 < g.lineSize && Replays(g, cache, fragments, lines)
    ensures |lines| == |cache| && forall i :: 0 <= i < |lines| ==> lines[i].status in {Invalid, Resident}
    decreases |fragments|
  {
    if fragments != [] {
      ReplaySizes(g, Served(g, cache, fragments[0]), fragments[1..], lines);
    }
  }

  // ----- the reorder buffer -----

  /** The reorder buffer holds one entry per waiting miss, in the same order. */
  ghost predicate RobMatches(g: Geometry, fragments: seq<Fragment>, rob: seq<RobEntry>)
    requires 0 < g.lineSize
  {
    if fragments == [] then rob == []
    else if !fragments[0].miss then RobMatches(g, fragments[1..], rob)
    else
      && rob != [] && rob[0].index == fragments[0].cacheIndex && rob[0].request == fragments[0].request
      && rob[0].blockAddr == g.BlockAddr(fragments[0].request.addr)
      && RobMatches(g, fragments[1..], rob[1..])
  }

  lemma {:induction false} RobExtends(g: Geometry, fragments: seq<Fragment>, rob: seq<RobEntry>, f: Fragment)
    requires 0 < g.lineSize && RobMatches(g, fragments, rob)
    ensures !f.miss ==> RobMatches(g, fragments + [f], rob)
    ensures f.miss ==>
      RobMatches(g, fragments + [f], rob + [RobEntry(false, f.cacheIndex, f.request, g.BlockAddr(f.request.addr))])
  {
    var e := RobEntry(false, f.cacheIndex, f.request, g.BlockAddr(f.request.addr));
    if fragments == [] {
      assert fragments + [f] == [f] && rob + [e] == [e];
      assert RobMatches(g, [f][1..], [e][1..]) && RobMatches(g, [f][1..], rob);
    } else {
      assert (fragments + [f])[1..] == fragments[1..] + [f];
      if fragments[0].miss {
        RobExtends(g, fragments[1..], rob[1..], f);
        assert (rob + [e])[1..] == rob[1..] + [e];
      } else {
        RobExtends(g, fragments[1..], rob, f);
      }
    }
  }

  /** Marking an entry ready changes neither order nor contents. */
  lemma {:induction false} RobReady(g: Geometry, fragments: seq<Fragment>, rob: seq<RobEntry>, i: nat)
    requires 0 < g.lineSize && RobMatches(g, fragments, rob) && i < |rob|
    ensures RobMatches(g, fragments, rob[i := rob[i].(ready := true)])
  {
    if fragments != [] {
      if !fragments[0].miss {
        RobReady(g, fragments[1..], rob, i);
      } else if 0 < i {
        RobReady(g, fragments[1..], rob[1..], i - 1);
        assert rob[i := rob[i].(ready := true)][1..] == rob[1..][i - 1 := rob[i].(ready := true)];
      } else {
        assert rob[i := rob[i].(ready := true)][1..] == rob[1..];
      }
    }
  }

  lemma {:induction false} RobEntriesAreBlocks(g: Geometry, fragments: seq<Fragment>, rob: seq<RobEntry>)
    requires 0 < g.lineSize && RobMatches(g, fragments, rob)
    ensures |rob| <= |fragments|
    ensures forall i :: 0 <= i < |rob| ==> rob[i].blockAddr == g.BlockAddr(rob[i].request.addr)
    ensures forall i :: 0 <= i < |rob| ==> rob[i].request in Requests(fragments)
  {
    if fragments != [] {
      var rest := if fragments[0].miss then rob[1..] else rob;
      RobEntriesAreBlocks(g, fragments[1..], rest);
      assert Requests(fragments) == [fragments[0].request] + Requests(fragments[1..]);
      forall i | 0 <= i < |rob|
        ensures rob[i].blockAddr == g.BlockAddr(rob[i].request.addr) && rob[i].request in Requests(fragments)
      {
        if fragments[0].miss && 0 < i {
          assert rob[i] == rest[i - 1];
        }
      }
    }
  }

  function Requests(fragments: seq<Fragment>): seq<MemFetch> {
    seq(|fragments|, i requires 0 <= i < |fragments| => fragments[i].request)
  }

  /** Everything that accepting a fragment means for the queues. */
  lemma AcceptedFragment(g: Geometry, cache: seq<DataBlock>, fragments: seq<Fragment>, lines: seq<Line>,
                         lines': seq<Line>, rob: seq<RobEntry>, f: Fragment)
    requires 0 < g.lineSize && Replays(g, cache, fragments, lines) && TagsAccept(g, lines, lines', f)
    requires RobMatches(g, fragments, rob) && f.request !in Requests(fragments)
    ensures Replays(g, cache, fragments + [f], lines') && Requests(fragments + [f]) == Requests(fragments) + [f.request]
    ensures forall i :: 0 <= i < |rob| ==> rob[i].request != f.request
    ensures RobMatches(g, fragments + [f],
      if f.miss then rob + [RobEntry(false, f.cacheIndex, f.request, g.BlockAddr(f.request.addr))] else rob)
  {
    ReplayExtends(g, cache, fragments, lines, lines', f);
    RobEntriesAreBlocks(g, fragments, rob);
    RobExtends(g, fragments, rob, f);
  }

  /** Serving a miss at the head of the queues leaves the replay of the rest. */
  lemma ServedFirst(g: Geometry, cache: seq<DataBlock>, fragments: seq<Fragment>, lines: seq<Line>, rob: seq<RobEntry>)
    requires 0 < g.lineSize && fragments != [] && fragments[0].miss
    requires Replays(g, cache, fragments, lines) && RobMatches(g, fragments, rob)
    ensures fragments[0].cacheIndex < |cache| && Replays(g, Served(g, cache, fragments[0]), fragments[1..], lines)
    ensures rob != [] && RobMatches(g, fragments[1..], rob[1..])
    ensures Requests(fragments) == [fragments[0].request] + Requests(fragments[1..])
  {
    assert Requests(fragments) == [fragments[0].request] + Requests(fragments[1..]);
  }

  // ----- the cache -----

  /** The queues other than the reorder buffer are only used in order and are held as sequences. */
  class Cache {
    const g: Geometry
    const tags: TagArray
    const rob: Fifo<RobEntry>
    const fragmentSlots: nat
    const requestSlots: nat
    const resultSlots: nat
    var fragmentFifo: seq<Fragment>
    var requestFifo: seq<MemFetch>
    var resultFifo: seq<MemFetch>
    var cache: seq<DataBlock>
    /** The reorder-buffer slot given to a request; entries are never removed. */
    var robIndexOf: map<MemFetch, nat>

    /** The requests accepted so far, and those handed back. */
    ghost var accepted: seq<MemFetch>
    ghost var delivered: seq<MemFetch>

    constructor (g: Geometry, fragments: nat, requests: nat, robEntries: nat, results: nat)
      requires g.Valid() && 0 < robEntries
      ensures Valid() && this.g == g && accepted == [] && delivered == []
    {
      this.g := g;
      tags := new TagArray(g);
      rob := new Fifo<RobEntry>(robEntries);
      fragmentSlots, requestSlots, resultSlots := fragments, requests, results;
      fragmentFifo, requestFifo, resultFifo := [], [], [];
      cache := seq(g.nset * g.assoc, _ => DataBlock(false, 0));
      robIndexOf := map[];
      accepted, delivered := [], [];
    }

    ghost predicate Valid()
      reads this, tags, tags.lines, rob, rob.data
    {
      && tags.lines as object != rob.data as object
      && tags.Valid() && tags.g == g && rob.Valid()
      && |fragmentFifo| <= fragmentSlots && |requestFifo| <= requestSlots && |resultFifo| <= resultSlots
      && Replays(g, cache, fragmentFifo, tags.lines[..])
      && RobMatches(g, fragmentFifo, rob.Contents())
      && SlotsKnown()
      && accepted == delivered + resultFifo + Requests(fragmentFifo)
    }

    /** Every waiting request is registered with its slot of the reorder buffer. */
    ghost predicate SlotsKnown()
      requires rob.Valid()
      reads this, rob, rob.data
    {
      forall i :: 0 <= i < rob.num && !rob.Contents()[i].ready ==>
        var mf := rob.Contents()[i].request; mf in robIndexOf && robIndexOf[mf] == rob.Slot(i)
    }

    /** A read for the request has been issued and not been answered. */
    ghost predicate Outstanding(mf: MemFetch)
      requires rob.Valid()
      reads this, rob, rob.data
    {
      exists i :: 0 <= i < rob.num && rob.Contents()[i].request == mf && !rob.Contents()[i].ready
    }

    predicate HasRoom()
      reads this, rob
    {
      |fragmentFifo| != fragmentSlots && |requestFifo| != requestSlots && rob.num != rob.size
    }

    /** Accepts a request if all queues have room. The assertions of the simulator hold: the tag array never
        fails, and it never finds a line still waiting for a fill. */
    method Access(mf: MemFetch, time: nat) returns (status: RequestStatus)
      requires Valid() && time < UINT_MAX && mf !in Requests(fragmentFifo)
      modifies this, tags.lines, rob, rob.data
      ensures Valid() && delivered == old(delivered) && cache == old(cache) && resultFifo == old(resultFifo)
      ensures status == ReservationFail <==>
        old(|fragmentFifo| == fragmentSlots || |requestFifo| == requestSlots || rob.num == rob.size)
      ensures status == ReservationFail ==>
        accepted == old(accepted) && fragmentFifo == old(fragmentFifo) && requestFifo == old(requestFifo)
        && tags.lines[..] == old(tags.lines[..]) && rob.Contents() == old(rob.Contents())
      ensures status != ReservationFail ==> accepted == old(accepted) + [mf] && status in {Miss, HitReserved}
      ensures status == Miss ==> requestFifo == old(requestFifo) + [mf] && Outstanding(mf)
      ensures status == HitReserved ==> requestFifo == old(requestFifo) && rob.Contents() == old(rob.Contents())
    {
      if HasRoom() {
        status := Accept(mf, time);
      } else {
        status := ReservationFail;
      }
    }

    method Accept(mf: MemFetch, time: nat) returns (status: RequestStatus)
      requires Valid() && time < UINT_MAX && mf !in Requests(fragmentFifo) && HasRoom()
      modifies this, tags.lines, rob, rob.data
      ensures Valid() && delivered == old(delivered) && cache == old(cache) && resultFifo == old(resultFifo)
      ensures accepted == old(accepted) + [mf] && status in {Miss, HitReserved}
      ensures status == Miss ==> requestFifo == old(requestFifo) + [mf] && Outstanding(mf)
      ensures status == HitReserved ==> requestFifo == old(requestFifo) && rob.Contents() == old(rob.Contents())
    {
      ghost var lines := tags.lines[..];
      var idx;
      status, idx := AccessTags(mf, time);
      var f := Fragment(mf, idx, status == Miss);
      AcceptedFragment(g, cache, fragmentFifo, lines, tags.lines[..], rob.Contents(), f);
      fragmentFifo := fragmentFifo + [f];
      accepted := accepted + [mf];
      if status == Miss {
        Reserve(mf, idx);
        requestFifo := requestFifo + [mf];
      } else {
        status := HitReserved;
      }
    }

    /** The tags take a missing block in at once and mark it valid. */
    method AccessTags(mf: MemFetch, time: nat) returns (status: RequestStatus, idx: nat)
      requires tags.Valid() && tags.g == g && time < UINT_MAX
      requires exists fragments, data :: Replays(g, data, fragments, tags.lines[..])
      modifies tags.lines
      ensures tags.Valid() && status in {Hit, Miss}
      ensures TagsAccept(g, old(tags.lines[..]), tags.lines[..], Fragment(mf, idx, status == Miss))
    {
      ghost var fragments, data :| Replays(g, data, fragments, tags.lines[..]);
      ReplaySizes(g, data, fragments, tags.lines[..]);
      var blockAddr := g.BlockAddr(mf.addr);
      BlockAddrIsIdempotent(g, mf.addr);
      assert g.InSet(blockAddr, g.Base(blockAddr));
      var wb, evicted;
      status, idx, wb, evicted := tags.Access(blockAddr, time);
      assert status != ReservationFail;
      assert status != HitReserved;
      assert !wb;
      if status == Miss {
        tags.Fill(idx, time);
      }
    }

    /** Gives a miss its place in the reorder buffer. */
    method Reserve(mf: MemFetch, idx: nat)
      requires g.Valid() && rob.Valid() && !rob.Full() && SlotsKnown()
      requires forall i :: 0 <= i < rob.num ==> rob.Contents()[i].request != mf
      modifies this`robIndexOf, rob, rob.data
      ensures rob.Valid() && SlotsKnown() && Outstanding(mf)
      ensures rob.Contents() == old(rob.Contents()) + [RobEntry(false, idx, mf, g.BlockAddr(mf.addr))]
    {
      ghost var before := rob.Contents();
      var slot := rob.Push(RobEntry(false, idx, mf, g.BlockAddr(mf.addr)));
      robIndexOf := robIndexOf[mf := slot];
      assert rob.Contents()[|before|] == RobEntry(false, idx, mf, g.BlockAddr(mf.addr));
      forall i | 0 <= i < rob.num && !rob.Contents()[i].ready
        ensures var m := rob.Contents()[i].request; m in robIndexOf && robIndexOf[m] == rob.Slot(i)
      {
        assert i < |before| ==> rob.Contents()[i] == before[i] && before[i].request != mf;
      }
    }

    /** A block returns from memory and becomes ready in the reorder buffer. */
    method Fill(mf: MemFetch)
      requires Valid() && Outstanding(mf)
      modifies rob.data
      ensures Valid() && robIndexOf == old(robIndexOf)
      ensures exists i ::
        && 0 <= i < rob.num && old(rob.Contents())[i].request == mf
        && rob.Contents() == old(rob.Contents())[i := old(rob.Contents())[i].(ready := true)]
    {
      ghost var i :| 0 <= i < rob.num && rob.Contents()[i].request == mf && !rob.Contents()[i].ready;
      assert mf in robIndexOf && 0 < rob.num;
      var slot := robIndexOf[mf];
      var r := rob.PeekAt(slot);
      assert !r.ready;
      RobEntriesAreBlocks(g, fragmentFifo, rob.Contents());
      assert r.blockAddr == g.BlockAddr(mf.addr);
      RobReady(g, fragmentFifo, rob.Contents(), i);
      rob.UpdateAt(slot, r.(ready := true), i);
    }

    /** Sends the next request to memory. */
    method SendRequest(portFull: bool) returns (sent: bool, mf: MemFetch)
      requires Valid()
      modifies this`requestFifo
      ensures Valid()
      ensures sent <==> !portFull && old(requestFifo) != []
      ensures if sent then [mf] + requestFifo == old(requestFifo) else requestFifo == old(requestFifo)
    {
      sent, mf := false, MemFetch(0, 0);
      if requestFifo != [] {
        if !portFull {
          sent, mf := true, requestFifo[0];
          requestFifo := requestFifo[1..];
        }
      }
    }

    /** The oldest fragment can be served: it hit, or its block is back. */
    ghost predicate CanServe()
      requires rob.Valid()
      reads this, rob, rob.data
    {
      && fragmentFifo != [] && |resultFifo| != resultSlots
      && (fragmentFifo[0].miss ==> 0 < rob.num && rob.Contents()[0].ready)
    }

    /** Serves the oldest fragment, if it can be; its block is then in the data array. The assertions of
        the simulator hold: the head of the reorder buffer belongs to the fragment, and a hit finds its block. */
    method ServeFragment() returns (served: bool)
      requires Valid()
      modifies this, rob
      ensures Valid() && accepted == old(accepted) && delivered == old(delivered) && requestFifo == old(requestFifo)
      ensures served == old(CanServe())
      ensures !served ==> resultFifo == old(resultFifo) && fragmentFifo == old(fragmentFifo) && cache == old(cache)
      ensures served ==> var f := old(fragmentFifo)[0];
        && fragmentFifo == old(fragmentFifo)[1..] && resultFifo == old(resultFifo) + [f.request]
        && cache == Served(g, old(cache), f) && cache[f.cacheIndex] == DataBlock(true, g.BlockAddr(f.request.addr))
    {
      served := false;
      if fragmentFifo == [] || |resultFifo| == resultSlots {
        return;
      }
      var e := fragmentFifo[0];
      assert Requests(fragmentFifo) == [e.request] + Requests(fragmentFifo[1..]);
      if e.miss {
        served := ServeMiss(e);
      } else {
        assert cache[e.cacheIndex].valid;
        assert cache[e.cacheIndex].blockAddr == g.BlockAddr(e.request.addr);
        resultFifo := resultFifo + [e.request];
        fragmentFifo := fragmentFifo[1..];
        served := true;
      }
    }

    /** The oldest entry leaves the reorder buffer; the others keep their slots. */
    method PopRob()
      requires rob.Valid() && 0 < rob.num && SlotsKnown()
      modifies rob
      ensures rob.Valid() && rob.Contents() == old(rob.Contents())[1..] && SlotsKnown()
    {
      ghost var before := rob.Contents();
      var oldest := rob.Pop();
      assert forall i :: 0 <= i < rob.num ==> rob.Contents()[i] == before[i + 1];
    }

    /** Serves a miss at the head of the fragment queue, once its block is back. */
    method ServeMiss(e: Fragment) returns (served: bool)
      requires Valid() && fragmentFifo != [] && e == fragmentFifo[0] && e.miss && |resultFifo| != resultSlots
      modifies this`cache, this`resultFifo, this`fragmentFifo, rob
      ensures Valid()
      ensures served == old(rob.Contents()[0].ready)
      ensures !served ==> resultFifo == old(resultFifo) && fragmentFifo == old(fragmentFifo) && cache == old(cache)
      ensures served ==>
        && fragmentFifo == old(fragmentFifo)[1..] && resultFifo == old(resultFifo) + [e.request]
        && cache == Served(g, old(cache), e)
    {
      var index := rob.NextPopIndex();
      var r := rob.PeekAt(index);
      assert r == rob.Contents()[0];
      assert r.request == e.request;
      assert r.blockAddr == g.BlockAddr(e.request.addr);
      served := r.ready;
      if r.ready {
        assert r.index == e.cacheIndex;
        TakeBlock(e, r);
      }
    }

    /** The block at the head of the reorder buffer goes into the data array, and its fragment is served. */
    method TakeBlock(e: Fragment, r: RobEntry)
      requires Valid() && fragmentFifo != [] && e == fragmentFifo[0] && e.miss && |resultFifo| != resultSlots
      requires rob.Contents() != [] && r == rob.Contents()[0]
      requires r.index == e.cacheIndex && r.blockAddr == g.BlockAddr(e.request.addr)
      modifies this`cache, this`resultFifo, this`fragmentFifo, rob
      ensures Valid() && cache == Served(g, old(cache), e)
      ensures fragmentFifo == old(fragmentFifo)[1..] && resultFifo == old(resultFifo) + [e.request]
    {
      ServedFirst(g, cache, fragmentFifo, tags.lines[..], rob.Contents());
      cache := cache[r.index := DataBlock(true, r.blockAddr)];
      resultFifo := resultFifo + [e.request];
      PopRob();
      fragmentFifo := fragmentFifo[1..];
    }

    /** Sends the next request if the port has room, and serves the oldest fragment if it can be. */
    method Cycle(portFull: bool) returns (sent: bool, mf: MemFetch, served: bool)
      requires Valid()
      modifies this, rob
      ensures Valid() && accepted == old(accepted) && delivered == old(delivered)
      ensures sent <==> !portFull && old(requestFifo) != []
      ensures if sent then [mf] + requestFifo == old(requestFifo) else requestFifo == old(requestFifo)
      ensures served <==>
        && old(fragmentFifo) != [] && |old(resultFifo)| != resultSlots
        && (old(fragmentFifo)[0].miss ==> old(rob.num) > 0 && old(rob.Contents())[0].ready)
      ensures !served ==> resultFifo == old(resultFifo) && fragmentFifo == old(fragmentFifo) && cache == old(cache)
      ensures served ==> var f := old(fragmentFifo)[0];
        && fragmentFifo == old(fragmentFifo)[1..] && resultFifo == old(resultFifo) + [f.request]
        && cache == Served(g, old(cache), f) && cache[f.cacheIndex] == DataBlock(true, g.BlockAddr(f.request.addr))
        && forall i :: 0 <= i < |cache| && i != f.cacheIndex ==> cache[i] == old(cache)[i]
    {
      sent, mf := SendRequest(portFull);
      served := ServeFragment();
    }

    /** Hands the next finished request back: requests come out exactly once, in the order of acceptance. */
    method NextAccess() returns (mf: MemFetch)
      requires Valid() && resultFifo != []
      modifies this`resultFifo, this`delivered
      ensures Valid() && delivered == old(delivered) + [mf] && |old(delivered)| < |accepted|
      ensures mf == accepted[|old(delivered)|] && delivered <= accepted
    {
      mf := resultFifo[0];
      resultFifo := resultFifo[1..];
      delivered := delivered + [mf];
    }
  }
}
