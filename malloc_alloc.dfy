/**
 * The first-level allocator `mallocAlloc`: a thin layer over raw malloc/realloc/free
 * with a replaceable out-of-memory handler. When a raw call fails, the allocator
 * keeps calling the handler and retrying the call. It gives up only when the
 * handler slot is empty; in that case it prints "Out of Memory." and exits the
 * process.
 */
module MallocAlloc {
  import opened Wrappers
  import opened SystemHeap

  /**
   * An out-of-memory handler. The handler the program installs is platform code
   * and opaque here. It has one observable effect on the allocator: it may
   * uninstall itself, leaving the slot null, to say it has nothing left to
   * release. Whatever memory it frees shows up as the raw calls' scripted outcomes.
   */
  datatype Handler = Handler(id: nat, uninstalls: bool)

  /** `myAllocHandler`, the handler the slot holds before any setMallocHandler call. */
  const MyAllocHandler: Handler := Handler(0, false)

  /** A block, or the process exit that follows "Out of Memory.". */
  datatype Outcome = Block(addr: Address) | OutOfMemory

  /** The slot after a handler `h`, read from the slot, has run. */
  function After(h: Handler): Option<Handler>
  {
    if h.uninstalls then None else Some(h)
  }

  /** The slot once the retry loop has finished, starting from `slot`. */
  function Settled(slot: Option<Handler>): Option<Handler>
  {
    match slot
    case None => None
    case Some(h) => After(h)
  }

  /** What one run of the retry loop did: how many handler calls, and whether a raw retry succeeded. */
  datatype Run = Run(calls: nat, served: bool)

  /**
   * The retry loop of oomMalloc/oomRealloc on the slot's content and the upcoming
   * raw outcomes. Each iteration reads the slot afresh, stops if it is null, calls
   * the handler, and retries the raw call.
   */
  function Retry(slot: Option<Handler>, script: seq<bool>): Run
    decreases |script|
  {
    match slot
    case None => Run(0, false)
    case Some(h) =>
      if !Fails(script) then Run(1, true)
      else
        var rest := Retry(After(h), script[1..]);
        Run(rest.calls + 1, rest.served)
  }

  /** The handler slot after allocate or reallocate, from `slot` and the raw-call script `script`. */
  function SlotAfter(slot: Option<Handler>, script: seq<bool>): Option<Handler>
  {
    if Fails(script) then Settled(slot) else slot
  }

  /** The raw-call script after allocate or reallocate: one raw call, then the retries. */
  function ScriptAfter(slot: Option<Handler>, script: seq<bool>): seq<bool>
  {
    if Fails(script) then Skip(script, 1 + Retry(slot, script[1..]).calls) else Consume(script)
  }

  /** The number of failing raw calls at the head of `script`. */
  function LeadingFailures(script: seq<bool>): (k: nat)
    ensures k <= |script|
    ensures forall i :: 0 <= i < k ==> script[i]
    ensures k < |script| ==> !script[k]
  {
    if Fails(script) then 1 + LeadingFailures(script[1..]) else 0
  }

  /** `script` once its first `k` entries are consumed. */
  function Skip(script: seq<bool>, k: nat): seq<bool>
  {
    if k >= |script| then [] else script[k..]
  }

  /** Whether a first-level request succeeds: the raw call does, or the retry loop after it. */
  predicate Served(slot: Option<Handler>, script: seq<bool>)
  {
    !Fails(script) || Retry(slot, script[1..]).served
  }

  /** The loop runs the handler at most once per scripted failure, plus the run before the success. */
  lemma {:induction false} RetryBound(slot: Option<Handler>, script: seq<bool>)
    ensures Retry(slot, script).calls <= LeadingFailures(script) + 1
    ensures Retry(slot, script).calls <= |script| + 1
    decreases |script|
  {
    match slot
    case None =>
    case Some(h) =>
      if Fails(script) {
        RetryBound(After(h), script[1..]);
      }
  }

  /**
   * A handler that never uninstalls itself is called once per failing retry and the
   * loop ends with a block, so no request fails while such a handler is installed.
   */
  lemma {:induction false} PersistentHandlerServes(h: Handler, script: seq<bool>)
    requires !h.uninstalls
    ensures Retry(Some(h), script) == Run(LeadingFailures(script) + 1, true)
    decreases |script|
  {
    if Fails(script) {
      PersistentHandlerServes(h, script[1..]);
    }
  }

  /**
   * The loop ends without a block exactly when it finds the slot null: either it
   * was null from the start, or the handler uninstalled itself and the retry after
   * it failed too.
   */
  lemma {:induction false} RetryFailsOnlyOnNullSlot(slot: Option<Handler>, script: seq<bool>)
    ensures !Retry(slot, script).served <==>
      slot.None? || (slot.value.uninstalls && Fails(script))
  {
    match slot
    case None =>
    case Some(h) =>
      if Fails(script) {
        if h.uninstalls {
          assert Retry(After(h), script[1..]) == Run(0, false);
        } else {
          PersistentHandlerServes(h, script[1..]);
        }
      }
  }

  lemma SkipConsume(script: seq<bool>, k: nat)
    ensures Consume(Skip(script, k)) == Skip(script, k + 1)
  {
    if k + 1 < |script| {
      assert Skip(script, k)[1..] == script[k + 1..];
    }
  }

  class MallocAllocator {
    var handler: Option<Handler>   // the static slot __mallocAllocOomHandler
    const heap: Heap

    constructor (heap: Heap)
      ensures handler == Some(MyAllocHandler) && this.heap == heap
    {
      handler := Some(MyAllocHandler);
      this.heap := heap;
    }

    /** setMallocHandler: installs `h` and hands back the handler it replaces. */
    method SetMallocHandler(h: Option<Handler>) returns (previous: Option<Handler>)
      modifies this
      ensures handler == h && previous == old(handler)
    {
      previous := handler;
      handler := h;
    }

    /** Calls the handler `h` that the loop just read from the slot. */
    method RunHandler(h: Handler)
      modifies this
      ensures handler == if h.uninstalls then None else old(handler)
    {
      if h.uninstalls {
        handler := None;
      }
    }

    /** oomMalloc: the retry loop behind a failed malloc(n). */
    method OomMalloc(n: nat) returns (r: Outcome)
      requires heap.Valid()
      modifies this, heap
      ensures heap.Valid()
      ensures var run := Retry(old(handler), old(heap.script));
        (r.Block? <==> run.served) && heap.script == Skip(old(heap.script), run.calls)
      ensures handler == Settled(old(handler))
      ensures r.Block? ==> r.addr == old(heap.brk) && r.addr != NULL && heap.brk == old(heap.brk) + n
      ensures r.OutOfMemory? ==> heap.brk == old(heap.brk)
      ensures heap.freed == old(heap.freed) && heap.copies == old(heap.copies)
    {
      r := OutOfMemory;
      var done := false;
      ghost var k: nat := 0;
      while !done
        invariant heap.Valid()
        invariant heap.freed == old(heap.freed) && heap.copies == old(heap.copies)
        invariant heap.script == Skip(old(heap.script), k)
        invariant k == 0 ==> handler == old(handler)
        invariant k > 0 ==> handler == Settled(old(handler)) && old(handler).Some?
        invariant !done ==> heap.brk == old(heap.brk) && r.OutOfMemory?
        invariant !done ==> var rest := Retry(handler, heap.script);
          Retry(old(handler), old(heap.script)) == Run(k + rest.calls, rest.served)
        invariant done ==> var run := Retry(old(handler), old(heap.script));
          (r.Block? <==> run.served) && k == run.calls && handler == Settled(old(handler))
        invariant done && r.Block? ==> r.addr == old(heap.brk) && r.addr != NULL && heap.brk == old(heap.brk) + n
        invariant done && r.OutOfMemory? ==> heap.brk == old(heap.brk)
        decreases !done, |heap.script|
      {
        var h := handler;
        if h.None? {
          // "Out of Memory." and exit(EXIT_FAILURE)
          r := OutOfMemory;
          done := true;
        } else {
          RunHandler(h.value);
          SkipConsume(old(heap.script), k);
          var p := heap.Malloc(n);
          k := k + 1;
          if p != NULL {
            r := Block(p);
            done := true;
          }
        }
      }
    }

    /** oomRealloc: the same retry loop behind a failed realloc(block, n). */
    method OomRealloc(block: Address, n: nat) returns (r: Outcome)
      requires heap.Valid()
      modifies this, heap
      ensures heap.Valid()
      ensures var run := Retry(old(handler), old(heap.script));
        (r.Block? <==> run.served) && heap.script == Skip(old(heap.script), run.calls)
      ensures handler == Settled(old(handler))
      ensures r.Block? ==>
        r.addr == old(heap.brk) && r.addr != NULL && heap.brk == old(heap.brk) + n &&
        heap.freed == old(heap.freed) + [block]
      ensures r.OutOfMemory? ==> heap.brk == old(heap.brk) && heap.freed == old(heap.freed)
      ensures heap.copies == old(heap.copies)
    {
      r := OutOfMemory;
      var done := false;
      ghost var k: nat := 0;
      while !done
        invariant heap.Valid()
        invariant heap.copies == old(heap.copies)
        invariant heap.script == Skip(old(heap.script), k)
        invariant k == 0 ==> handler == old(handler)
        invariant k > 0 ==> handler == Settled(old(handler)) && old(handler).Some?
        invariant !done ==> heap.brk == old(heap.brk) && heap.freed == old(heap.freed) && r.OutOfMemory?
        invariant !done ==> var rest := Retry(handler, heap.script);
          Retry(old(handler), old(heap.script)) == Run(k + rest.calls, rest.served)
        invariant done ==> var run := Retry(old(handler), old(heap.script));
          (r.Block? <==> run.served) && k == run.calls && handler == Settled(old(handler))
        invariant done && r.Block? ==>
          r.addr == old(heap.brk) && r.addr != NULL &&
          heap.brk == old(heap.brk) + n && heap.freed == old(heap.freed) + [block]
        invariant done && r.OutOfMemory? ==> heap.brk == old(heap.brk) && heap.freed == old(heap.freed)
        decreases !done, |heap.script|
      {
        var h := handler;
        if h.None? {
          r := OutOfMemory;
          done := true;
        } else {
          RunHandler(h.value);
          SkipConsume(old(heap.script), k);
          var p := heap.Realloc(block, n);
          k := k + 1;
          if p != NULL {
            r := Block(p);
            done := true;
          }
        }
      }
    }

    /** allocate(n): malloc(n), and the retry loop only when malloc returns null. */
    method Allocate(n: nat) returns (r: Outcome)
      requires heap.Valid()
      modifies this, heap
      ensures heap.Valid()
      ensures r == if Served(old(handler), old(heap.script)) then Block(old(heap.brk)) else OutOfMemory
      ensures r.Block? ==> r.addr != NULL && heap.brk == old(heap.brk) + n
      ensures r.OutOfMemory? ==> heap.brk == old(heap.brk)
      ensures handler == SlotAfter(old(handler), old(heap.script))
      ensures heap.script == ScriptAfter(old(handler), old(heap.script))
      ensures heap.freed == old(heap.freed) && heap.copies == old(heap.copies)
    {
      var p := heap.Malloc(n);
      if p == NULL {
        ghost var rest := heap.script;
        r := OomMalloc(n);
        assert Skip(rest, Retry(old(handler), rest).calls)
            == Skip(old(heap.script), 1 + Retry(old(handler), rest).calls);
      } else {
        r := Block(p);
      }
    }

    /** deallocate(p, n): free(p); the size is ignored. */
    method Deallocate(p: Address, n: nat)
      modifies heap
      ensures heap.freed == old(heap.freed) + [p]
      ensures heap.brk == old(heap.brk) && heap.script == old(heap.script) && heap.copies == old(heap.copies)
    {
      heap.Free(p);
    }

    /** reallocate(p, old, new): realloc(p, new), and the retry loop only when it returns null. */
    method Reallocate(p: Address, oldSize: nat, newSize: nat) returns (r: Outcome)
      requires heap.Valid()
      modifies this, heap
      ensures heap.Valid()
      ensures r == if Served(old(handler), old(heap.script)) then Block(old(heap.brk)) else OutOfMemory
      ensures r.Block? ==> r.addr != NULL && heap.brk == old(heap.brk) + newSize && heap.freed == old(heap.freed) + [p]
      ensures r.OutOfMemory? ==> heap.brk == old(heap.brk) && heap.freed == old(heap.freed)
      ensures handler == SlotAfter(old(handler), old(heap.script))
      ensures heap.script == ScriptAfter(old(handler), old(heap.script))
      ensures heap.copies == old(heap.copies)
    {
      var q := heap.Realloc(p, newSize);
      if q == NULL {
        ghost var rest := heap.script;
        r := OomRealloc(p, newSize);
        assert Skip(rest, Retry(old(handler), rest).calls)
            == Skip(old(heap.script), 1 + Retry(old(handler), rest).calls);
      } else {
        r := Block(q);
      }
    }
  }

  /** set(h) followed by set(previous) puts the slot back as it was. */
  method SetAndRestore(a: MallocAllocator, h: Option<Handler>)
    modifies a
    ensures a.handler == old(a.handler)
  {
    var previous := a.SetMallocHandler(h);
    var back := a.SetMallocHandler(previous);
    assert back == h;
  }
}
