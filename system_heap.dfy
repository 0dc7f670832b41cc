/**
 * The C runtime underneath the allocators: raw malloc, realloc, free and memcpy.
 * These are foreign calls, so the model treats them as an oracle. A successful
 * malloc or realloc hands out a fresh range above every range handed out before
 * (a bump pointer `brk`); whether the next raw call fails is read off a script
 * fixed in advance. Byte contents are not modelled; memcpy and free are recorded
 * in logs so that callers can state what was copied and what was released.
 */
module SystemHeap {
  type Address = nat

  /** The null pointer. Every block ever handed out starts at an address >= 1. */
  const NULL: Address := 0

  /** True when the next raw malloc/realloc call scripted by `script` fails. */
  predicate Fails(script: seq<bool>)
  {
    script != [] && script[0]
  }

  /** The script after one raw call has consumed its entry. */
  function Consume(script: seq<bool>): (r: seq<bool>)
    ensures |r| == if script == [] then 0 else |script| - 1
  {
    if script == [] then [] else script[1..]
  }

  /** One memcpy: `bytes` bytes copied from `src` to `dst`. */
  datatype Copy = Copy(dst: Address, src: Address, bytes: nat)

  class Heap {
    var brk: Address          // lowest address never handed out
    var script: seq<bool>     // upcoming raw call outcomes, true = fails; calls succeed once it is empty
    var freed: seq<Address>   // every pointer passed to free, in order
    var copies: seq<Copy>     // every memcpy, in order

    ghost predicate Valid()
      reads this
    {
      brk >= 1
    }

    constructor (script: seq<bool>)
      ensures Valid() && brk == 1 && this.script == script
      ensures freed == [] && copies == []
    {
      brk := 1;
      this.script := script;
      freed := [];
      copies := [];
    }

    /** Raw malloc(n): NULL when the script says so, otherwise a fresh range [brk, brk + n). */
    method Malloc(n: nat) returns (p: Address)
      requires Valid()
      modifies this
      ensures Valid()
      ensures script == Consume(old(script))
      ensures Fails(old(script)) ==> p == NULL && brk == old(brk)
      ensures !Fails(old(script)) ==> p == old(brk) && p != NULL && brk == old(brk) + n
      ensures freed == old(freed) && copies == old(copies)
    {
      if Fails(script) {
        p := NULL;
      } else {
        p := brk;
        brk := brk + n;
      }
      script := Consume(script);
    }

    /**
     * Raw realloc(block, n): NULL (and the old block untouched) when the script says
     * so; otherwise the block moves to a fresh range [brk, brk + n) and the old one is
     * released.
     */
    method Realloc(block: Address, n: nat) returns (p: Address)
      requires Valid()
      modifies this
      ensures Valid()
      ensures script == Consume(old(script))
      ensures Fails(old(script)) ==> p == NULL && brk == old(brk) && freed == old(freed)
      ensures !Fails(old(script)) ==>
        p == old(brk) && p != NULL && brk == old(brk) + n && freed == old(freed) + [block]
      ensures copies == old(copies)
    {
      if Fails(script) {
        p := NULL;
      } else {
        p := brk;
        brk := brk + n;
        freed := freed + [block];
      }
      script := Consume(script);
    }

    /** Raw free(p). */
    method Free(p: Address)
      modifies this
      ensures freed == old(freed) + [p]
      ensures brk == old(brk) && script == old(script) && copies == old(copies)
    {
      freed := freed + [p];
    }

    /** Raw memcpy(dst, src, bytes). */
    method Memcpy(dst: Address, src: Address, bytes: nat)
      modifies this
      ensures copies == old(copies) + [Copy(dst, src, bytes)]
      ensures brk == old(brk) && script == old(script) && freed == old(freed)
    {
      copies := copies + [Copy(dst, src, bytes)];
    }
  }
}
